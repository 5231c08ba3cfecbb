/** `foundColumns`: which live column each desired column continues. A
    desired column is matched by its true name against the live columns'
    names; the pairing itself only compares keys, so it is stated over any
    key type. */
module Pairing {
  import opened DiffOps

  /** The pairs key `j` forms with the first `k` live names equal to `key`,
      in live-column order. */
  function Matches<N(==)>(olds: seq<N>, k: nat, j: nat, key: N): (r: seq<Found>)
    requires k <= |olds|
    ensures forall x :: 0 <= x < |r| ==> r[x].New == j && r[x].Old < k
  {
    if k == 0 then []
    else Matches(olds, k - 1, j, key) + (if olds[k - 1] == key then [Found(k - 1, j)] else [])
  }

  /** `foundColumns` after the first `n` keys: each one paired with every
      live name equal to it, in key order. */
  function Pairs<N(==)>(olds: seq<N>, keys: seq<N>, n: nat): (r: seq<Found>)
    requires n <= |keys|
    ensures forall x :: 0 <= x < |r| ==> r[x].New < n && r[x].Old < |olds|
  {
    if n == 0 then []
    else Pairs(olds, keys, n - 1) + Matches(olds, |olds|, n - 1, keys[n - 1])
  }

  /** The pairing of a table's live columns with its desired ones. */
  function ColumnPairs<D>(olds: seq<Column<D>>, news: seq<Column<D>>): (r: seq<Found>)
    ensures ValidPairs(r, olds, news)
  {
    Pairs(Names(olds), TrueNames(news), |news|)
  }

  lemma {:induction false} MatchesSound<N>(olds: seq<N>, k: nat, j: nat, key: N)
    requires k <= |olds|
    ensures forall x :: 0 <= x < |Matches(olds, k, j, key)| ==> olds[Matches(olds, k, j, key)[x].Old] == key
  {
    if k > 0 {
      MatchesSound(olds, k - 1, j, key);
    }
  }

  lemma {:induction false} MatchesComplete<N>(olds: seq<N>, k: nat, j: nat, key: N)
    requires k <= |olds|
    ensures forall i :: 0 <= i < k && olds[i] == key ==> Found(i, j) in Matches(olds, k, j, key)
  {
    if k > 0 {
      MatchesComplete(olds, k - 1, j, key);
    }
  }

  /** Every pair joins a live name to a key equal to it. */
  lemma {:induction false} PairsSound<N>(olds: seq<N>, keys: seq<N>, n: nat)
    requires n <= |keys|
    ensures forall x :: 0 <= x < |Pairs(olds, keys, n)| ==> olds[Pairs(olds, keys, n)[x].Old] == keys[Pairs(olds, keys, n)[x].New]
  {
    if n > 0 {
      PairsSound(olds, keys, n - 1);
      MatchesSound(olds, |olds|, n - 1, keys[n - 1]);
    }
  }

  /** Every live name equal to a key is paired with it. */
  lemma {:induction false} PairsComplete<N>(olds: seq<N>, keys: seq<N>, n: nat)
    requires n <= |keys|
    ensures forall i, j :: 0 <= i < |olds| && 0 <= j < n && olds[i] == keys[j] ==> Found(i, j) in Pairs(olds, keys, n)
  {
    if n > 0 {
      PairsComplete(olds, keys, n - 1);
      MatchesComplete(olds, |olds|, n - 1, keys[n - 1]);
    }
  }

  predicate Sorted(r: seq<Found>)
  {
    forall a, b :: 0 <= a < b < |r| ==> r[a].New < r[b].New || (r[a].New == r[b].New && r[a].Old < r[b].Old)
  }

  lemma {:induction false} MatchesSorted<N>(olds: seq<N>, k: nat, j: nat, key: N)
    requires k <= |olds|
    ensures Sorted(Matches(olds, k, j, key))
  {
    if k > 0 {
      MatchesSorted(olds, k - 1, j, key);
    }
  }

  /** The pairs come in key order, and for one key in live-column order; so
      no pair is listed twice. */
  lemma {:induction false} PairsSorted<N>(olds: seq<N>, keys: seq<N>, n: nat)
    requires n <= |keys|
    ensures Sorted(Pairs(olds, keys, n))
  {
    if n > 0 {
      PairsSorted(olds, keys, n - 1);
      MatchesSorted(olds, |olds|, n - 1, keys[n - 1]);
      var p: seq<Found> := Pairs(olds, keys, n - 1);
      var m: seq<Found> := Matches(olds, |olds|, n - 1, keys[n - 1]);
      var s: seq<Found> := p + m;
      forall a, b | 0 <= a < b < |s|
        ensures s[a].New < s[b].New || (s[a].New == s[b].New && s[a].Old < s[b].Old)
      {
        if a < |p| && b >= |p| {
          assert s[a] == p[a] && s[b] == m[b - |p|];
        }
      }
    }
  }

  /** Whether live column `i` is in some pair. */
  predicate OldPaired(pairs: seq<Found>, i: nat)
  {
    exists k :: 0 <= k < |pairs| && pairs[k].Old == i
  }

  /** Whether desired column `j` is in some pair. */
  predicate NewPaired(pairs: seq<Found>, j: nat)
  {
    exists k :: 0 <= k < |pairs| && pairs[k].New == j
  }

  /** A live column is paired exactly when some key equals its name. */
  lemma OldPairedIff<N>(olds: seq<N>, keys: seq<N>)
    ensures forall i :: 0 <= i < |olds| ==>
      (OldPaired(Pairs(olds, keys, |keys|), i) <==> exists j :: 0 <= j < |keys| && keys[j] == olds[i])
  {
    var p := Pairs(olds, keys, |keys|);
    PairsSound(olds, keys, |keys|);
    PairsComplete(olds, keys, |keys|);
    forall i | 0 <= i < |olds| && OldPaired(p, i)
      ensures exists j :: 0 <= j < |keys| && keys[j] == olds[i]
    {
      var k :| 0 <= k < |p| && p[k].Old == i;
      assert keys[p[k].New] == olds[i];
    }
    forall i | 0 <= i < |olds| && exists j :: 0 <= j < |keys| && keys[j] == olds[i]
      ensures OldPaired(p, i)
    {
      var j :| 0 <= j < |keys| && keys[j] == olds[i];
      assert Found(i, j) in p;
      var k :| 0 <= k < |p| && p[k] == Found(i, j);
    }
  }

  /** A desired column is paired exactly when some live name equals its key. */
  lemma NewPairedIff<N>(olds: seq<N>, keys: seq<N>)
    ensures forall j :: 0 <= j < |keys| ==>
      (NewPaired(Pairs(olds, keys, |keys|), j) <==> exists i :: 0 <= i < |olds| && olds[i] == keys[j])
  {
    var p := Pairs(olds, keys, |keys|);
    forall j | 0 <= j < |keys| && NewPaired(p, j)
      ensures exists i :: 0 <= i < |olds| && olds[i] == keys[j]
    {
      PairsSound(olds, keys, |keys|);
      var k :| 0 <= k < |p| && p[k].New == j;
      assert olds[p[k].Old] == keys[j];
    }
    forall j | 0 <= j < |keys| && exists i :: 0 <= i < |olds| && olds[i] == keys[j]
      ensures NewPaired(p, j)
    {
      PairsComplete(olds, keys, |keys|);
      var i :| 0 <= i < |olds| && olds[i] == keys[j];
      assert Found(i, j) in p;
      var k :| 0 <= k < |p| && p[k] == Found(i, j);
    }
  }

  /** Nothing stops two desired columns from pairing with one live column:
      a kept column `a` and a new column `b` whose origin name is `a`'s both
      pair with the live `a`. */
  lemma TwoPairsOneOld<D>(a: Column<D>, b: Column<D>)
    requires a.Name != "" && a.Origin == "" && b.Origin == a.Name && b.Name != a.Name
    ensures ColumnPairs([a], [a, b]) == [Found(0, 0), Found(0, 1)]
  {
    assert TrueName(a) == a.Name && TrueName(b) == a.Name;
    assert Names([a]) == [a.Name];
    assert TrueNames([a, b]) == [a.Name, a.Name];
    assert Pairs([a.Name], [a.Name, a.Name], 1) == Matches([a.Name], 1, 0, a.Name) == [Found(0, 0)];
    assert Matches([a.Name], 1, 1, a.Name) == [Found(0, 1)];
  }

  /** `foundColumns` as the source builds it: for each desired column its
      true name, then a scan of the live columns appending every match. */
  method FindPairs<D>(olds: seq<Column<D>>, news: seq<Column<D>>) returns (pairs: seq<Found>)
    ensures pairs == ColumnPairs(olds, news)
  {
    ghost var names := Names(olds);
    ghost var keys := TrueNames(news);
    pairs := [];
    for j := 0 to |news|
      invariant pairs == Pairs(names, keys, j)
    {
      var vNew := news[j];
      var trueNewName := vNew.Name;
      if vNew.Origin != "" && vNew.Name != vNew.Origin {
        trueNewName := vNew.Origin;
      }
      assert trueNewName == keys[j];
      ghost var before := pairs;
      for i := 0 to |olds|
        invariant pairs == before + Matches(names, i, j, trueNewName)
      {
        if olds[i].Name == trueNewName {
          pairs := pairs + [Found(i, j)];
        }
      }
    }
  }

  /** The inner scan of the drop loop: is live column `i` in some pair? */
  method FoundOld(pairs: seq<Found>, i: nat) returns (b: bool)
    ensures b <==> OldPaired(pairs, i)
  {
    b := false;
    for k := 0 to |pairs|
      invariant !b ==> forall x :: 0 <= x < k ==> pairs[x].Old != i
      invariant b ==> OldPaired(pairs, i)
    {
      if pairs[k].Old == i {
        b := true;
        break;
      }
    }
  }

  /** The inner scan of the add loop: is desired column `j` in some pair? */
  method FoundNew(pairs: seq<Found>, j: nat) returns (b: bool)
    ensures b <==> NewPaired(pairs, j)
  {
    b := false;
    for k := 0 to |pairs|
      invariant !b ==> forall x :: 0 <= x < k ==> pairs[x].New != j
      invariant b ==> NewPaired(pairs, j)
    {
      if pairs[k].New == j {
        b := true;
        break;
      }
    }
  }
}
