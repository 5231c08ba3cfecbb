/** `PGUrl`: a PostgreSQL key=value connection string held as a map. */
module PgUrl {
  import opened Strs

  /** Each key of `m` exactly once, in some order (Go map iteration order is
      unspecified). */
  ghost predicate Enumerates(order: seq<string>, m: map<string, string>)
  {
    (forall i, j :: 0 <= i < j < |order| ==> order[i] != order[j]) &&
    (forall k :: k in m <==> k in order)
  }

  /** The `k=v` texts of the keys in `order`. */
  function Texts(order: seq<string>, m: map<string, string>): (r: seq<string>)
    requires forall k :: k in order ==> k in m
    ensures |r| == |order|
  {
    seq(|order|, i requires 0 <= i < |order| => order[i] + "=" + m[order[i]])
  }

  /** The map Parse builds from the space-separated tokens, one token after
      another: a token that splits at '=' into exactly two parts stores the
      second under the first, overwriting an earlier entry; any other token
      is ignored. */
  function Parsed(tokens: seq<string>): map<string, string>
    decreases |tokens|
  {
    if |tokens| == 0 then map[]
    else
      var m := Parsed(tokens[..|tokens| - 1]);
      var vs := Split(tokens[|tokens| - 1], '=');
      if |vs| == 2 then m[vs[0] := vs[1]] else m
  }

  /** No key or value holds a separator. */
  ghost predicate Clean(m: map<string, string>)
  {
    forall k :: k in m ==> ' ' !in k && '=' !in k && ' ' !in m[k] && '=' !in m[k]
  }

  class PGUrl {
    var Entries: map<string, string>

    constructor ()
      ensures Entries == map[]
    {
      Entries := map[];
    }

    /** `Parse`: empty the map, then store every well-formed token of the
        space-separated text. */
    method Parse(dburl: string)
      modifies this
      ensures Entries == Parsed(Split(dburl, ' '))
    {
      while Entries != map[]
        decreases |Entries.Keys|
      {
        var k :| k in Entries;
        assert (Entries - {k}).Keys == Entries.Keys - {k};
        Entries := Entries - {k};
      }
      var tokens := Split(dburl, ' ');
      for i := 0 to |tokens|
        invariant Entries == Parsed(tokens[..i])
      {
        var vs := Split(tokens[i], '=');
        assert tokens[..i + 1][..i] == tokens[..i];
        if |vs| == 2 {
          Entries := Entries[vs[0] := vs[1]];
        }
      }
      assert tokens[..|tokens|] == tokens;
    }

    /** `String`: one `k=v` per entry, in map iteration order, separated by
        single spaces. `order` is the order the iteration took. */
    method String() returns (r: string, ghost order: seq<string>)
      ensures Enumerates(order, Entries)
      ensures r == Join(Texts(order, Entries), " ")
    {
      var rev: seq<string> := [];
      var remaining := Entries.Keys;
      order := [];
      while remaining != {}
        invariant forall k :: k in Entries <==> k in remaining || k in order
        invariant forall k :: k in remaining ==> k !in order
        invariant forall i, j :: 0 <= i < j < |order| ==> order[i] != order[j]
        invariant rev == Texts(order, Entries)
        decreases |remaining|
      {
        var k :| k in remaining;
        rev := rev + [k + "=" + Entries[k]];
        order := order + [k];
        remaining := remaining - {k};
      }
      r := Join(rev, " ");
    }
  }

  /** `NewPGUrl`: a fresh PGUrl parsed from the text. */
  method NewPGUrl(dburl: string) returns (u: PGUrl)
    ensures fresh(u) && u.Entries == Parsed(Split(dburl, ' '))
  {
    u := new PGUrl();
    u.Parse(dburl);
  }

  /** Parsing the empty text gives the empty map. */
  lemma ParseEmpty()
    ensures Parsed(Split("", ' ')) == map[]
  {
    assert Split("", ' ') == [""];
    assert [""][..0] == [];
    assert Split("", '=') == [""];
  }

  /** A later token overwrites an earlier one with the same key, and a token
      that does not split into exactly two parts changes nothing. */
  lemma ParsedLastWins(tokens: seq<string>, t: string)
    ensures |Split(t, '=')| == 2 ==> Parsed(tokens + [t]) == Parsed(tokens)[Split(t, '=')[0] := Split(t, '=')[1]]
    ensures |Split(t, '=')| != 2 ==> Parsed(tokens + [t]) == Parsed(tokens)
  {
    assert (tokens + [t])[..|tokens|] == tokens;
  }

  /** `k=v` splits at '=' into k and v when neither holds '='. */
  lemma EntrySplits(k: string, v: string)
    requires '=' !in k && '=' !in v
    ensures Split(k + "=" + v, '=') == [k, v]
  {
    assert Join([k, v], "=") == k + "=" + v;
    SplitJoin([k, v], '=');
  }

  /** Parsing the texts of distinct keys gives back the map on those keys. */
  lemma {:induction false} ParsedTexts(order: seq<string>, m: map<string, string>)
    requires forall i, j :: 0 <= i < j < |order| ==> order[i] != order[j]
    requires forall k :: k in order ==> k in m
    requires Clean(m)
    ensures Parsed(Texts(order, m)) == map k | k in order :: m[k]
    decreases |order|
  {
    if |order| > 0 {
      var init := order[..|order| - 1];
      var last := order[|order| - 1];
      assert Texts(order, m)[..|order| - 1] == Texts(init, m);
      ParsedTexts(init, m);
      EntrySplits(last, m[last]);
      assert forall k :: k in order <==> k in init || k == last;
    }
  }

  /** `NewPGUrl(u.String())` equals `u` when no key or value holds a space or
      '=', whatever order the entries were printed in. */
  lemma StringParseRoundTrip(m: map<string, string>, order: seq<string>)
    requires Enumerates(order, m)
    requires Clean(m)
    ensures Parsed(Split(Join(Texts(order, m), " "), ' ')) == m
  {
    var texts := Texts(order, m);
    if |order| == 0 {
      assert Join(texts, " ") == "";
      ParseEmpty();
      assert m.Keys == {};
    } else {
      forall i | 0 <= i < |texts|
        ensures ' ' !in texts[i]
      {
        assert texts[i] == order[i] + "=" + m[order[i]];
      }
      SplitJoin(texts, ' ');
      ParsedTexts(order, m);
    }
  }
}
