/** Option and the error values the library returns (or panics with). */
module Base {

  datatype Option<T> = None | Some(value: T)

  /** The errors of the modelled code. A Go panic is modelled as the error
      `Panic`, because every entry point runs under a recover that turns the
      panic into an error. */
  datatype Error =
    | TableNameIsEmpty                 // ERROR_TableNameIsEmpty
    | NotFoundTable(table: string)     // ERROR_NotFoundTable
    | DataTypeInvalid(what: string)    // ERROR_DataTypeInvalid
    | Convert(what: string)            // ERROR_Convert
    | SyntaxError(text: string)        // strconv.ErrSyntax
    | RangeError(text: string)         // strconv.ErrRange
    | InvalidHex(text: string)         // "... is invalid hex string"
    | EmptyArgument(what: string)      // fmt.Errorf("the ... is empty")
    | InvalidType(what: string)        // fmt.Errorf("invalid type ...")
    | SqlError                         // the engine refused a statement
    | Foreign(what: string)            // an error of code that is not modelled
    | Panic(what: string)              // a Go panic

  datatype Result<T> = Ok(value: T) | Err(error: Error)
}
