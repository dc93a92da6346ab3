/** Failure-carrying results shared by every module, and the errors the
    Unified-Model core raises, each tagged with the Python exception class
    that the original code would raise. */
module Common {

  datatype Option<+T> = None | Some(value: T)

  /** The Python exception classes that the core can raise. */
  datatype PyException = KeyError | ValueError | TypeError | IndexError | AttributeError

  /** One constructor per distinct failure of the core. */
  datatype Error =
    | UnknownParameter(name: string)   // `self.lut[key]` for a name that is not in the table
    | NotAllKeysSpecified              // `raise KeyError('Not all keys specified')`
    | NoSuchEntry(key: seq<string>)    // `self.database[db_key]` for a key never added
    | PositionOutOfRange(pos: nat)     // `db_key[pos] = ...` past the end of the key list
    | IndexExists                      // `raise ValueError('Index cannot be created more than once.')`
    | NoIndex                          // `len(self.lut)` while the table is still None
    | ColumnMissing                    // a flux table with fewer than two columns
    | NotCallable(attribute: string)   // calling an attribute that is still None
    | MissingAttribute(attribute: string) // reading an attribute of None, or one never assigned
    | WrongStateLength(length: nat)    // unpacking a state vector that does not have 5 entries
  {
    /** The Python exception class of this error. */
    function Kind(): (k: PyException)
      ensures k == KeyError <==> UnknownParameter? || NotAllKeysSpecified? || NoSuchEntry?
      ensures k == IndexError <==> PositionOutOfRange? || ColumnMissing?
      ensures k == ValueError <==> IndexExists? || WrongStateLength?
      ensures k == TypeError <==> NoIndex? || NotCallable?
      ensures k == AttributeError <==> MissingAttribute?
    {
      match this
      case UnknownParameter(_) => KeyError
      case NotAllKeysSpecified => KeyError
      case NoSuchEntry(_) => KeyError
      case PositionOutOfRange(_) => IndexError
      case IndexExists => ValueError
      case NoIndex => TypeError
      case ColumnMissing => IndexError
      case NotCallable(_) => TypeError
      case MissingAttribute(_) => AttributeError
      case WrongStateLength(_) => ValueError
    }
  }

  /** A value, or the exception that was raised instead of returning it. */
  datatype Result<+T> = Ok(value: T) | Err(error: Error)

  /** The outcome of an operation that returns nothing (Python `None`) or raises. */
  datatype Outcome = Pass | Fail(error: Error)
}
