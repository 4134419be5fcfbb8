/** The SAX events a JSON reader reports, the handler that receives them, and the error codes. */
module JsonEvents {
  import opened Bytes

  /** A handler call. A Double event carries its literal: the conversion to binary is not modelled. */
  datatype Event =
    | Null
    | Bool(b: bool)
    | Int(i: int)
    | Uint(u: int)
    | Int64(i64: int)
    | Uint64(u64: int)
    | Double(literal: bytes)
    | String(s: bytes)
    | StartObject
    | Key(name: bytes)
    | EndObject(memberCount: nat)
    | StartArray
    | EndArray(elementCount: nat)

  /** What a handler answers, as a function of all the calls it has received, the newest last.
      False asks the reader to stop. */
  type Handler = seq<Event> -> bool

  datatype ErrorCode =
    | DocumentEmpty
    | DocumentRootNotSingular
    | ValueInvalid
    | ObjectMissName
    | ObjectMissColon
    | ObjectMissCommaOrCurlyBracket
    | ArrayMissCommaOrSquareBracket
    | StringUnicodeEscapeInvalidHex
    | StringUnicodeSurrogateInvalid
    | StringEscapeInvalid
    | StringMissQuotationMark
    | NumberTooBig
    | NumberMissFraction
    | NumberMissExponent
    | Termination
    | UnspecificSyntaxError

  datatype Status = Good | Bad(code: ErrorCode, offset: int)
}
