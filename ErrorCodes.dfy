/** The program's error codes, their integer values and the messages of its error category. */
module ErrorCodes {
  import opened Records

  /** The enumerators in declaration order; values start at 0. */
  datatype ErrorCode = Success | CliParseError | ZoteroDbDoesNotExist | ZoteroDbNotSupported | OutputDirInvalid

  /** A `std::error_code`: an integer value and the name of its category. */
  datatype ErrorCodeValue = ErrorCodeValue(value: int, category: string)

  const CategoryName: string := "ZoteroToFileTreeErrorCategory"
  const UnknownMessage: string := "Unknown ZoteroToFileTree error"

  /** `static_cast<int>` of an enumerator. */
  function Value(e: ErrorCode): (v: int)
    ensures 0 <= v <= 4
    ensures v == 0 <==> e == Success
  {
    match e
    case Success => 0
    case CliParseError => 1
    case ZoteroDbDoesNotExist => 2
    case ZoteroDbNotSupported => 3
    case OutputDirInvalid => 4
  }

  /** `static_cast<ErrorCodes>` of an integer, when it names an enumerator. */
  function FromValue(v: int): (r: Option<ErrorCode>)
    ensures r.Some? <==> 0 <= v <= 4
    ensures r.Some? ==> Value(r.value) == v
  {
    if v == 0 then Some(Success)
    else if v == 1 then Some(CliParseError)
    else if v == 2 then Some(ZoteroDbDoesNotExist)
    else if v == 3 then Some(ZoteroDbNotSupported)
    else if v == 4 then Some(OutputDirInvalid)
    else None
  }

  /** `ZoteroToFileTreeErrorCategory::name`. */
  function Name(): (s: string)
    ensures s == CategoryName
  {
    "ZoteroToFileTreeErrorCategory"
  }

  /** `ZoteroToFileTreeErrorCategory::message`: four fixed texts, everything else unknown. */
  function Message(ev: int): (s: string)
    ensures s == UnknownMessage <==> ev !in {0, 2, 3, 4}
    ensures ev == 0 ==> s == "Success"
  {
    if ev == 0 then "Success"
    else if ev == 2 then "The zotero library path does not exist"
    else if ev == 3 then "The zotero library path does not point to a supported zotero database"
    else if ev == 4 then "The output directory path is not valid"
    else "Unknown ZoteroToFileTree error"
  }

  /** `make_error_code`: the enumerator's value in this program's category. */
  function MakeErrorCode(e: ErrorCode): (c: ErrorCodeValue)
    ensures c.value == Value(e) && c.category == CategoryName
    ensures FromValue(c.value) == Some(e)
  {
    ErrorCodeValue(Value(e), Name())
  }

  /** Distinct enumerators have distinct values, and the value round-trips. */
  lemma ValueInjective(e1: ErrorCode, e2: ErrorCode)
    ensures Value(e1) == Value(e2) ==> e1 == e2
    ensures FromValue(Value(e1)) == Some(e1)
  {
  }

  /** Every enumerator except the command-line parse error has its own message. */
  lemma MessageOfCode(e: ErrorCode)
    ensures Message(MakeErrorCode(e).value) == UnknownMessage <==> e == CliParseError
    ensures e != CliParseError ==> forall e2 :: Message(Value(e2)) == Message(Value(e)) ==> e2 == e
  {
  }
}
