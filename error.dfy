/**
 The error types of src/error.rs and the `<fault>` extractor.

 Errors of the crates underneath (hyper's error, xml-rs's reader error and
 text position, `io::Error`) are opaque types.  What those crates supply
 about them, their `Display` and `description` texts and their own
 conversions from `io::Error`, comes in as total functions.
 */
module Errors {

  import opened Wrappers
  import opened Values
  import opened Structs

  /** `hyper::Error`. */
  type HyperCause

  /** `xml::reader::Error`. */
  type XmlReaderError

  /** `xml::common::TextPosition`. */
  type TextPosition

  /** `std::io::Error`. */
  type IoError

  /** The texts the foreign crates render for their own values. */
  datatype ForeignText = ForeignText(
    hyperDisplay: HyperCause -> string,
    hyperDescription: HyperCause -> string,
    xmlDisplay: XmlReaderError -> string,
    xmlDescription: XmlReaderError -> string,
    positionDisplay: TextPosition -> string)

  /** Why a response could not be parsed. */
  datatype ParseError =
    | XmlError(xml: XmlReaderError)
    | InvalidValue(desc: string)
    | UnexpectedXml(expected: string, position: TextPosition)
  {
    /** `impl Display for ParseError`. */
    function Display(text: ForeignText): (s: string)
    {
      match this
      case XmlError(err) => "malformed XML: " + text.xmlDisplay(err)
      case InvalidValue(desc) => "invalid value: " + desc
      case UnexpectedXml(expected, position) => "expected " + expected + " at " + text.positionDisplay(position)
    }

    /** `Error::description` for `ParseError`. */
    function Description(text: ForeignText): (s: string)
    {
      match this
      case XmlError(err) => text.xmlDescription(err)
      case InvalidValue(desc) => desc
      case UnexpectedXml(_, _) => "unexpected XML content"
    }
  }

  /** Why a request could not be executed. */
  datatype RequestError =
    | HyperError(hyper: HyperCause)
    | ParseError(parse: ParseError)
  {
    /** `impl Display for RequestError`. */
    function Display(text: ForeignText): (s: string)
    {
      match this
      case HyperError(err) => "HTTP error: " + text.hyperDisplay(err)
      case ParseError(err) => "parse error: " + err.Display(text)
    }

    /** `Error::description` for `RequestError`: the wrapped error's description. */
    function Description(text: ForeignText): (s: string)
    {
      match this
      case HyperError(err) => text.hyperDescription(err)
      case ParseError(err) => err.Description(text)
    }
  }

  /** `From<HyperError> for RequestError`. */
  function RequestErrorFromHyper(e: HyperCause): (r: RequestError)
    ensures r.HyperError? && r.hyper == e
  {
    HyperError(e)
  }

  /** `From<ParseError> for RequestError`. */
  function RequestErrorFromParse(e: ParseError): (r: RequestError)
    ensures r.ParseError? && r.parse == e
  {
    ParseError(e)
  }

  /**
   `From<io::Error> for RequestError`: the I/O error goes through hyper's
   own conversion `hyperFromIo` and lands in the transport variant.
   */
  function RequestErrorFromIo(e: IoError, hyperFromIo: IoError -> HyperCause): (r: RequestError)
    ensures r.HyperError? && r.hyper == hyperFromIo(e)
    ensures !r.ParseError?
  {
    HyperError(hyperFromIo(e))
  }

  /** `From<XmlError> for ParseError`. */
  function ParseErrorFromXml(e: XmlReaderError): (r: ParseError)
    ensures r.XmlError? && r.xml == e
  {
    XmlError(e)
  }

  /**
   `From<io::Error> for ParseError`: the I/O error goes through xml-rs's own
   conversion `xmlFromIo` and lands in the malformed-XML variant.
   */
  function ParseErrorFromIo(e: IoError, xmlFromIo: IoError -> XmlReaderError): (r: ParseError)
    ensures r.XmlError? && r.xml == xmlFromIo(e)
  {
    XmlError(xmlFromIo(e))
  }

  /** A `<fault>` response: the remote call failed. */
  datatype Fault = Fault(faultCode: i32, faultString: string)

  /**
   `Fault::from_value`: a fault exactly when the value is a struct whose
   `faultCode` entry is an `Int` and whose `faultString` entry is a
   `String`, carrying those two payloads.
   */
  function FaultFromValue(v: Value): (r: Option<Fault>)
    ensures r.Some? <==> v.Struct? && IsIntEntry(v.members, "faultCode") && IsStringEntry(v.members, "faultString")
    ensures r.Some? ==>
              && Get(v.members, "faultCode") == Some(Int(r.value.faultCode))
              && Get(v.members, "faultString") == Some(String(r.value.faultString))
  {
    match v
    case Struct(map_) =>
      (match (Get(map_, "faultCode"), Get(map_, "faultString"))
       case (Some(Int(faultCode)), Some(String(faultString))) => Some(Fault(faultCode, faultString))
       case _ => None)
    case _ => None
  }

  predicate IsIntEntry(ms: seq<Member>, key: string)
  {
    Get(ms, key).Some? && Get(ms, key).value.Int?
  }

  predicate IsStringEntry(ms: seq<Member>, key: string)
  {
    Get(ms, key).Some? && Get(ms, key).value.String?
  }

  /**
   Both directions at once: `f` is extracted from `v` exactly when `v` is a
   struct holding `Int(f.faultCode)` under `faultCode` and
   `String(f.faultString)` under `faultString`.
   */
  lemma FaultFromValueExactly(v: Value, f: Fault)
    ensures FaultFromValue(v) == Some(f)
        <==> v.Struct? && Get(v.members, "faultCode") == Some(Int(f.faultCode))
                       && Get(v.members, "faultString") == Some(String(f.faultString))
  {
  }

  /** Entries other than the two fault fields do not change the outcome. */
  lemma FaultIgnoresOtherMembers(ms: seq<Member>, key: string, x: Value)
    requires Sorted(ms) && key != "faultCode" && key != "faultString"
    ensures FaultFromValue(Struct(Insert(ms, key, x))) == FaultFromValue(Struct(ms))
  {
    var ms' := Insert(ms, key, x);
    assert Get(ms', "faultCode") == Get(ms, "faultCode");
    assert Get(ms', "faultString") == Get(ms, "faultString");
    FaultReadsTwoEntries(ms', ms);
  }

  /** Only the `faultCode` and `faultString` entries are looked at. */
  lemma FaultReadsTwoEntries(a: seq<Member>, b: seq<Member>)
    requires Get(a, "faultCode") == Get(b, "faultCode") && Get(a, "faultString") == Get(b, "faultString")
    ensures FaultFromValue(Struct(a)) == FaultFromValue(Struct(b))
  {
  }

  /**
   The struct a server sends in a `<fault>` response, with the two members
   the XML-RPC specification requires, built as the response parser builds
   a struct: by inserting its members into an empty map.
   */
  function FaultStruct(f: Fault): (v: Value)
    ensures WellFormed(v)
  {
    var code := Insert([], "faultCode", Int(f.faultCode));
    InsertWellFormed([], "faultCode", Int(f.faultCode));
    InsertWellFormed(code, "faultString", String(f.faultString));
    Struct(Insert(code, "faultString", String(f.faultString)))
  }

  /** Every fault survives the trip through its struct form. */
  lemma FaultStructRoundTrip(f: Fault)
    ensures FaultFromValue(FaultStruct(f)) == Some(f)
  {
    var code := Insert([], "faultCode", Int(f.faultCode));
    var ms := Insert(code, "faultString", String(f.faultString));
    assert FaultStruct(f) == Struct(ms);
    assert Get(ms, "faultCode") == Get(code, "faultCode") == Some(Int(f.faultCode));
    assert Get(ms, "faultString") == Some(String(f.faultString));
    FaultFromValueExactly(Struct(ms), f);
  }

  /** A struct whose `faultCode` is a `String` instead of an `Int` is not a fault. */
  lemma FaultCodeMustBeInt(code: string, text: string)
    ensures FaultFromValue(Struct(Insert(Insert([], "faultCode", String(code)), "faultString", String(text)))) == None
  {
    var ms := Insert(Insert([], "faultCode", String(code)), "faultString", String(text));
    assert Get(ms, "faultCode") == Some(String(code));
  }

  /** A struct without a `faultString` member is not a fault. */
  lemma FaultStringRequired(code: i32)
    ensures FaultFromValue(Struct(Insert([], "faultCode", Int(code)))) == None
  {
    var ms := Insert([], "faultCode", Int(code));
    assert ms == [Member("faultCode", Int(code))];
    assert Get(ms, "faultString") == None;
  }

  /** Only structs can be faults. */
  lemma NonStructIsNoFault(v: Value)
    requires !v.Struct?
    ensures FaultFromValue(v) == None
  {
  }

  /** The text of a parse error tells which kind it is and keeps what it wraps. */
  lemma ParseErrorDisplayKeepsCause(e: ParseError, text: ForeignText)
    ensures e.XmlError? ==> e.Display(text) == "malformed XML: " + text.xmlDisplay(e.xml)
    ensures e.InvalidValue? ==> e.Display(text) == "invalid value: " + e.desc
    ensures e.UnexpectedXml? ==> e.Display(text) == "expected " + e.expected + " at " + text.positionDisplay(e.position)
  {
  }

  /** Parse errors of different kinds never render the same text; nor do two different invalid values. */
  lemma ParseErrorDisplayDistinguishes(a: ParseError, b: ParseError, text: ForeignText)
    requires a.Display(text) == b.Display(text)
    ensures a.XmlError? == b.XmlError? && a.InvalidValue? == b.InvalidValue? && a.UnexpectedXml? == b.UnexpectedXml?
    ensures a.InvalidValue? ==> a.desc == b.desc
  {
    var s := a.Display(text);
    assert a.XmlError? ==> s[0] == 'm';
    assert a.InvalidValue? ==> s[0] == 'i';
    assert a.UnexpectedXml? ==> s[0] == 'e';
    assert b.XmlError? ==> s[0] == 'm';
    assert b.InvalidValue? ==> s[0] == 'i';
    assert b.UnexpectedXml? ==> s[0] == 'e';
    if a.InvalidValue? {
      assert s[15..] == a.desc && s[15..] == b.desc;
    }
  }

  /** A request error's text starts with its layer's prefix and keeps the wrapped error's text. */
  lemma RequestErrorDisplayLayers(e: RequestError, text: ForeignText)
    ensures e.HyperError? ==> e.Display(text) == "HTTP error: " + text.hyperDisplay(e.hyper)
    ensures e.ParseError? ==> e.Display(text) == "parse error: " + e.parse.Display(text)
    ensures e.HyperError? ==> e.Display(text)[0] == 'H'
    ensures e.ParseError? ==> e.Display(text)[0] == 'p'
  {
  }

  /** An I/O failure converted to a request error reads as an HTTP error, never as a parse error. */
  lemma IoFailureReadsAsTransport(e: IoError, hyperFromIo: IoError -> HyperCause, text: ForeignText)
    ensures RequestErrorFromIo(e, hyperFromIo).Display(text) == "HTTP error: " + text.hyperDisplay(hyperFromIo(e))
  {
  }

  /**
   An invalid value describes itself by its own text, and every
   unexpected-XML error by the same fixed text.
   */
  lemma ParseErrorDescriptions(e: ParseError, text: ForeignText)
    ensures e.XmlError? ==> e.Description(text) == text.xmlDescription(e.xml)
    ensures e.InvalidValue? ==> e.Description(text) == e.desc
    ensures e.UnexpectedXml? ==> e.Description(text) == "unexpected XML content"
  {
  }

  /** A request error is described by the description of what it wraps. */
  lemma RequestErrorDescriptionDelegates(e: RequestError, text: ForeignText)
    ensures e.HyperError? ==> e.Description(text) == text.hyperDescription(e.hyper)
    ensures e.ParseError? ==> e.Description(text) == e.parse.Description(text)
  {
  }
}
