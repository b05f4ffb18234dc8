# xml-rpc-rs value codec and error types, in Dafny

This project models two pieces of the xml-rpc-rs client library:

- the XML-RPC value tree (`enum Value`), its `From` constructors and
  `Value::format`, the writer that turns a value into the line-oriented
  `<value>…</value>` fragment sent in a request;
- the error types of the library: the `<fault>` extractor
  `Fault::from_value`, and the `RequestError` and `ParseError` enums with
  their conversions, `Display` texts and `description` texts.

Modules:

- `Values` (value.dfy): the value tree, with `i32` and `u8` as newtypes.
  A `Struct` is the `BTreeMap<String, Value>` as its entries in iteration
  order.
- `Structs` (structs.dfy): the map itself. It covers the Rust `String`
  order (`Below`), `get` and `insert`, and proves that a sorted member
  list is determined by its entries.
- `XmlText` (text.dfy): `escape_xml` and the decimal rendering of an
  `i32`, each with the inverse that reads it back.
- `Serializer` (format.dfy): `Serialized` is the fragment as a function
  of the value. `Format`, `FormatMembers` and `FormatElements` are the
  line-by-line writer over a `Sink`, including its two `for` loops.
  `Format` is proved to append exactly `Serialized(v)`, `FormatMembers`
  exactly `MembersXml(ms)` and `FormatElements` exactly `ElementsXml(vs)`.
- `Unambiguous` (unambiguous.dfy): the fragment can be read back. Two
  different values are never written as the same text, and no fragment is
  a proper prefix of another.
- `Errors` (error.dfy): `Fault`, `FaultFromValue`, `ParseError`,
  `RequestError` and their conversions.
- `Wrappers` (wrappers.dfy): `Option`.

Payloads that come from other crates are opaque types:

- the `f64` of `Double` and the `iso8601::DateTime` of `DateTime`;
- `hyper::Error`, `xml::reader::Error`, `TextPosition` and `io::Error`.

Their renderings and conversions are parameters: a `Renderers` or
`ForeignText` record of total functions, or a conversion function
argument. Every property proved here holds whatever those functions are,
except the properties of module `Unambiguous`. Those hold under the
condition `Faithful`: the renderings of doubles, date-times and bytes hold
no `<` and map different payloads to different texts.

## Model

| member | source | states |
|---|---|---|
| Values.FromI32 | src/value.rs:85-89 | yields `Int` holding the same number |
| Values.FromBool | src/value.rs:91-95 | yields `Bool` holding the same flag |
| Values.FromString | src/value.rs:97-101 | yields `String` holding the same text |
| Values.FromStr | src/value.rs:103-107 | yields `String` holding the same text; the copy made by `to_string` equals the `From<String>` result |
| Values.FromF64 | src/value.rs:109-113 | yields `Double` holding the same float |
| Values.FromDateTime | src/value.rs:115-119 | yields `DateTime` holding the same timestamp |
| Values.FromBytes | src/value.rs:121-125 | yields `Base64` holding the same bytes |
| Structs.Get | src/error.rs:142 | `BTreeMap::get`: finds a value exactly when some entry has the key, and the value found is that entry's |
| Structs.Insert | src/value.rs:145 | `BTreeMap::insert` keeps names strictly ascending, stores the value under the key and leaves every other key's lookup unchanged |
| Structs.GetAt | src/value.rs:29 | in a sorted member list, looking up a member's name finds that member's value |
| Structs.SameEntriesSameMembers | src/value.rs:29 | two sorted member lists with the same lookups on every key are the same list, so the iteration order depends only on the entries |
| Structs.InsertOrderIrrelevant | src/value.rs:29 | inserting two different keys in either order gives the same map |
| Structs.InsertWellFormed | src/value.rs:29 | inserting a well-formed value into a well-formed struct keeps it well-formed |
| Structs.Below | src/value.rs:29 | the key order of `BTreeMap<String, Value>`, Rust's `Ord for String`: lexicographic by code point, a proper prefix first (UTF-8 byte order agrees with code point order) |
| Structs.Sorted | src/value.rs:29 | the map's iteration order: member names strictly ascend under `Below`, so no name repeats |
| Structs.WellFormed | src/value.rs:29 | every `Struct` anywhere in the value lists its members in that order |
| Structs.BelowTransitive | src/value.rs:29 | the `String` key order is transitive |
| Structs.BelowTotal | src/value.rs:29 | any two distinct keys are ordered one way or the other |
| XmlText.Escape | src/value.rs:48 | `escape_xml` on string values and member names (also src/value.rs:63): `&` becomes `&amp;`, `<` becomes `&lt;`, every other character is kept; its lemmas prove no raw `<` remains, `Unescape` inverts it, plain text is unchanged and it distributes over `+` |
| XmlText.EscapeHasNoRawLt | src/value.rs:48 | escaped text holds no raw `<` and is never shorter than the input |
| XmlText.UnescapeEscape | src/value.rs:48 | escaping loses nothing: reading back the two entities gives the original text |
| XmlText.EscapeKeepsPlainText | src/value.rs:48 | text without `&` and `<` is written unchanged |
| XmlText.EscapeAppend | src/value.rs:48 | escaping works character by character, so it distributes over concatenation |
| XmlText.EscapeExample | src/value.rs:137-138 | `<xml>&nbsp;string` escapes to `&lt;xml>&amp;nbsp;string`, leaving `>` raw |
| XmlText.EscapeNameExample | src/value.rs:145-148 | `x&<x` escapes to `x&amp;&lt;x` |
| XmlText.Digits | src/value.rs:42 | the digits of a natural number: at least one character, all decimal digits, no leading zero |
| XmlText.Decimal | src/value.rs:42 | the `{}` rendering of an integer: non-empty, and it starts with `-` exactly when the number is negative |
| XmlText.DigitsValueOfDigits | src/value.rs:42 | the digits of `n` denote `n` |
| XmlText.ParseDecimalInverse | src/value.rs:42 | the rendering of an integer reads back as the same integer |
| XmlText.DecimalInjective | src/value.rs:42 | distinct integers are rendered as distinct texts |
| Serializer.Serialized | src/value.rs:37-82 | the fragment of a value as one text, built from `Content`, `MemberXml`, `MembersXml` and `ElementsXml`; the lemmas below give its shape per variant: wrapped in `<value>` lines, each of the six scalars in its tag, struct members in map order, array elements in sequence order, and the fragments of both tests; `Unambiguous` proves it injective under `Faithful` |
| Serializer.Format | src/value.rs:37-82 | writing a value appends exactly its fragment `Serialized(v)` to the sink, and nothing else |
| Serializer.FormatMembers | src/value.rs:61-66 | the struct loop appends the member blocks in map order |
| Serializer.FormatElements | src/value.rs:72-74 | the array loop appends the elements' fragments in order |
| Serializer.Sink.WriteLine | src/value.rs:38 | one `writeln!` appends its text and a line feed |
| Serializer.SerializedWrapped | src/value.rs:38-80 | every fragment begins with `<value>\n` and ends with `</value>\n` |
| Serializer.BoolSerialization | src/value.rs:44-46 | `true` and `false` are written exactly as `<boolean>1</boolean>` and `<boolean>0</boolean>` |
| Serializer.BoolLines | src/value.rs:44-46 | a boolean's fragment holds the one-digit text `1` or `0` between `<boolean>` and `</boolean>` |
| Serializer.IntSerialization | src/value.rs:41-43 | an `Int` is written as `<i4>` + its decimal text + `</i4>`, and that text reads back as the number |
| Serializer.StringSerialization | src/value.rs:47-49 | a `String` is written as `<string>` + its escaped text + `</string>`; that text holds no raw `<` and unescapes to the original |
| Serializer.DoubleSerialization | src/value.rs:50-52 | a `Double` is written as `<double>` + the float's rendering + `</double>` |
| Serializer.DateTimeSerialization | src/value.rs:53-55 | a `DateTime` is written as `<dateTime.iso8601>` + the timestamp's rendering + `</dateTime.iso8601>` |
| Serializer.Base64Serialization | src/value.rs:56-58 | a `Base64` is written as `<base64>` + the bytes' encoding + `</base64>` |
| Serializer.EscapesStringsExample | src/value.rs:134-139 | the exact fragment of the `escapes_strings` test |
| Serializer.EscapesStringsVerbatim | src/value.rs:137-138 | `<xml>&nbsp;string` is written as the test's expected literal, character for character |
| Serializer.EscapesStructMemberNamesExample | src/value.rs:141-149 | the exact fragment of the `escapes_struct_member_names` test |
| Serializer.SingleMemberStructSerialization | src/value.rs:59-68 | a struct with one entry is written as one member block with the escaped name and the value's fragment |
| Serializer.StructSerialization | src/value.rs:59-68 | a struct is written as its member blocks, in member order, between `<struct>` and `</struct>` |
| Serializer.MemberSerialization | src/value.rs:62-65 | a member block holds `<member>`, the escaped name, the value's fragment and `</member>` |
| Serializer.MembersXmlAppend | src/value.rs:61-66 | member blocks follow the member order: the blocks of a joined list are the two lists' blocks |
| Serializer.ArraySerialization | src/value.rs:69-77 | an array is written as its elements' fragments, in order, between `<array>\n<data>\n` and `</data>\n</array>\n` |
| Serializer.ElementsXmlAppend | src/value.rs:72-74 | element fragments follow the sequence order: the fragments of a joined list are the two lists' fragments |
| Serializer.EmptyArraySerialization | src/value.rs:69-77 | an empty array is written as just the wrappers |
| Serializer.StructSerializationCanonical | src/value.rs:59-68 | two structs holding the same entries are written identically |
| Serializer.InsertionOrderInvisible | src/value.rs:59-68 | the order in which entries were inserted does not show in the output |
| Unambiguous.SerializedInjective | src/value.rs:37-82 | under `Faithful` (renderings hold no `<` and are injective), different values are written as different fragments |
| Unambiguous.SerializedPrefixUnique | src/value.rs:37-82 | under `Faithful`, a fragment followed by any text is read back as the same value and the same rest: no fragment is a proper prefix of another |
| Unambiguous.ContentPrefixUnique | src/value.rs:40-78 | under `Faithful`, the text between `<value>` and `</value>` determines the variant and its payload |
| Unambiguous.MembersPrefixUnique | src/value.rs:59-68 | under `Faithful`, member blocks followed by a closing tag are read back as the same member list |
| Unambiguous.MemberPrefixUnique | src/value.rs:62-65 | under `Faithful`, one member block is read back as the same name and value |
| Unambiguous.ElementsPrefixUnique | src/value.rs:69-77 | under `Faithful`, element fragments followed by a closing tag are read back as the same element list |
| Unambiguous.PayloadPrefixUnique | src/value.rs:41-57 | a one-line element whose payload holds no `<` is read back as the same payload |
| Unambiguous.SameVariant | src/value.rs:40-78 | the first letters of the opening tag tell the variant |
| Unambiguous.StructTextIffSameEntries | src/value.rs:59-68 | under `Faithful`, two structs are written as the same text if and only if they hold the same entries |
| Unambiguous.DecimalHasNoLt | src/value.rs:42 | the decimal text of an integer holds no `<` |
| Errors.RequestErrorFromHyper | src/error.rs:30-34 | wraps the HTTP error in `HyperError` unchanged |
| Errors.RequestErrorFromParse | src/error.rs:36-40 | wraps the parse error in `ParseError` unchanged |
| Errors.RequestErrorFromIo | src/error.rs:42-46 | an I/O error lands in `HyperError`, as hyper's own conversion of it, never in `ParseError` |
| Errors.ParseErrorFromXml | src/error.rs:86-90 | wraps the XML reader error in `XmlError` unchanged |
| Errors.ParseErrorFromIo | src/error.rs:92-96 | an I/O error lands in `XmlError`, as xml-rs's own conversion of it |
| Errors.FaultFromValue | src/error.rs:139-154 | `Some` exactly when the value is a struct whose `faultCode` is an `Int` and whose `faultString` is a `String`; the fault then carries those two payloads |
| Errors.FaultFromValueExactly | src/error.rs:139-154 | a given fault is extracted exactly when the struct holds its code under `faultCode` and its text under `faultString` |
| Errors.FaultReadsTwoEntries | src/error.rs:142 | two structs that agree on `faultCode` and `faultString` give the same result |
| Errors.FaultIgnoresOtherMembers | src/error.rs:142 | entries other than `faultCode` and `faultString` do not change the result |
| Errors.FaultStruct | src/error.rs:123-131 | the struct form of a fault, built by map insertion, is well-formed |
| Errors.FaultStructRoundTrip | src/error.rs:139-154 | every fault is extracted back from its struct form |
| Errors.FaultCodeMustBeInt | src/error.rs:142-149 | a struct whose `faultCode` is a `String` is not a fault |
| Errors.FaultStringRequired | src/error.rs:142-149 | a struct without `faultString` is not a fault |
| Errors.NonStructIsNoFault | src/error.rs:152 | a value that is not a struct is not a fault |
| Errors.ParseError.Display | src/error.rs:98-111 | `Display` of a parse error; `ParseErrorDisplayKeepsCause` gives its three exact texts and `ParseErrorDisplayDistinguishes` proves the texts of different kinds never coincide |
| Errors.ParseError.Description | src/error.rs:113-121 | `description` of a parse error; `ParseErrorDescriptions` gives its value for each kind, the constant `unexpected XML content` included |
| Errors.RequestError.Display | src/error.rs:48-55 | `Display` of a request error; `RequestErrorDisplayLayers` gives the `HTTP error: ` and `parse error: ` texts, each followed by the wrapped error's text |
| Errors.RequestError.Description | src/error.rs:57-64 | `description` of a request error; `RequestErrorDescriptionDelegates` proves it is the wrapped error's description |
| Errors.ParseErrorDisplayKeepsCause | src/error.rs:98-111 | the `Display` text is `malformed XML: ` + the XML error's text, or `invalid value: ` + the description, or `expected … at …` |
| Errors.ParseErrorDisplayDistinguishes | src/error.rs:98-111 | parse errors of different kinds never render the same text, nor do two different invalid values |
| Errors.RequestErrorDisplayLayers | src/error.rs:48-55 | the `Display` text is `HTTP error: ` + hyper's text or `parse error: ` + the parse error's own text |
| Errors.IoFailureReadsAsTransport | src/error.rs:42-55 | an I/O error converted to a request error displays as an HTTP error |
| Errors.ParseErrorDescriptions | src/error.rs:113-121 | the description is the XML error's own description, the invalid value's text, or the fixed `unexpected XML content` for every unexpected-XML error |
| Errors.RequestErrorDescriptionDelegates | src/error.rs:57-64 | a request error's description is the description of the error it wraps |

## Left out

- The `io::Write` failure path of `format`. The `try!` early returns are not modelled, because the `Sink` never fails.
- The text of a `Double`, a `DateTime` and `Base64` data. Rust's `f64` formatting, `format_datetime` and `base64::encode` belong to other crates or to `utils`, which is not part of this model. They are `Renderers` parameters, and no exact-output property depends on them.
- `escape_xml` lives in `utils`, which is not part of this model. `Escape` is what the two tests pin down: `&` becomes `&amp;`, `<` becomes `&lt;`, and every other character, `>` included, is unchanged.
- Unambiguous.SerializedInjective: holds only for `Renderers` that meet `Faithful`. Base64 text holds no `<`, and ISO 8601 text holds none either. This model defines none of the three renderers, so their injectivity is assumed for all three. Real `base64::encode` meets it. Whether `format_datetime` meets it is unknown: it lives in `utils`, and an `iso8601::DateTime` may carry more than its text shows, such as fractional seconds or a UTC offset. Rust's `{}` on `f64` does not meet it, because it writes every NaN as `NaN`.
- The `Display` and `description` texts of `hyper::Error`, `xml::reader::Error` and `TextPosition` are `ForeignText` parameters.
- `HyperError::from(io::Error)` and `XmlError::from(io::Error)` are parameters. The model states only which variant their results land in.
- The XML response parser, which builds `Value`s and `Fault`s from a response, is not part of this model. `FaultStruct` builds a fault struct the way the parser would, by map insertion.
- The derived `Debug` and `PartialEq` implementations are not modelled. Dafny's datatype equality stands in for `PartialEq`.
