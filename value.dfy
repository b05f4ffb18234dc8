/**
 The XML-RPC value tree (`enum Value` in src/value.rs) and its `From`
 constructors.

 A `Struct` holds a `BTreeMap<String, Value>`; here it is the map's entries
 in iteration order, a sequence of members whose names strictly ascend
 (module Structs states and maintains that order).  The payloads that come
 from foreign crates, the `f64` of `Double` and the `iso8601::DateTime` of
 `DateTime`, are opaque types.
 */
module Values {

  /** Rust's `i32`. */
  newtype i32 = x: int | -0x8000_0000 <= x < 0x8000_0000

  /** Rust's `u8`, the element type of the `Vec<u8>` carried by `Base64`. */
  newtype byte = x: int | 0 <= x < 0x100

  /** An `f64`; its value and its text rendering are not modelled. */
  type F64(!new)

  /** An `iso8601::DateTime`; its fields and its rendering are not modelled. */
  type Timestamp(!new)

  datatype Value =
    | Int(i: i32)
    | Bool(b: bool)
    | String(s: string)
    | Double(d: F64)
    | DateTime(t: Timestamp)
    | Base64(data: seq<byte>)
    | Struct(members: seq<Member>)
    | Array(elements: seq<Value>)

  /** One entry of a `Struct`'s map: a field name and its value. */
  datatype Member = Member(name: string, value: Value)

  /** `From<i32>`. */
  function FromI32(n: i32): (v: Value)
    ensures v.Int? && v.i == n
  {
    Int(n)
  }

  /** `From<bool>`. */
  function FromBool(b: bool): (v: Value)
    ensures v.Bool? && v.b == b
  {
    Bool(b)
  }

  /** `From<String>`: the string is moved into the value. */
  function FromString(s: string): (v: Value)
    ensures v.String? && v.s == s
  {
    String(s)
  }

  /** `From<&str>`: the borrowed text is copied with `to_string`, which keeps every character. */
  function FromStr(s: string): (v: Value)
    ensures v.String? && v.s == s
    ensures v == FromString(s)
  {
    String(s[..])
  }

  /** `From<f64>`. */
  function FromF64(d: F64): (v: Value)
    ensures v.Double? && v.d == d
  {
    Double(d)
  }

  /** `From<DateTime>`. */
  function FromDateTime(t: Timestamp): (v: Value)
    ensures v.DateTime? && v.t == t
  {
    DateTime(t)
  }

  /** `From<Vec<u8>>`. */
  function FromBytes(data: seq<byte>): (v: Value)
    ensures v.Base64? && v.data == data
  {
    Base64(data)
  }
}
