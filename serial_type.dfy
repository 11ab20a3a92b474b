/** src/serial_type.rs: the closed set of column types and the table that
    gives, for each serial-type tag, how many body bytes the value occupies
    and what it means (section 2.1 of the SQLite database file format). */
module SerialTypes {
  import opened Outcomes
  import opened Bytes

  /** The twelve variants, each carrying the value that src/record.rs
      builds for it.  Integers hold their two's-complement value, a float its
      eight stored bytes, a string its UTF-8 bytes. */
  datatype SerialType =
    | Null
    | I8(i: int)
    | I16(i: int)
    | I24(i: int)
    | I32(i: int)
    | I48(i: int)
    | I64(i: int)
    | Float(bits: seq<Byte>)
    | Zero
    | One
    | String(utf8: seq<Byte>)
    | Blob(bytes: seq<Byte>)

  /** The "Size" column of the table: how many body bytes a value with this
      tag occupies; None for the reserved tags 10 and 11 (and for negative
      numbers, which are no tag at all). */
  function ContentWidth(tag: int): Option<nat> {
    if tag < 0 || tag == 10 || tag == 11 then None
    else if tag <= 4 then Some(tag)
    else if tag == 5 then Some(6)
    else if tag <= 7 then Some(8)
    else if tag <= 9 then Some(0)
    else if tag % 2 == 0 then Some((tag - 12) / 2)
    else Some((tag - 13) / 2)
  }

  /** The "Meaning" column, read backwards: the tag that denotes a value. */
  function TagOf(v: SerialType): nat {
    match v
    case Null => 0
    case I8(_) => 1
    case I16(_) => 2
    case I24(_) => 3
    case I32(_) => 4
    case I48(_) => 5
    case I64(_) => 6
    case Float(_) => 7
    case Zero => 8
    case One => 9
    case Blob(b) => 12 + 2 * |b|
    case String(s) => 13 + 2 * |s|
  }

  /** `i` is representable in `n` bytes of two's complement. */
  predicate FitsIn(i: int, n: nat)
    requires n >= 1
  {
    -(Half(n) as int) <= i < Half(n)
  }

  /** A value the format can store: integers within their width, a float of
      eight bytes, a string of well-formed UTF-8. */
  predicate WellFormed(v: SerialType) {
    match v
    case Null => true
    case Zero => true
    case One => true
    case I8(i) => FitsIn(i, 1)
    case I16(i) => FitsIn(i, 2)
    case I24(i) => FitsIn(i, 3)
    case I32(i) => FitsIn(i, 4)
    case I48(i) => FitsIn(i, 6)
    case I64(i) => FitsIn(i, 8)
    case Float(bits) => |bits| == 8
    case String(s) => ValidUtf8(s)
    case Blob(_) => true
  }

  /** The `n` stored bytes of a two's-complement integer. */
  function SignedBytes(i: int, n: nat): (bytes: seq<Byte>)
    requires n >= 1
    ensures |bytes| == n
  {
    BigEndianBytes(FromSigned(i, n), n)
  }

  /** The body bytes that store a value. */
  function EncodeValue(v: SerialType): (bytes: seq<Byte>) {
    match v
    case Null => []
    case Zero => []
    case One => []
    case I8(i) => SignedBytes(i, 1)
    case I16(i) => SignedBytes(i, 2)
    case I24(i) => SignedBytes(i, 3)
    case I32(i) => SignedBytes(i, 4)
    case I48(i) => SignedBytes(i, 6)
    case I64(i) => SignedBytes(i, 8)
    case Float(bits) => bits
    case String(s) => s
    case Blob(b) => b
  }

  /** The table is consistent with the values: the width it gives for the
      tag of a well-formed value is exactly the number of bytes that store
      the value, and the tag is never reserved. */
  lemma TableMatchesValues(v: SerialType)
    requires WellFormed(v)
    ensures ContentWidth(TagOf(v)) == Some(|EncodeValue(v)|)
  {
  }

  /** Tags 8 and 9 stand for the integers 0 and 1, with nothing stored. */
  function IntegerValue(v: SerialType): Option<int> {
    match v
    case Zero => Some(0)
    case One => Some(1)
    case I8(i) => Some(i)
    case I16(i) => Some(i)
    case I24(i) => Some(i)
    case I32(i) => Some(i)
    case I48(i) => Some(i)
    case I64(i) => Some(i)
    case _ => None
  }
}
