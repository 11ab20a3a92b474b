/** Bytes, fixed-width integers and the file as a byte sequence.

    The Rust code reads big-endian unsigned integers with `u16::from_be_bytes`
    and `u32::from_be_bytes`, two's-complement ones with `i8`, `i16`, `i32`
    and `i64::from_be_bytes`, converts between `i64` and `usize` with `as`,
    checks UTF-8 with `str::from_utf8`, and reads the database file with
    `seek` followed by `read_exact`.  All of these are stated here once. */
module Bytes {
  import opened Outcomes

  type Byte = b: int | 0 <= b < 256

  const TWO_63: int := 0x8000_0000_0000_0000
  const TWO_64: int := 0x1_0000_0000_0000_0000

  function Pow256(n: nat): (p: nat)
    ensures p >= 1
  {
    if n == 0 then 1 else 256 * Pow256(n - 1)
  }

  /** The unsigned big-endian value of `s` (`from_be_bytes` on an unsigned type). */
  function BigEndian(s: seq<Byte>): (v: nat)
    ensures v < Pow256(|s|)
  {
    if s == [] then 0 else BigEndian(s[..|s| - 1]) * 256 + s[|s| - 1]
  }

  /** The `n` big-endian bytes of `v` modulo 256^n (the `to_be_bytes` direction). */
  function BigEndianBytes(v: nat, n: nat): (s: seq<Byte>)
    ensures |s| == n
  {
    if n == 0 then [] else BigEndianBytes(v / 256, n - 1) + [v % 256]
  }

  /** Writing a value in `n` bytes and reading it back gives the value. */
  lemma {:induction false} BigEndianRoundTrip(v: nat, n: nat)
    requires v < Pow256(n)
    ensures BigEndian(BigEndianBytes(v, n)) == v
  {
    if n > 0 {
      var s := BigEndianBytes(v, n);
      assert s[..n - 1] == BigEndianBytes(v / 256, n - 1);
      BigEndianRoundTrip(v / 256, n - 1);
    }
  }

  /** Reading `n` bytes and writing the value back gives the same bytes. */
  lemma {:induction false} BigEndianBytesOf(s: seq<Byte>)
    ensures BigEndianBytes(BigEndian(s), |s|) == s
  {
    if s != [] {
      var init := s[..|s| - 1];
      BigEndianBytesOf(init);
      assert BigEndian(s) / 256 == BigEndian(init);
      assert s == init + [s[|s| - 1]];
    }
  }

  /** Half the range of an `n`-byte integer: the first bit pattern with the
      sign bit set. */
  function Half(n: nat): (h: nat)
    requires n >= 1
    ensures Pow256(n) == 2 * h
  {
    128 * Pow256(n - 1)
  }

  lemma ModBelow(u: int, m: int)
    requires 0 <= u < m
    ensures (u - m) % m == u && u % m == u
  {
  }

  /** Two's-complement reading of an unsigned `n`-byte value. */
  function ToSigned(u: nat, n: nat): (i: int)
    requires n >= 1 && u < Pow256(n)
    ensures -(Half(n) as int) <= i < Half(n)
    ensures i >= 0 <==> u < Half(n)
    ensures FromSigned(i, n) == u
  {
    ModBelow(u, Pow256(n));
    if u < Half(n) then u else u - Pow256(n)
  }

  /** The two's-complement bit pattern of `i` in `n` bytes. */
  function FromSigned(i: int, n: nat): (u: nat)
    ensures u < Pow256(n)
  {
    i % Pow256(n)
  }

  /** Writing a signed value that fits in `n` bytes and reading it back
      gives the value. */
  lemma SignedRoundTrip(i: int, n: nat)
    requires n >= 1 && -(Half(n) as int) <= i < Half(n)
    ensures ToSigned(FromSigned(i, n), n) == i
  {
    if i < 0 {
      ModBelow(i + Pow256(n), Pow256(n));
    } else {
      ModBelow(i, Pow256(n));
    }
  }

  /** `x as i64` of a 64-bit pattern. */
  function ToI64(u: nat): (i: int)
    requires u < TWO_64
    ensures -TWO_63 <= i < TWO_63
    ensures u < TWO_63 ==> i == u
  {
    if u < TWO_63 then u else u - TWO_64
  }

  /** `x as usize` of an `i64` on a 64-bit target: negative values wrap. */
  function AsUsize(i: int): (u: nat)
    ensures u < TWO_64
    ensures 0 <= i < TWO_64 ==> u == i
  {
    i % TWO_64
  }

  predicate IsContinuation(b: Byte) {
    0x80 <= b <= 0xBF
  }

  /** Well-formed UTF-8 as `str::from_utf8` accepts it (RFC 3629: no overlong
      forms, no surrogates, nothing above U+10FFFF). */
  predicate ValidUtf8(s: seq<Byte>)
    decreases |s|
  {
    if s == [] then true
    else if s[0] < 0x80 then ValidUtf8(s[1..])
    else if 0xC2 <= s[0] <= 0xDF then
      |s| >= 2 && IsContinuation(s[1]) && ValidUtf8(s[2..])
    else if 0xE0 <= s[0] <= 0xEF then
      |s| >= 3 &&
      (if s[0] == 0xE0 then 0xA0 <= s[1] <= 0xBF
       else if s[0] == 0xED then 0x80 <= s[1] <= 0x9F
       else IsContinuation(s[1])) &&
      IsContinuation(s[2]) && ValidUtf8(s[3..])
    else if 0xF0 <= s[0] <= 0xF4 then
      |s| >= 4 &&
      (if s[0] == 0xF0 then 0x90 <= s[1] <= 0xBF
       else if s[0] == 0xF4 then 0x80 <= s[1] <= 0x8F
       else IsContinuation(s[1])) &&
      IsContinuation(s[2]) && IsContinuation(s[3]) && ValidUtf8(s[4..])
    else false
  }

  /** Every ASCII text is valid UTF-8. */
  lemma {:induction false} AsciiIsUtf8(s: seq<Byte>)
    requires forall i :: 0 <= i < |s| ==> s[i] < 0x80
    ensures ValidUtf8(s)
  {
    if s != [] {
      AsciiIsUtf8(s[1..]);
    }
  }

  /** `file.seek(SeekFrom::Start(offset))` then `file.read_exact(&mut buf)`
      with a buffer of `n` bytes.  Seeking past the end succeeds; the read
      fails with an I/O error when fewer than `n` bytes follow the offset. */
  function ReadExact(file: seq<Byte>, offset: nat, n: nat): (r: Outcome<seq<Byte>>)
    ensures r.Ok? <==> offset + n <= |file|
    ensures r.Ok? ==> |r.value| == n && r.value == file[offset..offset + n]
    ensures !r.Ok? ==> r == Err(Io)
  {
    if offset + n <= |file| then Ok(file[offset..offset + n]) else Err(Io)
  }

  /** A zero-filled buffer of `n` bytes into which `read_exact` copies what
      the file holds from `offset` on, its error being ignored: the bytes
      present in the file, then the zeros that were never overwritten. */
  function ReadPadded(file: seq<Byte>, offset: nat, n: nat): (buf: seq<Byte>)
    ensures |buf| == n
    ensures forall i :: 0 <= i < n ==>
              buf[i] == if offset + i < |file| then file[offset + i] else 0
  {
    var present := if offset >= |file| then [] else file[offset..Min(offset + n, |file|)];
    present + seq(n - |present|, _ => 0)
  }

  function Min(a: nat, b: nat): nat {
    if a <= b then a else b
  }

  /** `&data[from..from + n]`: out of range panics. */
  function Subslice(data: seq<Byte>, from: nat, n: nat): (r: Outcome<seq<Byte>>)
    ensures r.Ok? <==> from + n <= |data|
    ensures r.Ok? ==> r.value == data[from..from + n]
    ensures !r.Ok? ==> r == Panic(OutOfRange)
  {
    if from + n <= |data| then Ok(data[from..from + n]) else Panic(OutOfRange)
  }

  /** A slice of a slice is a slice of the whole. */
  lemma SliceOfSlice(data: seq<Byte>, start: nat, end: nat, a: nat, b: nat)
    requires start <= end <= |data| && a <= b <= end - start
    ensures data[start..end][a..b] == data[start + a..start + b]
  {
    var inner, whole := data[start..end][a..b], data[start + a..start + b];
    forall k | 0 <= k < |inner|
      ensures inner[k] == whole[k]
    {
    }
  }

  /** A suffix of a slice runs to the slice's end in the whole. */
  lemma SuffixOfSlice(data: seq<Byte>, start: nat, end: nat, a: nat)
    requires start <= end <= |data| && a <= end - start
    ensures data[start..end][a..] == data[start + a..end]
  {
    var inner, whole := data[start..end][a..], data[start + a..end];
    forall k | 0 <= k < |inner|
      ensures inner[k] == whole[k]
    {
    }
  }
}
