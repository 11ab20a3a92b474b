/** src/utils.rs: the varint reader, the page-type byte, and two ways of
    cutting a slice into fixed-size chunks. */
module Utils {
  import opened Outcomes
  import opened Bytes

  // ---------------------------------------------------------------------
  // read_variant
  // ---------------------------------------------------------------------

  /** The largest number of bytes a varint occupies. */
  const MAX_VARINT_LEN: nat := 9

  /** A decoded varint: the `i64` value and how many bytes it took. */
  datatype Varint = Varint(value: int, bytesRead: nat)

  /** How many bytes `read_variant` consumes, given that it has already gone
      past `i` bytes whose high bit was set. */
  function VarintLenFrom(bytes: seq<Byte>, i: nat): (n: nat)
    requires i <= 8
    ensures i <= n <= MAX_VARINT_LEN
    ensures i <= |bytes| ==> n <= |bytes|
    decreases 8 - i
  {
    if i >= |bytes| then i
    else if i == 8 then 9
    else if bytes[i] < 0x80 then i + 1
    else VarintLenFrom(bytes, i + 1)
  }

  function VarintLen(bytes: seq<Byte>): (n: nat)
    ensures n <= MAX_VARINT_LEN && n <= |bytes|
  {
    VarintLenFrom(bytes, 0)
  }

  /** The `i64` bit pattern (as an unsigned 64-bit number) after `n` bytes:
      `(acc << 7) | (byte & 0x7f)` for the first eight, `(acc << 8) | byte`
      for the ninth.  The shifts discard whatever leaves the 64 bits. */
  function VarintAcc(bytes: seq<Byte>, n: nat): (acc: nat)
    requires n <= |bytes| && n <= MAX_VARINT_LEN
    ensures acc < TWO_64
  {
    if n == 0 then 0
    else if n == 9 then (VarintAcc(bytes, 8) * 256 + bytes[8]) % TWO_64
    else (VarintAcc(bytes, n - 1) * 128 + bytes[n - 1] % 128) % TWO_64
  }

  /** What `read_variant` returns once it has shifted the low seven bits
      of the `i` bytes before `i` into `acc`. */
  function VarintFrom(bytes: seq<Byte>, i: nat, acc: nat): Varint
    requires i <= 8 && acc < TWO_64
    decreases 8 - i
  {
    if i >= |bytes| then Varint(ToI64(acc), i)
    else if i == 8 then Varint(ToI64((acc * 256 + bytes[8]) % TWO_64), 9)
    else
      var next := (acc * 128 + bytes[i] % 128) % TWO_64;
      if bytes[i] < 0x80 then Varint(ToI64(next), i + 1)
      else VarintFrom(bytes, i + 1, next)
  }

  /** What `read_variant(bytes)` returns. */
  function ReadVarintSpec(bytes: seq<Byte>): Varint {
    VarintFrom(bytes, 0, 0)
  }

  /** src/utils.rs `read_variant`: the loop over at most nine bytes. */
  method ReadVarint(bytes: seq<Byte>) returns (value: int, bytesRead: nat)
    ensures Varint(value, bytesRead) == ReadVarintSpec(bytes)
  {
    var acc: nat := 0;
    bytesRead := 0;
    var i: nat := 0;
    while i < |bytes| && i < MAX_VARINT_LEN
      invariant i <= 8 && i <= |bytes|
      invariant bytesRead == i && acc < TWO_64
      invariant VarintFrom(bytes, i, acc) == ReadVarintSpec(bytes)
    {
      bytesRead := bytesRead + 1;
      if i == 8 {
        acc := (acc * 256 + bytes[i]) % TWO_64;
        break;
      }
      acc := (acc * 128 + bytes[i] % 128) % TWO_64;
      if bytes[i] < 0x80 {
        break;
      }
      i := i + 1;
    }
    value := ToI64(acc);
  }

  /** The reading is the `i64` of the accumulator after `VarintLen` bytes. */
  lemma ReadVarintParts(bytes: seq<Byte>)
    ensures ReadVarintSpec(bytes) == Varint(ToI64(VarintAcc(bytes, VarintLen(bytes))), VarintLen(bytes))
  {
    VarintFromParts(bytes, 0);
  }

  lemma {:induction false} VarintFromParts(bytes: seq<Byte>, i: nat)
    requires i <= 8 && i <= |bytes|
    ensures var n := VarintLenFrom(bytes, i);
      VarintFrom(bytes, i, VarintAcc(bytes, i)) == Varint(ToI64(VarintAcc(bytes, n)), n)
    decreases 8 - i
  {
    if i < |bytes| && i < 8 && bytes[i] >= 0x80 {
      VarintFromParts(bytes, i + 1);
    }
  }

  // ---------------------------------------------------------------------
  // What read_variant computes, stated independently of the loop
  // ---------------------------------------------------------------------

  function Pow128(n: nat): (p: nat)
    ensures p >= 1
  {
    if n == 0 then 1 else 128 * Pow128(n - 1)
  }

  /** The big-endian number formed by the low seven bits of each byte, with
      no bit ever discarded. */
  function BigEndian7(s: seq<Byte>): (v: nat)
    ensures v < Pow128(|s|)
  {
    if s == [] then 0 else BigEndian7(s[..|s| - 1]) * 128 + s[|s| - 1] % 128
  }

  lemma {:induction false} Pow128Monotone(m: nat, n: nat)
    requires m <= n
    ensures Pow128(m) <= Pow128(n)
  {
    if m < n {
      Pow128Monotone(m, n - 1);
    }
  }

  /** Up to eight bytes, the accumulator is exactly the seven-bit big-endian
      number: the 64-bit shifts never lose a bit. */
  lemma {:induction false} VarintAccExact(bytes: seq<Byte>, n: nat)
    requires n <= |bytes| && n <= 8
    ensures VarintAcc(bytes, n) == BigEndian7(bytes[..n])
  {
    if n > 0 {
      VarintAccExact(bytes, n - 1);
      assert bytes[..n][..n - 1] == bytes[..n - 1];
      Pow128Monotone(n, 8);
      assert Pow128(8) * 128 < TWO_64;
    }
  }

  /** The ninth byte: the first eight contribute seven bits each and the
      ninth all eight of its bits, again without losing a bit. */
  lemma VarintAccNinth(bytes: seq<Byte>)
    requires |bytes| >= 9
    ensures VarintAcc(bytes, 9) == BigEndian7(bytes[..8]) * 256 + bytes[8]
  {
    VarintAccExact(bytes, 8);
    assert Pow128(8) * 256 == TWO_64;
  }

  /** At most nine bytes are read, never more than there are. */
  lemma ReadVarintBounds(bytes: seq<Byte>)
    ensures ReadVarintSpec(bytes).bytesRead <= MAX_VARINT_LEN
    ensures ReadVarintSpec(bytes).bytesRead <= |bytes|
    ensures ReadVarintSpec(bytes).bytesRead == 0 <==> bytes == []
  {
    ReadVarintParts(bytes);
    if bytes != [] {
      assert VarintLenFrom(bytes, 0) >= 1;
    }
  }

  /** Every byte before the last one read has its high bit set; if fewer
      than nine bytes were read, the last one has it clear or the input ran
      out. */
  lemma VarintLenShape(bytes: seq<Byte>)
    ensures var n := ReadVarintSpec(bytes).bytesRead;
      && (forall j :: 0 <= j < n - 1 && j < 8 ==> bytes[j] >= 0x80)
      && (0 < n < 9 ==> n == |bytes| || bytes[n - 1] < 0x80)
  {
    ReadVarintParts(bytes);
    VarintLenShapeFrom(bytes, 0);
  }

  lemma {:induction false} VarintLenShapeFrom(bytes: seq<Byte>, i: nat)
    requires i <= 8 && i <= |bytes|
    requires forall j :: 0 <= j < i ==> bytes[j] >= 0x80
    ensures var n := VarintLenFrom(bytes, i);
      && (forall j :: 0 <= j < n - 1 && j < 8 ==> bytes[j] >= 0x80)
      && (0 < n < 9 ==> n == |bytes| || bytes[n - 1] < 0x80)
    decreases 8 - i
  {
    if i < |bytes| && i < 8 && bytes[i] >= 0x80 {
      VarintLenShapeFrom(bytes, i + 1);
    }
  }

  /** Among the first eight bytes, decoding stops right after the first one
      whose high bit is clear. */
  lemma VarintStopsAtTerminator(bytes: seq<Byte>, k: nat)
    requires k < 8 && k < |bytes| && bytes[k] < 0x80
    requires forall j :: 0 <= j < k ==> bytes[j] >= 0x80
    ensures ReadVarintSpec(bytes).bytesRead == k + 1
    ensures ReadVarintSpec(bytes).value == BigEndian7(bytes[..k + 1])
  {
    ReadVarintParts(bytes);
    VarintStopsAt(bytes, 0, k);
    VarintAccExact(bytes, k + 1);
    assert BigEndian7(bytes[..k + 1]) < Pow128(k + 1);
    Pow128Monotone(k + 1, 8);
    assert Pow128(8) < TWO_63;
  }

  lemma {:induction false} VarintStopsAt(bytes: seq<Byte>, i: nat, k: nat)
    requires i <= k < 8 && k < |bytes| && bytes[k] < 0x80
    requires forall j :: i <= j < k ==> bytes[j] >= 0x80
    ensures VarintLenFrom(bytes, i) == k + 1
    decreases k - i
  {
    if i < k {
      VarintStopsAt(bytes, i + 1, k);
    }
  }

  /** If the first eight bytes all have the high bit set, the ninth is read
      whatever its high bit, contributes all eight of its bits, and ends the
      varint. */
  lemma VarintNinthByte(bytes: seq<Byte>)
    requires |bytes| >= 9
    requires forall j :: 0 <= j < 8 ==> bytes[j] >= 0x80
    ensures ReadVarintSpec(bytes).bytesRead == 9
    ensures VarintAcc(bytes, 9) == BigEndian7(bytes[..8]) * 256 + bytes[8]
    ensures ReadVarintSpec(bytes).value == ToI64(BigEndian7(bytes[..8]) * 256 + bytes[8])
  {
    ReadVarintParts(bytes);
    VarintReachesNinth(bytes, 0);
    VarintAccNinth(bytes);
  }

  lemma {:induction false} VarintReachesNinth(bytes: seq<Byte>, i: nat)
    requires i <= 8 && |bytes| >= 9
    requires forall j :: i <= j < 8 ==> bytes[j] >= 0x80
    ensures VarintLenFrom(bytes, i) == 9
    decreases 8 - i
  {
    if i < 8 {
      VarintReachesNinth(bytes, i + 1);
    }
  }

  /** Nine bytes of 0xFF: every one of the 64 bits is set, so the `i64` is -1. */
  lemma VarintAllOnes()
    ensures ReadVarintSpec(seq(9, _ => 0xFF)) == Varint(-1, 9)
  {
    var bytes: seq<Byte> := seq(9, _ => 0xFF);
    VarintNinthByte(bytes);
    assert bytes[..8] == seq(8, _ => 0xFF);
    AllSevenBitsSet(8);
    assert Pow128(8) * 256 == TWO_64;
  }

  lemma {:induction false} AllSevenBitsSet(k: nat)
    ensures BigEndian7(seq(k, _ => 0xFF)) == Pow128(k) - 1
  {
    if k > 0 {
      AllSevenBitsSet(k - 1);
      assert seq(k, _ => 0xFF)[..k - 1] == seq(k - 1, _ => 0xFF);
    }
  }

  /** A single byte below 0x80 is its own value. */
  lemma VarintSingleByte(b: Byte, rest: seq<Byte>)
    requires b < 0x80
    ensures ReadVarintSpec([b] + rest) == Varint(b, 1)
  {
    VarintStopsAtTerminator([b] + rest, 0);
    assert ([b] + rest)[..1] == [b];
  }

  /** The same, for the slice of `data` from `p` on. */
  lemma VarintSingleByteAt(data: seq<Byte>, p: nat)
    requires p < |data| && data[p] < 0x80
    ensures ReadVarintSpec(data[p..]) == Varint(data[p], 1)
  {
    assert data[p..] == [data[p]] + data[p + 1..];
    VarintSingleByte(data[p], data[p + 1..]);
  }

  /** Nothing to read gives (0, 0). */
  lemma VarintEmpty()
    ensures ReadVarintSpec([]) == Varint(0, 0)
  {
  }

  // ---------------------------------------------------------------------
  // Encoding: the inverse of read_variant on values below 2^56
  // ---------------------------------------------------------------------

  /** The continuation bytes that carry `w`, most significant first, each
      with its high bit set. */
  function ContinuationBytes(w: nat): (s: seq<Byte>)
  {
    if w == 0 then [] else ContinuationBytes(w / 128) + [128 + w % 128]
  }

  lemma {:induction false} ContinuationBytesHigh(w: nat)
    ensures forall j :: 0 <= j < |ContinuationBytes(w)| ==> ContinuationBytes(w)[j] >= 0x80
  {
    if w > 0 {
      ContinuationBytesHigh(w / 128);
      var c := ContinuationBytes(w / 128);
      var s := c + [128 + w % 128];
      forall j | 0 <= j < |s|
        ensures s[j] >= 0x80
      {
        if j < |c| {
          assert s[j] == c[j];
        }
      }
    }
  }

  /** Read as base-128 digits, the continuation bytes of `w` give back `w`. */
  lemma {:induction false} ContinuationBytesValue(w: nat)
    ensures BigEndian7(ContinuationBytes(w)) == w
  {
    if w > 0 {
      var q, d := w / 128, w % 128;
      ContinuationBytesValue(q);
      var c := ContinuationBytes(q);
      BigEndian7Snoc(c, 128 + d);
      Base128Digit(w);
    }
  }

  /** A value is its quotient by 128 shifted up a digit, plus the digit. */
  lemma Base128Digit(w: nat)
    ensures w == (w / 128) * 128 + (128 + w % 128) % 128
  {
  }

  /** One more digit multiplies the value by 128 and adds the digit. */
  lemma BigEndian7Snoc(c: seq<Byte>, b: Byte)
    ensures BigEndian7(c + [b]) == BigEndian7(c) * 128 + b % 128
  {
    assert (c + [b])[..|c|] == c;
  }

  lemma {:induction false} ContinuationBytesLength(w: nat, k: nat)
    requires w < Pow128(k)
    ensures |ContinuationBytes(w)| <= k
  {
    if w > 0 {
      ContinuationBytesLength(w / 128, k - 1);
    }
  }

  /** A value with exactly k base-128 digits has k continuation bytes. */
  lemma {:induction false} ContinuationBytesExact(w: nat, k: nat)
    requires k >= 1 && Pow128(k - 1) <= w < Pow128(k)
    ensures |ContinuationBytes(w)| == k
  {
    if k > 1 {
      ContinuationBytesExact(w / 128, k - 1);
    }
  }

  /** The shortest varint of a value below 2^56. */
  function EncodeVarint(v: nat): (s: seq<Byte>)
    requires v < Pow128(8)
    ensures 1 <= |s| <= 8
  {
    ContinuationBytesLength(v / 128, 7);
    ContinuationBytes(v / 128) + [v % 128]
  }

  /** The encoding of a value is k bytes long exactly when the value has k
      base-128 digits. */
  lemma VarintLengthIs(v: nat, k: nat)
    requires 1 <= k <= 8 && v < Pow128(8)
    requires v < Pow128(k) && (k >= 2 ==> Pow128(k - 1) <= v)
    ensures |EncodeVarint(v)| == k
  {
    if k >= 2 {
      ContinuationBytesExact(v / 128, k - 1);
    }
  }

  /** The encoding holds the value in its low seven bits, every byte but
      the last with the high bit set. */
  lemma EncodeVarintShape(v: nat)
    requires v < Pow128(8)
    ensures var s := EncodeVarint(v);
      && BigEndian7(s) == v
      && (forall j :: 0 <= j < |s| - 1 ==> s[j] >= 0x80)
      && s[|s| - 1] < 0x80
  {
    var c, last := ContinuationBytes(v / 128), v % 128;
    ContinuationBytesHigh(v / 128);
    ContinuationBytesValue(v / 128);
    var s := c + [last];
    assert s == EncodeVarint(v);
    forall j | 0 <= j < |s| - 1
      ensures s[j] >= 0x80
    {
      assert s[j] == c[j];
    }
    BigEndian7Snoc(c, last);
    Base128Digit(v);
  }

  /** Decoding an encoded value gives it back with its length, whatever
      follows it. */
  lemma VarintRoundTrip(v: nat, rest: seq<Byte>)
    requires v < Pow128(8)
    ensures ReadVarintSpec(EncodeVarint(v) + rest) == Varint(v, |EncodeVarint(v)|)
  {
    var e := EncodeVarint(v);
    EncodeVarintShape(v);
    var bytes := e + rest;
    VarintStopsAtTerminator(bytes, |e| - 1);
    assert bytes[..|e|] == e;
  }

  // ---------------------------------------------------------------------
  // get_page_type
  // ---------------------------------------------------------------------

  datatype PageType = IndexInterior | TableInterior | IndexLeaf | TableLeaf

  /** The flag byte that denotes each page type. */
  function PageTypeByte(t: PageType): Byte {
    match t
    case IndexInterior => 2
    case TableInterior => 5
    case IndexLeaf => 10
    case TableLeaf => 13
  }

  /** src/utils.rs `get_page_type`: any byte other than 2, 5, 10, 13 panics. */
  function GetPageType(b: Byte): Outcome<PageType> {
    match b
    case 2 => Ok(IndexInterior)
    case 5 => Ok(TableInterior)
    case 10 => Ok(IndexLeaf)
    case 13 => Ok(TableLeaf)
    case _ => Panic(Explicit)
  }

  /** get_page_type and PageTypeByte are inverse: a byte is accepted exactly
      when it is the flag byte of the type returned. */
  lemma PageTypeRoundTrip(b: Byte, t: PageType)
    ensures GetPageType(PageTypeByte(t)) == Ok(t)
    ensures GetPageType(b) == Ok(t) <==> b == PageTypeByte(t)
    ensures !GetPageType(b).Ok? ==> GetPageType(b) == Panic(Explicit)
  {
  }

  // ---------------------------------------------------------------------
  // as_array_iter (chunks_exact) and ArrayIter2
  // ---------------------------------------------------------------------

  /** `s.chunks_exact(n)`: consecutive chunks of `n`, the remainder dropped. */
  function ChunksExact<T>(s: seq<T>, n: nat): (chunks: seq<seq<T>>)
    requires n > 0
    decreases |s|
  {
    if |s| < n then [] else [s[..n]] + ChunksExact(s[n..], n)
  }

  /** There are floor(|s| / n) chunks: the remainder is dropped. */
  lemma {:induction false} ChunksExactCount<T>(s: seq<T>, n: nat)
    requires n > 0
    ensures var c := |ChunksExact(s, n)|; c * n <= |s| < (c + 1) * n
    decreases |s|
  {
    if |s| >= n {
      ChunksExactCount(s[n..], n);
      var c := |ChunksExact(s[n..], n)|;
      MulSucc(c, n);
      MulSucc(c + 1, n);
    }
  }

  /** Chunk i is the i-th run of n elements. */
  lemma {:induction false} ChunkAt<T>(s: seq<T>, n: nat, i: nat)
    requires n > 0 && i < |ChunksExact(s, n)|
    ensures (i + 1) * n <= |s| && ChunksExact(s, n)[i] == s[i * n..(i + 1) * n]
    decreases i
  {
    if i > 0 {
      var tail := s[n..];
      assert ChunksExact(s, n)[i] == ChunksExact(tail, n)[i - 1];
      ChunkAt(tail, n, i - 1);
      var lo, hi := (i - 1) * n, i * n;
      MulSucc(i - 1, n);
      MulSucc(i, n);
      assert hi == lo + n && (i + 1) * n == hi + n;
      TailSlice(s, n, lo, hi);
    }
  }

  /** A slice of a suffix is a slice of the whole. */
  lemma TailSlice<T>(s: seq<T>, n: nat, lo: nat, hi: nat)
    requires n <= |s| && lo <= hi <= |s| - n
    ensures s[n..][lo..hi] == s[n + lo..n + hi]
  {
    var inner, whole := s[n..][lo..hi], s[n + lo..n + hi];
    forall k | 0 <= k < |inner|
      ensures inner[k] == whole[k]
    {
    }
  }

  lemma MulSucc(k: nat, n: nat)
    ensures (k + 1) * n == k * n + n
  {
  }

  /** `ArrayIter2`: an index cursor over `underlying` handing out chunks of `N`. */
  class ArrayIter2<T> {
    const underlying: seq<T>
    const N: nat
    var index: nat

    /** `as_array_iter2`: the cursor starts at 0. */
    constructor (underlying: seq<T>, N: nat)
      ensures this.underlying == underlying && this.N == N && index == 0
    {
      this.underlying := underlying;
      this.N := N;
      index := 0;
    }

    /** `next`: the next N elements and an index N further on, or None and
        no move when fewer than N remain. */
    method Next() returns (r: Option<seq<T>>)
      modifies this
      ensures old(index) + N <= |underlying| ==>
                r == Some(underlying[old(index)..old(index) + N]) && index == old(index) + N
      ensures old(index) + N > |underlying| ==> r == None && index == old(index)
      ensures N > 0 && old(index) % N == 0 && r.Some? ==>
                old(index) / N < |ChunksExact(underlying, N)| &&
                r.value == ChunksExact(underlying, N)[old(index) / N]
    {
      if index + N <= |underlying| {
        r := Some(underlying[index..index + N]);
        if N > 0 && index % N == 0 {
          AlignedChunk(underlying, N, index);
        }
        index := index + N;
      } else {
        r := None;
      }
    }
  }

  /** From an index that is a multiple of n, the next n elements are the
      chunk numbered index / n. */
  lemma AlignedChunk<T>(s: seq<T>, n: nat, i: nat)
    requires n > 0 && i % n == 0 && i + n <= |s|
    ensures i / n < |ChunksExact(s, n)| && ChunksExact(s, n)[i / n] == s[i..i + n]
  {
    var q := i / n;
    ChunksExactCount(s, n);
    DivAligned(i, n, |s|, |ChunksExact(s, n)|);
    ChunkAt(s, n, q);
    MulSucc(q, n);
  }

  lemma DivAligned(i: nat, n: nat, len: nat, c: nat)
    requires n > 0 && i % n == 0 && i + n <= len && len < (c + 1) * n
    ensures i / n * n == i && i / n < c
  {
    var q := i / n;
    assert i == q * n;
    MulSucc(q, n);
    if q >= c {
      MulMonotone(c + 1, q + 1, n);
    }
  }

  lemma MulMonotone(a: nat, b: nat, n: nat)
    requires a <= b
    ensures a * n <= b * n
  {
    assert b * n == a * n + (b - a) * n;
  }
}
