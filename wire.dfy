/** Shared vocabulary of the buffer consumer: bytes, the errors its operations
    throw, result wrappers, and the big-endian reading of fixed-width integers
    performed by Node's Buffer.readUInt8 / readUInt16BE / readUInt32BE. */
module Wire {

  /** One octet of the underlying Buffer. */
  type Byte = x: int | 0 <= x < 256

  /** The exceptions the consumer can throw. */
  datatype Error =
    | NegativeSeek     // seek: 'Negative pos not allowed'
    | SeekPastEnd      // seek: 'Cannot seek after EOF'
    | BufferOverflow   // slice: 'Buffer overflow'
    | ReadOutOfRange   // RangeError thrown by Buffer.readUInt* past the end

  /** A value, or the exception that was thrown instead. */
  datatype Result<T> = Ok(value: T) | Err(error: Error)

  /** Completion of an operation that returns nothing of interest. */
  datatype Outcome = Pass | Fail(error: Error)

  /** An argument that the caller may leave undefined. */
  datatype Option<T> = None | Some(value: T)

  /** 256 to the power n: one more than the largest n-byte unsigned value. */
  function Pow256(n: nat): (p: nat)
    ensures p >= 1
  {
    if n == 0 then 1 else 256 * Pow256(n - 1)
  }

  /** The unsigned big-endian value of a byte string (most significant byte first). */
  function BigEndian(s: seq<Byte>): (r: nat)
    ensures r < Pow256(|s|)
  {
    if s == [] then 0
    else
      var hi := BigEndian(s[..|s| - 1]);
      assert hi + 1 <= Pow256(|s| - 1);
      assert hi * 256 + 256 <= Pow256(|s| - 1) * 256;
      hi * 256 + s[|s| - 1]
  }

  /** The w-byte big-endian encoding of v: the inverse of BigEndian. */
  function EncodeBigEndian(v: nat, w: nat): (s: seq<Byte>)
    requires v < Pow256(w)
    ensures |s| == w
  {
    if w == 0 then []
    else EncodeBigEndian(v / 256, w - 1) + [v % 256]
  }

  /** Reading back an encoded value gives that value. */
  lemma {:induction false} BigEndianOfEncode(v: nat, w: nat)
    requires v < Pow256(w)
    ensures BigEndian(EncodeBigEndian(v, w)) == v
  {
    if w > 0 {
      var s := EncodeBigEndian(v, w);
      BigEndianOfEncode(v / 256, w - 1);
      assert s[..|s| - 1] == EncodeBigEndian(v / 256, w - 1);
    }
  }

  /** Encoding the value read from a byte string gives back that byte string:
      BigEndian is injective for a fixed width. */
  lemma {:induction false} EncodeOfBigEndian(s: seq<Byte>)
    ensures EncodeBigEndian(BigEndian(s), |s|) == s
  {
    if s != [] {
      var init := s[..|s| - 1];
      var v := BigEndian(s);
      assert v / 256 == BigEndian(init) && v % 256 == s[|s| - 1];
      EncodeOfBigEndian(init);
      assert s == init + [s[|s| - 1]];
    }
  }

  /** The two-byte case spelled out: high byte times 256 plus low byte. */
  lemma BigEndianPair(hi: Byte, lo: Byte)
    ensures BigEndian([hi, lo]) == hi * 256 + lo
  {
    assert [hi, lo][..1] == [hi];
    assert [hi][..0] == [];
  }

  /** The four-byte case as Buffer.readUInt32BE computes it: the first byte
      times 2^24 plus the others times 2^16, 2^8 and 1. */
  lemma BigEndianQuad(a: Byte, b: Byte, c: Byte, d: Byte)
    ensures BigEndian([a, b, c, d]) == a * 0x100_0000 + b * 0x1_0000 + c * 0x100 + d
  {
    assert [a, b, c, d][..3] == [a, b, c];
    assert [a, b, c][..2] == [a, b];
    BigEndianPair(a, b);
  }

  /** Buffer.readUIntBE of `w` bytes at offset `o`: the unsigned big-endian
      value of those bytes, or a RangeError when they run past the end. */
  function ReadAt(buf: seq<Byte>, o: nat, w: nat): (r: Result<nat>)
    ensures r.Ok? <==> o + w <= |buf|
    ensures r.Ok? ==> r.value < Pow256(w)
    ensures r.Err? ==> r.error == ReadOutOfRange
  {
    if o + w <= |buf| then Ok(BigEndian(buf[o..o + w])) else Err(ReadOutOfRange)
  }

  /** Bytes written with EncodeBigEndian read back as the value written. */
  lemma ReadAtEncoded(buf: seq<Byte>, o: nat, w: nat, v: nat)
    requires v < Pow256(w) && o + w <= |buf|
    requires buf[o..o + w] == EncodeBigEndian(v, w)
    ensures ReadAt(buf, o, w) == Ok(v)
  {
    BigEndianOfEncode(v, w);
  }

  /** Two in-range reads of the same width give the same value only when
      they cover the same bytes. */
  lemma ReadAtInjective(buf: seq<Byte>, o: nat, buf': seq<Byte>, o': nat, w: nat)
    requires o + w <= |buf| && o' + w <= |buf'|
    requires ReadAt(buf, o, w) == ReadAt(buf', o', w)
    ensures buf[o..o + w] == buf'[o'..o' + w]
  {
    EncodeOfBigEndian(buf[o..o + w]);
    EncodeOfBigEndian(buf'[o'..o' + w]);
  }

  /** Buffer.toString(encoding, start, end) on the bytes, before decoding:
      `start` is raised to 0 and `end` lowered to the length, and an empty
      range (including a start at or past the end) gives nothing. */
  function ToStringRange(buf: seq<Byte>, start: int, end: int): (r: seq<Byte>)
    ensures 0 <= start <= end <= |buf| ==> r == buf[start..end]
    ensures end <= start || start >= |buf| ==> r == []
    ensures |r| <= |buf|
  {
    if start >= |buf| then []
    else
      var s := if start <= 0 then 0 else start;
      var e := if end > |buf| then |buf| else end;
      if e <= s then [] else buf[s..e]
  }
}
