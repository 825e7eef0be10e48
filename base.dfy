/** Byte-level building blocks shared by the chunk decoder and the VOX reader:
    bytes, unsigned 32-bit words, the JavaScript `slice` clamp, the
    little-endian word reader and the error type of a failed load. */
module Base {

  type byte = n: nat | n < 0x100
  type u32 = n: nat | n < 0x1_0000_0000

  /** Why a load aborts. Each case is an exception the reader throws. */
  datatype Error =
    | ShortRead                   // a 4-byte word was read from fewer than 4 bytes
    | BadMagic                    // the file does not start with "VOX "
    | NotMain(found: seq<byte>)   // the root chunk is not tagged "MAIN"
    | MissingChunk(tag: seq<byte>) // SIZE, RGBA or XYZI is not a child of MAIN
    | UndefinedColor(offset: nat) // the XYZI record at this offset names no palette entry

  datatype Result<T> = Ok(value: T) | Err(error: Error)

  function Min(a: int, b: int): int { if a <= b then a else b }

  /** `bytes.slice(lo, hi)` of a typed array: both ends are clamped to the length. */
  function Slice(s: seq<byte>, lo: nat, hi: nat): (r: seq<byte>)
    ensures |r| == if lo < hi then Min(hi, |s|) - Min(lo, |s|) else 0
    ensures forall i :: 0 <= i < |r| ==> lo + i < |s| && r[i] == s[lo + i]
  {
    if lo < hi then s[Min(lo, |s|)..Min(hi, |s|)] else []
  }

  /** The value of four bytes read least significant first. */
  function LittleEndian(b0: byte, b1: byte, b2: byte, b3: byte): u32
  {
    b0 + 0x100 * b1 + 0x1_0000 * b2 + 0x100_0000 * b3
  }

  /** `new DataView(bytes.buffer).getUint32(0, true)`: a view over fewer than
      four bytes throws a range error. */
  function ParseUint32(b: seq<byte>): (r: Result<u32>)
    ensures r.Ok? <==> |b| >= 4
    ensures r.Err? ==> r.error == ShortRead
  {
    if |b| < 4 then Err(ShortRead) else Ok(LittleEndian(b[0], b[1], b[2], b[3]))
  }

  /** The four little-endian bytes of a word: the inverse of `ParseUint32`. */
  function EncodeUint32(n: u32): (r: seq<byte>)
    ensures |r| == 4
  {
    var n1 := n / 0x100;
    var n2 := n1 / 0x100;
    [n % 0x100, n1 % 0x100, n2 % 0x100, n2 / 0x100]
  }

  /** Splitting off the low byte of `lo + 256 * hi`. */
  lemma LowByte(lo: nat, hi: nat)
    requires lo < 0x100
    ensures (lo + 0x100 * hi) % 0x100 == lo && (lo + 0x100 * hi) / 0x100 == hi
  {
  }

  lemma ParseEncode(n: u32, rest: seq<byte>)
    ensures ParseUint32(EncodeUint32(n) + rest) == Ok(n)
  {
    var n1 := n / 0x100;
    var n2 := n1 / 0x100;
    assert n == n % 0x100 + 0x100 * n1;
    assert n1 == n1 % 0x100 + 0x100 * n2;
    assert n2 == n2 % 0x100 + 0x100 * (n2 / 0x100);
  }

  lemma EncodeParse(b: seq<byte>)
    requires |b| >= 4
    ensures ParseUint32(b).Ok? && EncodeUint32(ParseUint32(b).value) == b[..4]
  {
    var b0, b1, b2, b3 := b[0] as nat, b[1] as nat, b[2] as nat, b[3] as nat;
    var m2 := b2 + 0x100 * b3;
    var m1 := b1 + 0x100 * m2;
    var n := b0 + 0x100 * m1;
    assert n == LittleEndian(b[0], b[1], b[2], b[3]);
    LowByte(b0, m1);
    LowByte(b1, m2);
    LowByte(b2, b3);
    var n1 := n / 0x100;
    assert n1 == m1;
    var n2 := n1 / 0x100;
    assert n2 == m2;
    assert EncodeUint32(n) == [b0, b1, b2, b3];
    assert b[..4] == [b[0], b[1], b[2], b[3]];
  }
}
