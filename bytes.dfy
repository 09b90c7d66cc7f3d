/** Byte strings as Python's `bytes` objects see them, and the integer
    decoding `int.from_bytes(..., 'big')` applied to them. */
module Bytes {

  /** One element of a Python `bytes` object. */
  type byte = b: int | 0 <= b < 256

  const TWO_POW_32: nat := 0x1_0000_0000

  function Pow256(n: nat): (r: nat)
    ensures r > 0
  {
    if n == 0 then 1 else 256 * Pow256(n - 1)
  }

  /** `int.from_bytes(s, 'big')`: the unsigned big-endian value of `s`. */
  function FromBytesBig(s: seq<byte>): (r: nat)
    ensures r < Pow256(|s|)
  {
    if s == [] then 0
    else
      var hi := FromBytesBig(s[..|s| - 1]);
      assert hi * 256 <= (Pow256(|s| - 1) - 1) * 256;
      hi * 256 + s[|s| - 1]
  }

  /** The 4-byte big-endian unsigned integer stored at `off`
      (`seek(off)` followed by `int.from_bytes(read(4), 'big')`). */
  function U32At(data: seq<byte>, off: nat): (r: nat)
    requires off + 4 <= |data|
    ensures r == (data[off] as int) * 0x100_0000 + (data[off + 1] as int) * 0x1_0000
               + (data[off + 2] as int) * 0x100 + data[off + 3] as int
    ensures r < TWO_POW_32
  {
    var w := data[off..off + 4];
    assert w[..3][..2][..1] == [data[off]];
    assert w[..3][..2] == [data[off], data[off + 1]];
    assert w[..3] == [data[off], data[off + 1], data[off + 2]];
    assert FromBytesBig(w[..3][..2][..1]) == data[off] by {
      assert w[..3][..2][..1][..0] == [];
    }
    assert FromBytesBig(w[..3][..2]) == (data[off] as int) * 0x100 + data[off + 1] as int;
    assert FromBytesBig(w[..3]) == ((data[off] as int) * 0x100 + data[off + 1] as int) * 0x100 + data[off + 2] as int;
    assert Pow256(4) == TWO_POW_32;
    FromBytesBig(w)
  }

  /** The four bytes a 32-bit unsigned value is stored as, big end first. */
  function Be32(v: nat): (b: seq<byte>)
    requires v < TWO_POW_32
  {
    var low24 := v % 0x100_0000;
    var low16 := low24 % 0x1_0000;
    [v / 0x100_0000, low24 / 0x1_0000, low16 / 0x100, low16 % 0x100]
  }

  lemma Be32Decodes(v: nat)
    requires v < TWO_POW_32
    ensures |Be32(v)| == 4 && U32At(Be32(v), 0) == v
  {
    var low24 := v % 0x100_0000;
    var low16 := low24 % 0x1_0000;
    assert v == (v / 0x100_0000) * 0x100_0000 + low24;
    assert low24 == (low24 / 0x1_0000) * 0x1_0000 + low16;
    assert low16 == (low16 / 0x100) * 0x100 + low16 % 0x100;
  }

  lemma U32AtEncodes(data: seq<byte>, off: nat)
    requires off + 4 <= |data|
    ensures Be32(U32At(data, off)) == data[off..off + 4]
  {
    var b0, b1, b2, b3 := data[off] as int, data[off + 1] as int, data[off + 2] as int, data[off + 3] as int;
    var low16 := b2 * 0x100 + b3;
    var low24 := b1 * 0x1_0000 + low16;
    DivModUnique(b0, low24, 0x100_0000);
    DivModUnique(b1, low16, 0x1_0000);
    DivModUnique(b2, b3, 0x100);
  }

  lemma DivModUnique(q: int, r: int, d: int)
    requires 0 <= r < d
    ensures (q * d + r) / d == q && (q * d + r) % d == r
  {
    var k, m := (q * d + r) / d, (q * d + r) % d;
    assert q * d + r == k * d + m;
    assert (q - k) * d == m - r;
    if q - k >= 1 {
      assert false;
    } else if q - k <= -1 {
      assert false;
    }
  }

  /** Python's `needle in hay` for two `bytes` objects. */
  predicate Contains(hay: seq<byte>, needle: seq<byte>)
  {
    exists i :: 0 <= i <= |hay| - |needle| && OccursAt(hay, needle, i)
  }

  /** `needle` is the slice of `hay` that starts at `i`. */
  predicate OccursAt(hay: seq<byte>, needle: seq<byte>, i: nat)
  {
    i + |needle| <= |hay| && hay[i..i + |needle|] == needle
  }

  predicate IsAscii(s: seq<byte>)
  {
    forall k :: 0 <= k < |s| ==> s[k] < 128
  }

  /** `s.decode(encoding='ascii')` for bytes that are all ASCII: one
      character per byte, with the byte's code. */
  function AsciiDecode(s: seq<byte>): (r: string)
    requires IsAscii(s)
    ensures |r| == |s|
    ensures forall k :: 0 <= k < |s| ==> r[k] as int == s[k]
  {
    if s == [] then "" else [(s[0] as int) as char] + AsciiDecode(s[1..])
  }
}
