/**
  Bit serialisation of the steganography codec: payload bytes are spread
  over single bits, most significant bit first, and regrouped eight at a
  time on the way back.
 */
module Bits {

  /** One payload byte or one 8-bit colour channel value. */
  type Byte = x: int | 0 <= x < 256

  /** One binary digit, as the codec stores it in a list of ints. */
  type Bit = x: int | 0 <= x < 2

  function Pow2(n: nat): (r: nat)
    ensures r > 0
  {
    if n == 0 then 1 else 2 * Pow2(n - 1)
  }

  /** Bit `i` of `b`, counting from the least significant: `(b >> i) & 1`. */
  function BitOf(b: Byte, i: nat): Bit
  {
    (b / Pow2(i)) % 2
  }

  /** The eight bits of one byte, most significant first (`i` runs 7 down to 0). */
  function ByteBits(b: Byte): (r: seq<Bit>)
    ensures |r| == 8
  {
    seq(8, j requires 0 <= j < 8 => BitOf(b, 7 - j))
  }

  /** The value of bits read most significant first: `byte = (byte << 1) | bit` for each bit. */
  function BitsValue(bits: seq<Bit>): (r: nat)
    ensures r < Pow2(|bits|)
  {
    if bits == [] then 0 else 2 * BitsValue(bits[..|bits| - 1]) + bits[|bits| - 1]
  }

  /** The byte rebuilt from one complete group of eight bits. */
  function GroupValue(group: seq<Bit>): Byte
    requires |group| == 8
  {
    assert Pow2(8) == 256;
    BitsValue(group)
  }

  /** Every byte expanded to its eight bits, most significant first, in order. */
  function ToBits(bytes: seq<Byte>): (r: seq<Bit>)
    ensures |r| == 8 * |bytes|
  {
    if bytes == [] then [] else ToBits(bytes[..|bytes| - 1]) + ByteBits(bytes[|bytes| - 1])
  }

  /** Bits regrouped eight at a time; a trailing group of fewer than eight bits is dropped. */
  function FromBits(bits: seq<Bit>): (r: seq<Byte>)
    ensures |r| == |bits| / 8
    ensures forall q :: 0 <= q < |r| ==> r[q] == GroupValue(bits[8 * q .. 8 * q + 8])
  {
    seq(|bits| / 8, q requires 0 <= q < |bits| / 8 => GroupValue(bits[8 * q .. 8 * q + 8]))
  }

  /** Bytes read as single-byte characters (Latin-1): `chr(byte)` for each byte. */
  function Latin1(bytes: seq<Byte>): (s: string)
    ensures |s| == |bytes|
    ensures forall i :: 0 <= i < |s| ==> s[i] as int == bytes[i]
  {
    seq(|bytes|, i requires 0 <= i < |bytes| => bytes[i] as char)
  }

  // ---------------------------------------------------------------------
  // Arithmetic behind the MSB-first round trip

  /** Quotients are unique: if `b == d * q + r` with `0 <= r < d` then `q` is `b / d`. */
  lemma DivUnique(b: int, d: int, q: int, r: int)
    requires d > 0 && 0 <= r < d && b == d * q + r
    ensures b / d == q
  {
    var k := q - b / d;
    assert d * k == d * q - d * (b / d);
    assert d * k == b % d - r;
  }

  lemma DivHalf(b: nat, p: nat)
    requires p > 0
    ensures b / (2 * p) == (b / p) / 2
  {
    var q, r := b / p, b % p;
    var q2, r2 := q / 2, q % 2;
    assert p * q == p * (2 * q2 + r2) == (2 * p) * q2 + p * r2;
    assert p * r2 <= p by {
      assert r2 == 0 || r2 == 1;
    }
    DivUnique(b, 2 * p, q2, p * r2 + r);
  }

  /** Reading the first `k` bits of a byte back gives the byte shifted right by `8 - k`. */
  lemma {:induction false} ByteBitsPrefixValue(b: Byte, k: nat)
    requires k <= 8
    ensures BitsValue(ByteBits(b)[..k]) == b / Pow2(8 - k)
  {
    var s := ByteBits(b);
    if k == 0 {
      assert Pow2(8) == 256;
      assert s[..0] == [];
    } else {
      ByteBitsPrefixValue(b, k - 1);
      assert s[..k][..k - 1] == s[..k - 1];
      var x := b / Pow2(8 - k);
      assert Pow2(9 - k) == 2 * Pow2(8 - k);
      DivHalf(b, Pow2(8 - k));
      assert BitsValue(s[..k - 1]) == x / 2;
      assert s[k - 1] == x % 2;
      assert BitsValue(s[..k]) == 2 * BitsValue(s[..k - 1]) + s[k - 1];
    }
  }

  /** Regrouping the eight bits of a byte gives back that byte. */
  lemma ByteBitsRoundTrip(b: Byte)
    ensures GroupValue(ByteBits(b)) == b
  {
    ByteBitsPrefixValue(b, 8);
    assert ByteBits(b)[..8] == ByteBits(b);
  }

  // ---------------------------------------------------------------------
  // Properties of the serialisation

  /** A slice lying within the left operand of a concatenation. */
  lemma SliceLeft<T>(a: seq<T>, b: seq<T>, i: nat, j: nat)
    requires i <= j <= |a|
    ensures (a + b)[i..j] == a[i..j]
  {
  }

  /** A slice lying within the right operand of a concatenation. */
  lemma SliceRight<T>(a: seq<T>, b: seq<T>, i: nat, j: nat)
    requires |a| <= i <= j <= |a| + |b|
    ensures (a + b)[i..j] == b[i - |a| .. j - |a|]
  {
  }

  lemma {:induction false} ToBitsAppend(a: seq<Byte>, b: seq<Byte>)
    ensures ToBits(a + b) == ToBits(a) + ToBits(b)
    decreases |b|
  {
    if b == [] {
      assert a + b == a;
    } else {
      var b' := b[..|b| - 1];
      ToBitsAppend(a, b');
      assert (a + b)[..|a + b| - 1] == a + b';
      assert (a + b)[|a + b| - 1] == b[|b| - 1];
      calc {
        ToBits(a + b);
        ToBits(a + b') + ByteBits(b[|b| - 1]);
        ToBits(a) + ToBits(b') + ByteBits(b[|b| - 1]);
        ToBits(a) + ToBits(b);
      }
    }
  }

  /**
    `ToBits` gives eight bits per byte, in order: its `q`-th group of eight
    bits is the most-significant-first expansion of `bytes[q]`.
   */
  lemma {:induction false} ToBitsGroup(bytes: seq<Byte>, q: nat)
    requires q < |bytes|
    ensures ToBits(bytes)[8 * q .. 8 * q + 8] == ByteBits(bytes[q])
  {
    var init := bytes[..|bytes| - 1];
    assert ToBits(bytes) == ToBits(init) + ByteBits(bytes[|bytes| - 1]);
    if q < |init| {
      ToBitsGroup(init, q);
      SliceLeft(ToBits(init), ByteBits(bytes[|bytes| - 1]), 8 * q, 8 * q + 8);
    } else {
      SliceRight(ToBits(init), ByteBits(bytes[|bytes| - 1]), 8 * q, 8 * q + 8);
      assert ByteBits(bytes[q])[0..8] == ByteBits(bytes[q]);
    }
  }

  /**
    Expanding bytes and regrouping the result, followed by any further bits,
    gives back those bytes first: the expansion is byte-aligned.
   */
  lemma FromBitsOfToBits(bytes: seq<Byte>, rest: seq<Bit>)
    ensures FromBits(ToBits(bytes) + rest) == bytes + FromBits(rest)
  {
    var bits := ToBits(bytes) + rest;
    var n := |bytes|;
    assert |bits| / 8 == n + |rest| / 8;
    var lhs, rhs := FromBits(bits), bytes + FromBits(rest);
    forall q | 0 <= q < |lhs| ensures lhs[q] == rhs[q] {
      if q < n {
        ToBitsGroup(bytes, q);
        SliceLeft(ToBits(bytes), rest, 8 * q, 8 * q + 8);
        ByteBitsRoundTrip(bytes[q]);
      } else {
        SliceRight(ToBits(bytes), rest, 8 * q, 8 * q + 8);
        assert 8 * q - 8 * n == 8 * (q - n);
      }
    }
  }

  /** Regrouping inverts expansion. */
  lemma BitsRoundTrip(bytes: seq<Byte>)
    ensures FromBits(ToBits(bytes)) == bytes
  {
    FromBitsOfToBits(bytes, []);
    assert ToBits(bytes) + [] == ToBits(bytes);
  }

  /** A trailing group of fewer than eight bits does not change the regrouped bytes. */
  lemma FromBitsDropsPartialGroup(bits: seq<Bit>, tail: seq<Bit>)
    requires |bits| % 8 == 0 && |tail| < 8
    ensures FromBits(bits + tail) == FromBits(bits)
  {
    var lhs, rhs := FromBits(bits + tail), FromBits(bits);
    assert |lhs| == |rhs|;
    forall q | 0 <= q < |lhs| ensures lhs[q] == rhs[q] {
      assert (bits + tail)[8 * q .. 8 * q + 8] == bits[8 * q .. 8 * q + 8];
    }
  }

  // ---------------------------------------------------------------------
  // The two loops of the codec

  /** Expand bytes into bits, most significant first (one nested loop per byte). */
  method TextToBits(text: seq<Byte>) returns (bits: seq<Bit>)
    ensures bits == ToBits(text)
  {
    bits := [];
    for k := 0 to |text|
      invariant bits == ToBits(text[..k])
    {
      var byte := text[k];
      var i := 7;
      while i >= 0
        invariant -1 <= i <= 7
        invariant bits == ToBits(text[..k]) + ByteBits(byte)[..7 - i]
      {
        bits := bits + [(byte / Pow2(i)) % 2];
        i := i - 1;
      }
      assert ByteBits(byte)[..8] == ByteBits(byte);
      assert text[..k + 1][..k] == text[..k];
    }
    assert text[..|text|] == text;
  }

  /** Rebuild one byte from a group of eight bits, most significant first. */
  method PackByte(group: seq<Bit>) returns (byte: Byte)
    requires |group| == 8
    ensures byte == GroupValue(group)
  {
    var value: nat := 0;
    for j := 0 to 8
      invariant value == BitsValue(group[..j])
    {
      assert group[..j + 1][..j] == group[..j];
      value := value * 2 + group[j];
    }
    assert group[..8] == group;
    assert Pow2(8) == 256;
    byte := value;
  }

  /**
    Regroup bits into characters eight at a time, stopping at a trailing
    group of fewer than eight bits.
   */
  method BitsToText(bits: seq<Bit>) returns (text: string)
    ensures |text| == |bits| / 8
    ensures text == Latin1(FromBits(bits))
  {
    var chars: string := [];
    var i := 0;
    while i < |bits|
      invariant 0 <= i <= |bits| && i % 8 == 0
      invariant chars == Latin1(FromBits(bits)[..i / 8])
    {
      var end := if i + 8 <= |bits| then i + 8 else |bits|;
      var byteBits := bits[i..end];
      if |byteBits| < 8 {
        break;
      }
      var byte := PackByte(byteBits);
      chars := chars + [byte as char];
      assert FromBits(bits)[..(i + 8) / 8] == FromBits(bits)[..i / 8] + [FromBits(bits)[i / 8]];
      i := i + 8;
    }
    assert FromBits(bits)[..i / 8] == FromBits(bits);
    text := chars;
  }
}
