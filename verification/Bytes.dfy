/** Machine integers and their little-endian byte strings, as `to_le_bytes` and `from_le_bytes` build and read them. */
module Bytes {

  type u8 = x: int | 0 <= x < 0x100
  type u16 = x: int | 0 <= x < 0x1_0000
  type u32 = x: int | 0 <= x < 0x1_0000_0000
  type u64 = x: int | 0 <= x < 0x1_0000_0000_0000_0000

  function Max(a: int, b: int): int { if a < b then b else a }

  /** The number of values that fit in `n` bytes. */
  function Radix(n: nat): (r: nat)
    ensures r > 0
  {
    if n == 0 then 1 else 256 * Radix(n - 1)
  }

  /** The low `n` bytes of `v`, least significant first. */
  function Encode(v: nat, n: nat): (s: seq<u8>)
    ensures |s| == n
  {
    if n == 0 then [] else [v % 256] + Encode(v / 256, n - 1)
  }

  /** The number whose little-endian digits are `s`. */
  function Decode(s: seq<u8>): (v: nat)
    ensures v < Radix(|s|)
  {
    if s == [] then 0 else s[0] + 256 * Decode(s[1..])
  }

  lemma {:induction false} DecodeEncode(v: nat, n: nat)
    requires v < Radix(n)
    ensures Decode(Encode(v, n)) == v
  {
    if n > 0 {
      DecodeEncode(v / 256, n - 1);
      assert Encode(v, n)[1..] == Encode(v / 256, n - 1);
    }
  }

  lemma {:induction false} EncodeDecode(s: seq<u8>)
    ensures Encode(Decode(s), |s|) == s
  {
    if s != [] {
      EncodeDecode(s[1..]);
      Digits(s[0], Decode(s[1..]));
      assert s == [s[0]] + s[1..];
    }
  }

  lemma Digits(low: u8, high: nat)
    ensures (low + 256 * high) % 256 == low && (low + 256 * high) / 256 == high
  {
  }

  lemma RadixValues()
    ensures Radix(1) == 0x100 && Radix(2) == 0x1_0000 && Radix(4) == 0x1_0000_0000
    ensures Radix(8) == 0x1_0000_0000_0000_0000
  {
    assert Radix(1) == 256 * Radix(0);
    assert Radix(2) == 256 * Radix(1);
    assert Radix(3) == 256 * Radix(2);
    assert Radix(4) == 256 * Radix(3);
    assert Radix(5) == 256 * Radix(4);
    assert Radix(6) == 256 * Radix(5);
    assert Radix(7) == 256 * Radix(6);
    assert Radix(8) == 256 * Radix(7);
  }

  /** The low bytes come first: what follows `a` weighs 256 times as much for each byte of `a`. */
  lemma {:induction false} DecodeConcat(a: seq<u8>, b: seq<u8>)
    ensures Decode(a + b) == Decode(a) + Radix(|a|) * Decode(b)
  {
    if a == [] {
      assert a + b == b;
    } else {
      assert (a + b)[1..] == a[1..] + b;
      DecodeConcat(a[1..], b);
      Regroup(a[0], Decode(a[1..]), Radix(|a| - 1), Decode(b));
    }
  }

  lemma Regroup(x: int, front: int, weight: int, rest: int)
    ensures x + 256 * (front + weight * rest) == x + 256 * front + (256 * weight) * rest
  {
  }

  lemma DecodeByte(x: u8)
    ensures Decode([x]) == x
  {
    assert [x][1..] == [];
  }

  /** The number with these bytes, least significant first. */
  function Number2(a: int, b: int): int { a + 0x100 * b }
  function Number4(a: int, b: int, c: int, d: int): int { Number2(a, b) + 0x1_0000 * Number2(c, d) }

  lemma LittleEndian2(s: seq<u8>)
    requires |s| == 2
    ensures Decode(s) == Number2(s[0], s[1])
  {
    hide Decode, Radix;
    RadixValues();
    DecodeByte(s[0]);
    DecodeByte(s[1]);
    DecodeConcat([s[0]], [s[1]]);
    assert s == [s[0]] + [s[1]];
  }

  lemma LittleEndian4(s: seq<u8>)
    requires |s| == 4
    ensures Decode(s) == Number4(s[0], s[1], s[2], s[3])
  {
    hide Decode, Radix;
    RadixValues();
    LittleEndian2(s[..2]);
    LittleEndian2(s[2..]);
    DecodeConcat(s[..2], s[2..]);
    assert s == s[..2] + s[2..];
  }

  lemma LittleEndian8(s: seq<u8>)
    requires |s| == 8
    ensures Decode(s) == Number4(s[0], s[1], s[2], s[3]) + 0x1_0000_0000 * Number4(s[4], s[5], s[6], s[7])
  {
    hide Decode, Radix, Number4;
    RadixValues();
    LittleEndian4(s[..4]);
    LittleEndian4(s[4..]);
    DecodeConcat(s[..4], s[4..]);
    assert s == s[..4] + s[4..];
  }

  function DecodeU16(s: seq<u8>): (v: u16)
    requires |s| == 2
    ensures Encode(v, 2) == s
  {
    RadixValues();
    EncodeDecode(s);
    Decode(s)
  }

  function DecodeU32(s: seq<u8>): (v: u32)
    requires |s| == 4
    ensures Encode(v, 4) == s
  {
    RadixValues();
    EncodeDecode(s);
    Decode(s)
  }

  function DecodeU64(s: seq<u8>): (v: u64)
    requires |s| == 8
    ensures Encode(v, 8) == s
  {
    RadixValues();
    EncodeDecode(s);
    Decode(s)
  }

  lemma DecodedU16(s: seq<u8>)
    requires |s| == 2
    ensures DecodeU16(s) == Decode(s)
  {
  }

  lemma DecodedU32(s: seq<u8>)
    requires |s| == 4
    ensures DecodeU32(s) == Decode(s)
  {
  }

  lemma DecodedU64(s: seq<u8>)
    requires |s| == 8
    ensures DecodeU64(s) == Decode(s)
  {
  }

  lemma U16RoundTrip(v: u16)
    ensures DecodeU16(Encode(v, 2)) == v
  {
    RadixValues();
    DecodeEncode(v, 2);
  }

  lemma U32RoundTrip(v: u32)
    ensures DecodeU32(Encode(v, 4)) == v
  {
    RadixValues();
    DecodeEncode(v, 4);
  }

  lemma U64RoundTrip(v: u64)
    ensures DecodeU64(Encode(v, 8)) == v
  {
    RadixValues();
    DecodeEncode(v, 8);
  }

  lemma TwoBytes(v: u16)
    ensures var s := Encode(v, 2); Number2(s[0], s[1]) == v
  {
    hide Encode, Decode, DecodeU16;
    U16RoundTrip(v);
    LittleEndian2(Encode(v, 2));
    DecodedU16(Encode(v, 2));
  }

  lemma FourBytes(v: u32)
    ensures var s := Encode(v, 4); Number4(s[0], s[1], s[2], s[3]) == v
  {
    hide Encode, Decode, DecodeU32;
    U32RoundTrip(v);
    LittleEndian4(Encode(v, 4));
    DecodedU32(Encode(v, 4));
  }

  lemma EightBytes(v: u64)
    ensures var s := Encode(v, 8);
            Number4(s[0], s[1], s[2], s[3]) + 0x1_0000_0000 * Number4(s[4], s[5], s[6], s[7]) == v
  {
    hide Encode, Decode, DecodeU64, Number4;
    U64RoundTrip(v);
    LittleEndian8(Encode(v, 8));
    DecodedU64(Encode(v, 8));
  }

  /** `s` with the bytes `b` written over it at `at`. */
  function Splice(s: seq<u8>, at: nat, b: seq<u8>): (r: seq<u8>)
    requires at + |b| <= |s|
    ensures |r| == |s|
    ensures forall k :: 0 <= k < |s| ==> r[k] == if at <= k < at + |b| then b[k - at] else s[k]
  {
    s[..at] + b + s[at + |b|..]
  }

  /** `copy_from_slice` and `copy_nonoverlapping`: writes `b` over `a` at `at`. */
  method CopyInto(a: array<u8>, at: nat, b: seq<u8>)
    requires at + |b| <= a.Length
    modifies a
    ensures a[..] == Splice(old(a[..]), at, b)
  {
    for k := 0 to |b|
      invariant forall j :: 0 <= j < a.Length ==> a[j] == if at <= j < at + k then b[j - at] else old(a[j])
    {
      a[at + k] := b[k];
    }
  }

  /** Where the four parts of a concatenation lie. */
  lemma FourParts(a: seq<u8>, b: seq<u8>, c: seq<u8>, d: seq<u8>)
    ensures var s := a + b + c + d;
            var i, j, k, l := |a|, |a| + |b|, |a| + |b| + |c|, |a| + |b| + |c| + |d|;
            |s| == l && s[..i] == a && s[i..j] == b && s[j..k] == c && s[k..l] == d
  {
  }

  lemma SliceOfFront(front: seq<u8>, rest: seq<u8>, i: nat, j: nat)
    requires i <= j <= |front|
    ensures (front + rest)[i..j] == front[i..j]
  {
  }
}
