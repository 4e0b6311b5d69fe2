/**
 Bit strings, the bit reader over bytes, and the Exp-Golomb codes of section 9.1 of the H.264
 standard with their inverses.
 */
module Bits {
  import opened Prelude

  type bit = b: int | 0 <= b < 2

  /** Rust's `i32`. */
  type i32 = n: int | -0x8000_0000 <= n < 0x8000_0000

  function Pow2(n: nat): (p: nat)
    ensures p > 0
  {
    if n == 0 then 1 else 2 * Pow2(n - 1)
  }

  lemma {:induction false} Pow2Monotone(m: nat, n: nat)
    requires m <= n
    ensures Pow2(m) <= Pow2(n)
  {
    if m < n {
      Pow2Monotone(m, n - 1);
    }
  }

  lemma Pow2At32()
    ensures Pow2(31) == 0x8000_0000 && Pow2(32) == 0x1_0000_0000
  {
    assert Pow2(8) == 256;
    assert Pow2(16) == 0x1_0000;
    assert Pow2(24) == 0x100_0000;
    assert Pow2(28) == 0x1000_0000;
  }

  // ---------------------------------------------------------------------------
  // Bytes as bits
  // ---------------------------------------------------------------------------

  function ByteBits(b: byte): (bits: seq<bit>)
    ensures |bits| == 8
  {
    [b / 128 % 2, b / 64 % 2, b / 32 % 2, b / 16 % 2, b / 8 % 2, b / 4 % 2, b / 2 % 2, b % 2]
  }

  function BitsOf(data: seq<byte>): (bits: seq<bit>)
    ensures |bits| == 8 * |data|
  {
    if data == [] then [] else ByteBits(data[0]) + BitsOf(data[1..])
  }

  /** The number a bit string stands for, most significant bit first. */
  function Value(bits: seq<bit>): nat {
    if bits == [] then 0 else Value(bits[..|bits| - 1]) * 2 + bits[|bits| - 1]
  }

  lemma {:induction false} ValueBound(bits: seq<bit>)
    ensures Value(bits) < Pow2(|bits|)
  {
    if bits != [] {
      ValueBound(bits[..|bits| - 1]);
    }
  }

  lemma ByteBitAt(b: byte, k: nat)
    requires k < 8
    ensures ByteBits(b)[k] == b / Pow2(7 - k) % 2
  {
    assert Pow2(0) == 1 && Pow2(1) == 2 && Pow2(2) == 4 && Pow2(3) == 8;
    assert Pow2(4) == 16 && Pow2(5) == 32 && Pow2(6) == 64 && Pow2(7) == 128;
  }

  lemma {:induction false} BitInByte(data: seq<byte>, i: nat, k: nat)
    requires i < |data| && k < 8
    ensures BitsOf(data)[8 * i + k] == ByteBits(data[i])[k]
  {
    if i > 0 {
      BitInByte(data[1..], i - 1, k);
    }
  }

  /** The byte at `pos / 8` shifted right by `7 - pos % 8` shows bit `pos`. */
  lemma BitAt(data: seq<byte>, pos: nat)
    requires pos < 8 * |data|
    ensures BitsOf(data)[pos] == data[pos / 8] / Pow2(7 - pos % 8) % 2
  {
    BitInByte(data, pos / 8, pos % 8);
    ByteBitAt(data[pos / 8], pos % 8);
  }

  function ByteOf(b: seq<bit>): byte
    requires |b| == 8
  {
    var (b0: int, b1: int, b2: int, b3: int) := (b[0], b[1], b[2], b[3]);
    var (b4: int, b5: int, b6: int, b7: int) := (b[4], b[5], b[6], b[7]);
    128 * b0 + 64 * b1 + 32 * b2 + 16 * b3 + 8 * b4 + 4 * b5 + 2 * b6 + b7
  }

  lemma ByteBitsInverse(b: seq<bit>)
    requires |b| == 8
    ensures ByteBits(ByteOf(b)) == b
  {
    var n: int := ByteOf(b);
    var b0: int, b1: int, b2: int, b3: int := b[0], b[1], b[2], b[3];
    var b4: int, b5: int, b6: int, b7: int := b[4], b[5], b[6], b[7];
    assert n / 2 == 64 * b0 + 32 * b1 + 16 * b2 + 8 * b3 + 4 * b4 + 2 * b5 + b6;
    assert n / 4 == 32 * b0 + 16 * b1 + 8 * b2 + 4 * b3 + 2 * b4 + b5;
    assert n / 8 == 16 * b0 + 8 * b1 + 4 * b2 + 2 * b3 + b4;
    assert n / 16 == 8 * b0 + 4 * b1 + 2 * b2 + b3;
    assert n / 32 == 4 * b0 + 2 * b1 + b2;
    assert n / 64 == 2 * b0 + b1;
    assert n / 128 == b0;
  }

  /** Bits packed into bytes, eight at a time. */
  function Pack(bits: seq<bit>): seq<byte>
    requires |bits| % 8 == 0
    decreases |bits|
  {
    if bits == [] then [] else [ByteOf(bits[..8])] + Pack(bits[8..])
  }

  lemma {:induction false} PackRoundTrip(bits: seq<bit>)
    requires |bits| % 8 == 0
    ensures BitsOf(Pack(bits)) == bits
    decreases |bits|
  {
    if bits != [] {
      ByteBitsInverse(bits[..8]);
      PackRoundTrip(bits[8..]);
      assert bits == bits[..8] + bits[8..];
    }
  }

  // ---------------------------------------------------------------------------
  // Reading from a bit string
  // ---------------------------------------------------------------------------

  /** `n` bits as an unsigned value, and the bits left. */
  function ReadU(bits: seq<bit>, n: nat): Option<(nat, seq<bit>)> {
    if |bits| < n then None else Some((Value(bits[..n]), bits[n..]))
  }

  function LeadingZeros(bits: seq<bit>): (n: nat)
    ensures n <= |bits|
  {
    if bits == [] || bits[0] == 1 then 0 else 1 + LeadingZeros(bits[1..])
  }

  /** The value of a code whose first one bit stands at `zeros`, and the bits behind it. */
  function ReadUeAfter(bits: seq<bit>, zeros: nat): Option<(nat, seq<bit>)>
    requires zeros < |bits|
  {
    var (low, left) :- ReadU(bits[zeros + 1..], zeros);
    Some((Pow2(zeros) - 1 + low, left))
  }

  /** `ue(v)`, refusing more than 31 leading zeros. */
  function ReadUe(bits: seq<bit>): Option<(nat, seq<bit>)> {
    var z := LeadingZeros(bits);
    if z > 31 || z == |bits| then None else ReadUeAfter(bits, z)
  }

  function SignedOf(k: nat): int {
    if k % 2 == 0 then -((k + 1) / 2) else (k + 1) / 2
  }

  /** `se(v)`. */
  function ReadSe(bits: seq<bit>): Option<(int, seq<bit>)> {
    var (k, left) :- ReadUe(bits);
    Some((SignedOf(k), left))
  }

  /** The reader over the bytes of an RBSP. */
  class BitReader {
    const data: seq<byte>
    var bitPos: nat

    ghost predicate Valid()
      reads this
    {
      bitPos <= 8 * |data|
    }

    /** The bits not yet read. */
    ghost function Rest(): seq<bit>
      reads this
      requires Valid()
    {
      BitsOf(data)[bitPos..]
    }

    constructor (data: seq<byte>)
      ensures Valid() && Rest() == BitsOf(data) && this.data == data
    {
      this.data := data;
      bitPos := 0;
    }

    /** The loop of `u`, by position: the value of the next `n` bits, unless fewer are left. */
    method TakeBits(n: nat) returns (r: Option<u32>)
      requires Valid() && n <= 32
      modifies this
      ensures Valid()
      ensures r.Some? <==> old(bitPos) + n <= 8 * |data|
      ensures r.Some? ==> bitPos == old(bitPos) + n && r.value == Value(BitsOf(data)[old(bitPos)..bitPos])
    {
      ghost var start, all := bitPos, BitsOf(data);
      var v: u32 := 0;
      for i := 0 to n
        invariant Valid() && bitPos == start + i
        invariant v == Value(all[start..bitPos])
      {
        if bitPos / 8 >= |data| {
          return None;
        }
        var bit := data[bitPos / 8] / Pow2(7 - bitPos % 8) % 2;
        BitAt(data, bitPos);
        AppendBit(all, start, bitPos);
        var next: int := v * 2 + bit;
        assert next == Value(all[start..bitPos + 1]);
        v := next;
        bitPos := bitPos + 1;
      }
      return Some(v);
    }

    method U(n: nat) returns (r: Option<u32>)
      requires Valid() && n <= 32
      modifies this
      ensures Valid()
      ensures match ReadU(old(Rest()), n)
              case None => r.None?
              case Some(p) => r == Some(p.0) && Rest() == p.1
    {
      ReadUAt(BitsOf(data), bitPos, n);
      r := TakeBits(n);
    }

    /** Read past the zeros in front of a code and its first one bit, refusing more than 31 zeros. */
    method CountZeros() returns (r: Option<nat>)
      requires Valid()
      modifies this
      ensures Valid()
      ensures r.None? ==> LeadingZeros(old(Rest())) > 31 || LeadingZeros(old(Rest())) == |old(Rest())|
      ensures r.Some? ==>
                && r.value == LeadingZeros(old(Rest())) <= 31 && r.value < |old(Rest())|
                && Rest() == old(Rest())[r.value + 1..]
    {
      ghost var all := Rest();
      ghost var here := all;
      var zeros := 0;
      OneBit(here);
      var b := U(1);
      while b == Some(0)
        invariant Valid() && 0 <= zeros <= 31 && zeros <= |all| && here == all[zeros..]
        invariant LeadingZeros(all) == zeros + LeadingZeros(here)
        invariant b.None? <==> here == []
        invariant b.Some? ==> b.value == here[0] && Rest() == here[1..]
        decreases 31 - zeros
      {
        zeros := zeros + 1;
        if zeros > 31 {
          return None;
        }
        here := here[1..];
        OneBit(here);
        b := U(1);
      }
      return if b.None? then None else Some(zeros);
    }

    method Ue() returns (r: Option<u32>)
      requires Valid()
      modifies this
      ensures Valid()
      ensures match ReadUe(old(Rest()))
              case None => r.None?
              case Some(p) => r == Some(p.0) && Rest() == p.1
      ensures r.Some? ==> r.value < 0xFFFF_FFFF
    {
      ghost var all := Rest();
      var zeros := CountZeros();
      if zeros.None? {
        return None;
      }
      UeAt(all, zeros.value);
      if zeros.value == 0 {
        UeOfOne(all);
        return Some(0);
      }
      var rest := U(zeros.value);
      if rest.None? {
        return None;
      }
      UeValueBound(all[zeros.value + 1..][..zeros.value]);
      return Some(Pow2(zeros.value) - 1 + rest.value);
    }

    method Se() returns (r: Option<i32>)
      requires Valid()
      modifies this
      ensures Valid()
      ensures match ReadSe(old(Rest()))
              case None => r.None?
              case Some(p) => r == Some(p.0) && Rest() == p.1
    {
      var k := Ue();
      if k.None? {
        return None;
      }
      var codeNum: int := k.value;
      var val := (codeNum + 1) / 2;
      var signed: i32 := if codeNum % 2 == 0 then -val else val;
      return Some(signed);
    }
  }

  lemma UeAt(bits: seq<bit>, zeros: nat)
    requires zeros == LeadingZeros(bits) <= 31 && zeros < |bits|
    ensures ReadUe(bits) == ReadUeAfter(bits, zeros)
  {
  }

  lemma UeOfOne(bits: seq<bit>)
    requires bits != []
    ensures ReadUeAfter(bits, 0) == Some((0, bits[1..]))
  {
    var tail := bits[1..];
    assert tail[..0] == [] && tail[0..] == tail;
  }

  lemma UeValueBound(low: seq<bit>)
    requires |low| <= 31
    ensures Pow2(|low|) - 1 + Value(low) < 0xFFFF_FFFF
  {
    ValueBound(low);
    Pow2At32();
    Pow2Monotone(|low|, 31);
  }

  lemma ReadUAt(all: seq<bit>, start: nat, n: nat)
    requires start <= |all|
    ensures start + n > |all| ==> ReadU(all[start..], n).None?
    ensures start + n <= |all| ==> ReadU(all[start..], n) == Some((Value(all[start..start + n]), all[start + n..]))
  {
    if start + n <= |all| {
      SuffixSlices(all, start, n);
    }
  }

  lemma OneBit(bits: seq<bit>)
    ensures bits != [] ==> Value(bits[..1]) == bits[0]
  {
    if bits != [] {
      assert bits[..1][..0] == [];
    }
  }

  /** One more bit doubles the value; up to 32 bits it stays below 2^32. */
  lemma AppendBit(all: seq<bit>, start: nat, pos: nat)
    requires start <= pos < |all| && pos - start < 32
    ensures Value(all[start..pos + 1]) == Value(all[start..pos]) * 2 + all[pos]
    ensures Value(all[start..pos + 1]) < 0x1_0000_0000
  {
    assert all[start..pos + 1][..pos - start] == all[start..pos];
    ValueBound(all[start..pos + 1]);
    Pow2At32();
    Pow2Monotone(pos + 1 - start, 32);
  }

  // ---------------------------------------------------------------------------
  // Writing, and reading back
  // ---------------------------------------------------------------------------

  /** The `n` low bits of `v`, most significant first. */
  function Binary(v: nat, n: nat): (bits: seq<bit>)
    ensures |bits| == n
  {
    if n == 0 then [] else Binary(v / 2, n - 1) + [v % 2]
  }

  /** Eight bits are those of the byte. */
  lemma BinaryIsByte(b: byte)
    ensures Binary(b, 8) == ByteBits(b)
  {
    assert b / 2 / 2 == b / 4 && b / 4 / 2 == b / 8 && b / 8 / 2 == b / 16;
    assert b / 16 / 2 == b / 32 && b / 32 / 2 == b / 64 && b / 64 / 2 == b / 128;
    assert Binary(b / 64, 2) == [b / 128 % 2, b / 64 % 2];
    assert Binary(b / 32, 3) == [b / 128 % 2, b / 64 % 2, b / 32 % 2];
    assert Binary(b / 16, 4) == [b / 128 % 2, b / 64 % 2, b / 32 % 2, b / 16 % 2];
    assert Binary(b / 8, 5) == [b / 128 % 2, b / 64 % 2, b / 32 % 2, b / 16 % 2, b / 8 % 2];
    assert Binary(b / 4, 6) == [b / 128 % 2, b / 64 % 2, b / 32 % 2, b / 16 % 2, b / 8 % 2, b / 4 % 2];
  }

  lemma {:induction false} ValueOfBinary(v: nat, n: nat)
    requires v < Pow2(n)
    ensures Value(Binary(v, n)) == v
  {
    if n > 0 {
      ValueOfBinary(v / 2, n - 1);
      assert Binary(v, n)[..n - 1] == Binary(v / 2, n - 1);
    }
  }

  lemma {:induction false} BinaryOfValue(bits: seq<bit>)
    ensures Binary(Value(bits), |bits|) == bits
  {
    if bits != [] {
      BinaryOfValue(bits[..|bits| - 1]);
    }
  }

  /** The largest `m` with 2^m <= n. */
  function Log2(n: nat): (m: nat)
    requires n > 0
    ensures Pow2(m) <= n
  {
    if n == 1 then 0 else 1 + Log2(n / 2)
  }

  lemma {:induction false} Log2Meaning(n: nat)
    requires n > 0
    ensures n < Pow2(Log2(n) + 1)
  {
    if n > 1 {
      Log2Meaning(n / 2);
    }
  }

  lemma {:induction false} Log2Is(n: nat, m: nat)
    requires Pow2(m) <= n < Pow2(m + 1)
    ensures n > 0 && Log2(n) == m
  {
    if m > 0 {
      Log2Is(n / 2, m - 1);
    }
  }

  function Zeros(n: nat): (bits: seq<bit>)
    ensures |bits| == n
  {
    if n == 0 then [] else [0] + Zeros(n - 1)
  }

  /** The code of `k`: as many zeros as `k + 1` has bits after its first, then `k + 1` itself. */
  function UeCode(k: nat): seq<bit> {
    var m := Log2(k + 1);
    Zeros(m) + [1] + Binary(k + 1 - Pow2(m), m)
  }

  function CodeNum(v: int): nat {
    if v > 0 then 2 * v - 1 else -2 * v
  }

  function SeCode(v: int): seq<bit> {
    UeCode(CodeNum(v))
  }

  lemma {:induction false} LeadingZerosOf(n: nat, tail: seq<bit>)
    requires tail != [] && tail[0] == 1
    ensures LeadingZeros(Zeros(n) + tail) == n
  {
    if n == 0 {
      assert Zeros(0) + tail == tail;
    } else {
      LeadingZerosOf(n - 1, tail);
      assert (Zeros(n) + tail)[1..] == Zeros(n - 1) + tail;
    }
  }

  lemma ReadWhole(low: seq<bit>, rest: seq<bit>)
    ensures ReadU(low + rest, |low|) == Some((Value(low), rest))
  {
    assert (low + rest)[..|low|] == low;
    assert (low + rest)[|low|..] == rest;
  }

  lemma ReadBinary(v: nat, n: nat, rest: seq<bit>)
    requires v < Pow2(n)
    ensures ReadU(Binary(v, n) + rest, n) == Some((v, rest))
  {
    ValueOfBinary(v, n);
    ReadWhole(Binary(v, n), rest);
  }

  lemma UeFits(k: nat)
    requires k < 0xFFFF_FFFF
    ensures Log2(k + 1) <= 31
    ensures k + 1 < Pow2(Log2(k + 1) + 1)
  {
    Log2Meaning(k + 1);
    Pow2At32();
    if Log2(k + 1) > 31 {
      Pow2Monotone(32, Log2(k + 1));
    }
  }

  lemma CodeShape(z: seq<bit>, low: seq<bit>, rest: seq<bit>)
    ensures z + [1] + low + rest == z + ([1] + (low + rest))
    ensures (z + [1] + low + rest)[|z| + 1..] == low + rest
  {
  }

  lemma ReadAfterZeros(code: seq<bit>, m: nat, low: seq<bit>, rest: seq<bit>)
    requires |low| == m < |code| && code[m + 1..] == low + rest
    ensures ReadUeAfter(code, m) == Some((Pow2(m) - 1 + Value(low), rest))
  {
    ReadWhole(low, rest);
  }

  lemma ReadCode(m: nat, low: seq<bit>, rest: seq<bit>)
    requires |low| == m <= 31
    ensures ReadUe(Zeros(m) + [1] + low + rest) == Some((Pow2(m) - 1 + Value(low), rest))
  {
    var code := Zeros(m) + [1] + low + rest;
    CodeShape(Zeros(m), low, rest);
    LeadingZerosOf(m, [1] + (low + rest));
    ReadAfterZeros(code, m, low, rest);
    UeAt(code, m);
  }

  /** The reader undoes the code of every value that has one of at most 31 leading zeros. */
  lemma UeRoundTrip(k: nat, rest: seq<bit>)
    requires k < 0xFFFF_FFFF
    ensures ReadUe(UeCode(k) + rest) == Some((k, rest))
  {
    var m := Log2(k + 1);
    var v := k + 1 - Pow2(m);
    var low := Binary(v, m);
    UeFits(k);
    ValueOfBinary(v, m);
    ReadCode(m, low, rest);
    assert UeCode(k) == Zeros(m) + [1] + low;
  }

  lemma {:induction false} LeadingZerosSplit(bits: seq<bit>)
    requires LeadingZeros(bits) < |bits|
    ensures bits == Zeros(LeadingZeros(bits)) + [1] + bits[LeadingZeros(bits) + 1..]
  {
    if bits[0] == 0 {
      LeadingZerosSplit(bits[1..]);
      var z := LeadingZeros(bits[1..]);
      assert bits[1..][z + 1..] == bits[z + 2..];
    }
  }

  /** Whatever the reader accepts is the code of the value it returns, which fits in 32 bits. */
  lemma UeReadsOnlyCodes(bits: seq<bit>)
    requires ReadUe(bits).Some?
    ensures var (k, rest) := ReadUe(bits).value; k < 0xFFFF_FFFF && bits == UeCode(k) + rest
  {
    var z := LeadingZeros(bits);
    LeadingZerosSplit(bits);
    var tail := bits[z + 1..];
    var low := tail[..z];
    ValueBound(low);
    BinaryOfValue(low);
    CodeOfParts(ReadUe(bits).value.0, z, Value(low), low);
    UeValueBound(tail[..z]);
    assert tail == tail[..z] + tail[z..];
    Assoc(Zeros(z) + [1], tail[..z], tail[z..]);
  }

  lemma CodeOfParts(k: nat, z: nat, v: nat, low: seq<bit>)
    requires k + 1 == Pow2(z) + v && v < Pow2(z) && low == Binary(v, z)
    ensures UeCode(k) == Zeros(z) + [1] + low
  {
    Log2Is(k + 1, z);
  }

  lemma SignedOfCodeNum(v: int)
    ensures SignedOf(CodeNum(v)) == v
  {
  }

  /** `se` undoes the signed code of every 32-bit value but the least one. */
  lemma SeRoundTrip(v: int, rest: seq<bit>)
    requires -0x8000_0000 < v < 0x8000_0000
    ensures ReadSe(SeCode(v) + rest) == Some((v, rest))
  {
    var k := CodeNum(v);
    SignedOfCodeNum(v);
    UeRoundTrip(k, rest);
  }

  /** A single bit. */
  lemma BitRoundTrip(b: bit, rest: seq<bit>)
    ensures ReadU([b] + rest, 1) == Some((b, rest))
  {
    OneBit([b] + rest);
  }
}
