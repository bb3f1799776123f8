// The frame checksum, bit by bit: CRC-16/IBM-SDLC, the FCS-16 of section C.2 of
// RFC 1662 - polynomial 0x1021 reflected, start 0xFFFF, final complement, low
// bit of every byte first (common/src/frame.rs).
module Crc {
  import opened Words

  const POLY: bv16 := 0x8408
  const INIT: bv16 := 0xFFFF

  predicate Low(r: bv16) {
    r & 1 != 0
  }

  function Feed(r: bv16, feedback: bool): bv16 {
    if feedback then (r >> 1) ^ POLY else r >> 1
  }

  function Shift(r: bv16, bit: bool): bv16 {
    Feed(r, Low(r) != bit)
  }

  function Run(r: bv16, bits: seq<bool>): bv16
    decreases |bits|
  {
    if bits == [] then r else Run(Shift(r, bits[0]), bits[1..])
  }

  // The n low bits of v, lowest first.
  function BitsOf(v: nat, n: nat): (b: seq<bool>)
    ensures |b| == n
  {
    if n == 0 then [] else [v % 2 == 1] + BitsOf(v / 2, n - 1)
  }

  function ValueOf(bits: seq<bool>): nat {
    if bits == [] then 0 else (if bits[0] then 1 else 0) + 2 * ValueOf(bits[1..])
  }

  function Bits(bytes: seq<Byte>): (b: seq<bool>)
    ensures |b| == 8 * |bytes|
  {
    if bytes == [] then [] else BitsOf(bytes[0], 8) + Bits(bytes[1..])
  }

  function RegisterBits(r: bv16): (b: seq<bool>)
    ensures |b| == 16
  {
    [r & 0x0001 != 0, r & 0x0002 != 0, r & 0x0004 != 0, r & 0x0008 != 0,
     r & 0x0010 != 0, r & 0x0020 != 0, r & 0x0040 != 0, r & 0x0080 != 0,
     r & 0x0100 != 0, r & 0x0200 != 0, r & 0x0400 != 0, r & 0x0800 != 0,
     r & 0x1000 != 0, r & 0x2000 != 0, r & 0x4000 != 0, r & 0x8000 != 0]
  }

  function ChecksumBits(bytes: seq<Byte>): (b: seq<bool>)
    ensures |b| == 16
  {
    RegisterBits(Run(INIT, Bits(bytes)) ^ 0xFFFF)
  }

  function ByteOf(bits: seq<bool>): Byte
    requires |bits| == 8
  {
    ValueIsBounded(bits);
    ValueOf(bits)
  }

  // The two checksum bytes in wire order, low byte first.
  function ChecksumBytes(bytes: seq<Byte>): (b: seq<Byte>)
    ensures |b| == 2
  {
    [ByteOf(ChecksumBits(bytes)[..8]), ByteOf(ChecksumBits(bytes)[8..])]
  }

  function Checksum(bytes: seq<Byte>): (v: nat)
    ensures v < 0x1_0000
  {
    FromLe16(ChecksumBytes(bytes)[0], ChecksumBytes(bytes)[1])
  }

  function Pow2(n: nat): nat {
    if n == 0 then 1 else 2 * Pow2(n - 1)
  }

  lemma {:induction false} ValueBelowPow2(bits: seq<bool>)
    ensures ValueOf(bits) < Pow2(|bits|)
  {
    if bits == [] {
    } else {
      ValueBelowPow2(bits[1..]);
    }
  }

  lemma {:induction false} ValueIsBounded(bits: seq<bool>)
    requires |bits| == 8
    ensures ValueOf(bits) < 0x100
  {
    ValueBelowPow2(bits);
    assert Pow2(8) == 0x100;
  }

  // ---- bytes and bits determine each other ----

  lemma {:induction false} BitsOfValue(bits: seq<bool>)
    ensures BitsOf(ValueOf(bits), |bits|) == bits
  {
    if bits == [] {
    } else {
      BitsOfValue(bits[1..]);
      assert ValueOf(bits) / 2 == ValueOf(bits[1..]);
    }
  }

  lemma {:induction false} ValueOfBits(v: nat, n: nat)
    requires v < Pow2(n)
    ensures ValueOf(BitsOf(v, n)) == v
  {
    if n == 0 {
    } else {
      ValueOfBits(v / 2, n - 1);
      assert BitsOf(v, n)[1..] == BitsOf(v / 2, n - 1);
    }
  }

  lemma {:induction false} BitsOfConcat(a: seq<Byte>, b: seq<Byte>)
    ensures Bits(a + b) == Bits(a) + Bits(b)
  {
    hide BitsOf;
    if a == [] {
      assert a + b == b;
    } else {
      assert (a + b)[1..] == a[1..] + b;
      BitsOfConcat(a[1..], b);
      assert Bits(a + b) == BitsOf(a[0], 8) + (Bits(a[1..]) + Bits(b));
    }
  }

  lemma {:induction false} BitsInjective(a: seq<Byte>, b: seq<Byte>)
    requires Bits(a) == Bits(b)
    ensures a == b
  {
    assert |a| == |b|;
    if a == [] {
    } else {
      assert Bits(a)[..8] == BitsOf(a[0], 8) && Bits(b)[..8] == BitsOf(b[0], 8);
      assert Bits(a)[8..] == Bits(a[1..]) && Bits(b)[8..] == Bits(b[1..]);
      assert Pow2(8) == 0x100;
      ValueOfBits(a[0], 8);
      ValueOfBits(b[0], 8);
      BitsInjective(a[1..], b[1..]);
    }
  }

  lemma {:induction false} ChecksumBytesBits(bytes: seq<Byte>)
    ensures Bits(ChecksumBytes(bytes)) == ChecksumBits(bytes)
  {
    var bits, out := ChecksumBits(bytes), ChecksumBytes(bytes);
    BitsOfValue(bits[..8]);
    BitsOfValue(bits[8..]);
    assert out[1..] == [out[1]] && out[1..][1..] == [];
    assert Bits(out) == BitsOf(out[0], 8) + (BitsOf(out[1], 8) + []);
    assert bits == bits[..8] + bits[8..];
  }

  // ---- the register as a linear machine ----

  lemma {:induction false} RunConcat(r: bv16, a: seq<bool>, b: seq<bool>)
    ensures Run(r, a + b) == Run(Run(r, a), b)
    decreases |a|
  {
    if a == [] {
      assert a + b == b;
    } else {
      assert (a + b)[1..] == a[1..] + b;
      RunConcat(Shift(r, a[0]), a[1..], b);
    }
  }

  lemma {:induction false} ShiftInjective(s: bv16, t: bv16, bit: bool)
    requires Shift(s, bit) == Shift(t, bit)
    ensures s == t
  {
  }

  // Different states stay different over equal bits.
  lemma {:induction false} RunInjective(s: bv16, t: bv16, bits: seq<bool>)
    requires Run(s, bits) == Run(t, bits)
    ensures s == t
    decreases |bits|
  {
    if bits == [] {
    } else {
      RunInjective(Shift(s, bits[0]), Shift(t, bits[0]), bits[1..]);
      ShiftInjective(s, t, bits[0]);
    }
  }

  // The bits from bit j upwards.
  function Above(j: nat): bv16
    requires j <= 16
  {
    match j
    case 0 => 0xFFFF case 1 => 0xFFFE case 2 => 0xFFFC case 3 => 0xFFF8
    case 4 => 0xFFF0 case 5 => 0xFFE0 case 6 => 0xFFC0 case 7 => 0xFF80
    case 8 => 0xFF00 case 9 => 0xFE00 case 10 => 0xFC00 case 11 => 0xF800
    case 12 => 0xF000 case 13 => 0xE000 case 14 => 0xC000 case 15 => 0x8000
    case _ => 0
  }

  lemma {:induction false} AboveStep(j: nat)
    requires 1 <= j <= 16
    ensures Above(j) == Above(j - 1) << 1
    ensures Above(j - 1) & 0x8000 != 0
  {
    match j
    case 1 => case 2 => case 3 => case 4 => case 5 => case 6 => case 7 => case 8 =>
    case 9 => case 10 => case 11 => case 12 => case 13 => case 14 => case 15 => case 16 =>
  }

  lemma {:induction false} SameFeedback(a: bv16, f: bool, b: bv16, g: bool, mask: bv16)
    requires mask & 0x8000 != 0 && (Feed(a, f) ^ Feed(b, g)) & mask == 0
    ensures f == g
    ensures (a ^ b) & (mask << 1) == 0
  {
  }

  // Two shifts whose results differ only below bit j - 1, j <= 16, took the
  // same feedback, so the states before differed only below bit j.
  lemma {:induction false} ShiftsMeet(s: bv16, x: bool, t: bv16, y: bool, j: nat)
    requires 1 <= j <= 16 && (Shift(s, x) ^ Shift(t, y)) & Above(j - 1) == 0
    ensures (s ^ t) & Above(j) == 0
    ensures s == t ==> x == y
  {
    hide Above, Feed, Low;
    AboveStep(j);
    SameFeedback(s, Low(s) != x, t, Low(t) != y, Above(j - 1));
  }

  // Runs over at most 16 bits that meet started from states differing only in
  // that many low bits, and from one state only over the same bits.
  lemma {:induction false} RunsMeet(s: bv16, x: seq<bool>, t: bv16, y: seq<bool>)
    requires |x| == |y| <= 16 && Run(s, x) == Run(t, y)
    ensures (s ^ t) & Above(|x|) == 0
    ensures s == t ==> x == y
    decreases |x|
  {
    hide Above, Shift;
    if |x| > 0 {
      RunsMeet(Shift(s, x[0]), x[1..], Shift(t, y[0]), y[1..]);
      ShiftsMeet(s, x[0], t, y[0], |x|);
      if s == t {
        assert x == [x[0]] + x[1..] && y == [y[0]] + y[1..];
      }
    } else {
      SelfDifference(s, Above(0));
    }
  }

  lemma {:induction false} SelfDifference(s: bv16, mask: bv16)
    ensures (s ^ s) & mask == 0
  {
  }

  // The bits differ, and only within 16 consecutive positions from `at`.
  ghost predicate Burst(x: seq<bool>, y: seq<bool>, at: nat) {
    && |x| == |y| && x != y
    && forall i :: 0 <= i < |x| && x[i] != y[i] ==> at <= i < at + 16
  }

  lemma {:induction false} ThreeParts(x: seq<bool>, lo: nat, hi: nat)
    requires lo <= hi <= |x|
    ensures x == x[..lo] + (x[lo..hi] + x[hi..])
  {
  }

  // A burst never leaves the register unchanged.
  lemma {:induction false} BurstChangesRegister(r: bv16, x: seq<bool>, y: seq<bool>, at: nat)
    requires Burst(x, y, at) && |x| >= 16
    ensures Run(r, x) != Run(r, y)
  {
    var lo := if at + 16 <= |x| then at else |x| - 16;
    var hi := lo + 16;
    assert x[..lo] == y[..lo] && x[hi..] == y[hi..];
    ThreeParts(x, lo, hi);
    ThreeParts(y, lo, hi);
    var s := Run(r, x[..lo]);
    RunConcat(r, x[..lo], x[lo..hi] + x[hi..]);
    RunConcat(r, y[..lo], y[lo..hi] + y[hi..]);
    RunConcat(s, x[lo..hi], x[hi..]);
    RunConcat(s, y[lo..hi], y[hi..]);
    if Run(r, x) == Run(r, y) {
      RunInjective(Run(s, x[lo..hi]), Run(s, y[lo..hi]), x[hi..]);
      RunsMeet(s, x[lo..hi], s, y[lo..hi]);
      assert false;
    }
  }

  // ---- checked data ----

  // Data followed by its own checksum always brings the register to one value.
  ghost function Residue(): bv16 {
    Run(0xFFFF, seq(16, _ => false))
  }

  // One byte's worth of shifts.
  function Eight(r: bv16, b: seq<bool>): bv16
    requires |b| == 8
  {
    Shift(Shift(Shift(Shift(Shift(Shift(Shift(Shift(r, b[0]), b[1]), b[2]), b[3]), b[4]), b[5]), b[6]), b[7])
  }

  lemma {:induction false} RunEight(r: bv16, b: seq<bool>, rest: seq<bool>)
    requires |b| == 8
    ensures Run(r, b + rest) == Run(Eight(r, b), rest)
  {
    hide Shift;
    RunConcat(r, b, rest);
    assert b == [b[0], b[1], b[2], b[3], b[4], b[5], b[6], b[7]];
    RunList(r, b[0], b[1], b[2], b[3], b[4], b[5], b[6], b[7]);
  }

  lemma {:induction false} RunList(
    r: bv16, b0: bool, b1: bool, b2: bool, b3: bool, b4: bool, b5: bool, b6: bool, b7: bool)
    ensures Run(r, [b0, b1, b2, b3, b4, b5, b6, b7]) == Eight(r, [b0, b1, b2, b3, b4, b5, b6, b7])
  {
    hide Shift;
    RunFour(r, b0, b1, b2, b3);
    RunFour(Run(r, [b0, b1, b2, b3]), b4, b5, b6, b7);
    RunConcat(r, [b0, b1, b2, b3], [b4, b5, b6, b7]);
    assert [b0, b1, b2, b3] + [b4, b5, b6, b7] == [b0, b1, b2, b3, b4, b5, b6, b7];
  }

  lemma {:induction false} RunFour(r: bv16, b0: bool, b1: bool, b2: bool, b3: bool)
    ensures Run(r, [b0, b1, b2, b3]) == Shift(Shift(Shift(Shift(r, b0), b1), b2), b3)
  {
    hide Shift;
    RunOne(r, b0, [b1, b2, b3]);
    RunOne(Shift(r, b0), b1, [b2, b3]);
    RunOne(Shift(Shift(r, b0), b1), b2, [b3]);
    RunOne(Shift(Shift(Shift(r, b0), b1), b2), b3, []);
  }

  lemma {:induction false} RunOne(r: bv16, bit: bool, rest: seq<bool>)
    ensures Run(r, [bit] + rest) == Run(Shift(r, bit), rest)
    ensures Run(r, []) == r
  {
    hide Shift;
    assert ([bit] + rest)[1..] == rest;
  }

  // The residue is the "good FCS" of section C.2 of RFC 1662.
  lemma {:induction false} ResidueIsGoodFcs()
    ensures Residue() == 0xF0B8
  {
    hide Run;
    var zeros := seq(8, _ => false);
    assert seq(16, _ => false) == zeros + (zeros + []);
    RunEight(0xFFFF, zeros, zeros + []);
    RunEight(Eight(0xFFFF, zeros), zeros, []);
    RunOne(Eight(Eight(0xFFFF, zeros), zeros), false, []);
  }

  // Start value and final complement cancel over no data.
  lemma {:induction false} ChecksumOfNothing()
    ensures ChecksumBytes([]) == [0, 0]
  {
    assert ChecksumBits([]) == seq(16, _ => false);
    assert BitsOf(0, 8) == seq(8, _ => false);
    ValueOfBits(0, 8);
    assert ChecksumBits([])[..8] == BitsOf(0, 8) && ChecksumBits([])[8..] == BitsOf(0, 8);
  }

  predicate Checks(data: seq<Byte>, crc: seq<Byte>) {
    crc == ChecksumBytes(data)
  }

  predicate Differ(r: bv16, q: bv16, d: bv16) {
    d == r ^ q
  }

  // Only bits below bit n are set in d.
  predicate Below(d: bv16, n: nat)
    requires n <= 16
  {
    d & Above(n) == 0
  }

  function Half(d: bv16): bv16 {
    d >> 1
  }

  // Feeding the complement of the register itself is feeding zeros to all ones.
  lemma {:induction false} ChecksumEndsAtResidue(data: seq<Byte>)
    ensures Run(Run(INIT, Bits(data)), ChecksumBits(data)) == Residue()
  {
    hide Run, RegisterBits, Differ, Below;
    var r := Run(INIT, Bits(data));
    ComplementDiffers(r);
    ComplementRun(r, ChecksumBits(data), 0xFFFF, seq(16, _ => false), r ^ 0xFFFF);
  }

  lemma {:induction false} ComplementDiffers(r: bv16)
    ensures Differ(r, 0xFFFF, r ^ 0xFFFF) && Below(r ^ 0xFFFF, 16)
  {
  }

  // Registers and inputs that differ by the same bits shift to the same state.
  lemma {:induction false} ComplementRun(r: bv16, bits: seq<bool>, q: bv16, zeros: seq<bool>, d: bv16)
    requires |bits| == |zeros| <= 16 && Differ(r, q, d) && Below(d, |bits|)
    requires forall i :: 0 <= i < |bits| ==> (bits[i] != zeros[i]) == RegisterBits(d)[i]
    ensures Run(r, bits) == Run(q, zeros)
    decreases |bits|
  {
    hide Shift, RegisterBits, Differ, Below, Half, Low;
    if |bits| > 0 {
      LowRegisterBit(d);
      ShiftDifference(r, bits[0], q, zeros[0], d);
      DifferenceShrinks(d, |bits|);
      RegisterBitsOfHalf(d);
      forall i | 0 <= i < |bits| - 1
        ensures (bits[1..][i] != zeros[1..][i]) == RegisterBits(Half(d))[i]
      {
        assert RegisterBits(Half(d))[..15][i] == RegisterBits(d)[1..][i];
        assert (bits[i + 1] != zeros[i + 1]) == RegisterBits(d)[i + 1];
      }
      ComplementRun(Shift(r, bits[0]), bits[1..], Shift(q, zeros[0]), zeros[1..], Half(d));
    } else {
      NoDifference(r, q, d);
    }
  }

  lemma {:induction false} NoDifference(r: bv16, q: bv16, d: bv16)
    requires Differ(r, q, d) && Below(d, 0)
    ensures r == q
  {
  }

  lemma {:induction false} LowRegisterBit(d: bv16)
    ensures RegisterBits(d)[0] == Low(d)
  {
  }

  lemma {:induction false} RegisterBitsOfHalf(d: bv16)
    ensures RegisterBits(Half(d))[..15] == RegisterBits(d)[1..]
  {
  }

  lemma {:induction false} ShiftDifference(r: bv16, x: bool, q: bv16, y: bool, d: bv16)
    requires Differ(r, q, d) && (x != y) == Low(d)
    ensures Differ(Shift(r, x), Shift(q, y), Half(d))
  {
    hide Feed, Differ, Half, Low;
    LowDifference(r, q, d);
    FeedDifference(r, Low(r) != x, q, d);
  }

  lemma {:induction false} LowDifference(r: bv16, q: bv16, d: bv16)
    requires Differ(r, q, d)
    ensures Low(d) == (Low(r) != Low(q))
  {
  }

  lemma {:induction false} FedXor(r: bv16, q: bv16)
    ensures Feed(r, true) ^ Feed(q, true) == (r ^ q) >> 1
    ensures Feed(r, false) ^ Feed(q, false) == (r ^ q) >> 1
  {
  }

  lemma {:induction false} FeedDifference(r: bv16, feedback: bool, q: bv16, d: bv16)
    requires Differ(r, q, d)
    ensures Differ(Feed(r, feedback), Feed(q, feedback), Half(d))
  {
    hide Feed;
    FedXor(r, q);
  }

  lemma {:induction false} DifferenceShrinks(d: bv16, n: nat)
    requires 1 <= n <= 16 && Below(d, n)
    ensures Below(Half(d), n - 1)
  {
    match n
    case 1 => case 2 => case 3 => case 4 => case 5 => case 6 => case 7 => case 8 =>
    case 9 => case 10 => case 11 => case 12 => case 13 => case 14 => case 15 => case 16 =>
  }

  // The received bytes check exactly when the register ends at the residue.
  lemma {:induction false} ChecksIffResidue(data: seq<Byte>, crc: seq<Byte>)
    requires |crc| == 2
    ensures Checks(data, crc) <==> Run(INIT, Bits(data + crc)) == Residue()
  {
    hide Shift, RegisterBits, Above;
    hide Run, ChecksumBits, Residue;
    var r := Run(INIT, Bits(data));
    BitsOfConcat(data, crc);
    RunConcat(INIT, Bits(data), Bits(crc));
    ChecksumBytesBits(data);
    ChecksumEndsAtResidue(data);
    if Run(INIT, Bits(data + crc)) == Residue() {
      RunsMeet(r, Bits(crc), r, ChecksumBits(data));
      BitsInjective(crc, ChecksumBytes(data));
    }
  }

  // Main result: a burst of at most 16 bits anywhere in checked data and its
  // checksum is detected, whatever the length.
  lemma {:induction false} BurstIsDetected(data: seq<Byte>, crc: seq<Byte>, data': seq<Byte>, crc': seq<Byte>, at: nat)
    requires |crc| == |crc'| == 2 && |data| == |data'|
    requires Checks(data, crc)
    requires Burst(Bits(data + crc), Bits(data' + crc'), at)
    ensures !Checks(data', crc')
  {
    ChecksIffResidue(data, crc);
    ChecksIffResidue(data', crc');
    BurstChangesRegister(INIT, Bits(data + crc), Bits(data' + crc'), at);
  }
}
