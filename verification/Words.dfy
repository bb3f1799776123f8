// Bytes, 32-bit words and the bit algebra of flash memory.
//
// Words are integers with an explicit range, so 32-bit wrap-around is written
// out wherever the program can reach it. `And` is the bitwise conjunction of
// two naturals, by recursion on the low bit: programming flash can only clear
// bits, so a completed write of `data` over `old` leaves `And(old, data)`.
module Words {
  datatype Option<+T> = None | Some(value: T)

  type Byte = x: int | 0 <= x < 0x100
  type Word = x: int | 0 <= x < WORD_LIMIT

  const WORD_LIMIT := 0x1_0000_0000

  // An erased flash word: every bit set.
  const ERASED: Word := 0xFFFF_FFFF

  function And(a: nat, b: nat): (r: nat)
    ensures r <= a && r <= b
    decreases a, b
  {
    if a == 0 then 0
    else 2 * And(a / 2, b / 2) + (if a % 2 == 1 && b % 2 == 1 then 1 else 0)
  }

  // 2^n - 1, the natural with the lowest n bits set.
  function Ones(n: nat): nat {
    if n == 0 then 0 else 2 * Ones(n - 1) + 1
  }

  // Every bit set in a is set in b.
  predicate Within(a: nat, b: nat) {
    And(a, b) == a
  }

  lemma {:induction false} AndCommutes(a: nat, b: nat)
    ensures And(a, b) == And(b, a)
  {
    if a == 0 {
      assert And(b, a) <= 0;
    } else if b == 0 {
      assert And(a, b) <= 0;
    } else {
      AndCommutes(a / 2, b / 2);
    }
  }

  lemma {:induction false} AndIdempotent(a: nat)
    ensures And(a, a) == a
  {
    if a == 0 {
    } else {
      AndIdempotent(a / 2);
    }
  }

  lemma {:induction false} AndOnes(n: nat, a: nat)
    requires a <= Ones(n)
    ensures And(Ones(n), a) == a
  {
    if n == 0 {
    } else {
      AndOnes(n - 1, a / 2);
    }
  }

  lemma {:induction false} ErasedIsOnes()
    ensures Ones(32) == ERASED
  {
    assert Ones(8) == 0xFF;
    assert Ones(16) == 0xFFFF;
    assert Ones(24) == 0xFF_FFFF;
  }

  // Writing into an erased word stores exactly the data.
  lemma {:induction false} WriteErased(w: Word)
    ensures And(ERASED, w) == w
    ensures Within(w, ERASED)
  {
    ErasedIsOnes();
    AndOnes(32, w);
    AndCommutes(w, ERASED);
  }

  // A word can take the data exactly when it still has every bit of it.
  lemma {:induction false} WriteOver(stored: nat, data: nat)
    ensures And(stored, data) == data <==> Within(data, stored)
    ensures Within(data, stored) ==> data <= stored
  {
    AndCommutes(stored, data);
  }

  // Whatever was stored, a write leaves no bit the data does not have.
  lemma {:induction false} WriteStaysWithin(stored: nat, data: nat)
    ensures Within(And(stored, data), data)
    decreases stored
  {
    if stored == 0 {
      assert And(stored, data) == 0;
    } else {
      WriteStaysWithin(stored / 2, data / 2);
    }
  }

  function FromLe16(b0: Byte, b1: Byte): (r: nat)
    ensures r < 0x1_0000
  {
    b0 + 0x100 * b1
  }

  // The n low bytes of a value, lowest first.
  function LowBytes(v: nat, n: nat): (b: seq<Byte>)
    ensures |b| == n
    decreases v, n
  {
    if n == 0 then [] else [v % 0x100] + LowBytes(v / 0x100, n - 1)
  }

  lemma {:induction false} TwoLowBytes(v: nat)
    requires v < 0x1_0000
    ensures LowBytes(v, 2) == [v % 0x100, v / 0x100]
  {
    assert LowBytes(v / 0x100, 1) == [v / 0x100 % 0x100] + LowBytes(v / 0x100 / 0x100, 0);
  }

  lemma {:induction false} FourLowBytes(w: Word)
    ensures LowBytes(w, 4) == LowBytes(w % 0x1_0000, 2) + LowBytes(w / 0x1_0000, 2)
  {
    var low, high := w % 0x1_0000, w / 0x1_0000;
    TwoLowBytes(low);
    assert w / 0x100 / 0x100 == high && w % 0x100 == low % 0x100 && w / 0x100 % 0x100 == low / 0x100;
    assert LowBytes(w, 4) == [w % 0x100] + LowBytes(w / 0x100, 3);
    assert LowBytes(w / 0x100, 3) == [w / 0x100 % 0x100] + LowBytes(high, 2);
  }

  function ToLe16(v: nat): (b: seq<Byte>)
    requires v < 0x1_0000
    ensures |b| == 2
    ensures FromLe16(b[0], b[1]) == v
  {
    TwoLowBytes(v);
    LowBytes(v, 2)
  }

  // The little-endian bytes of a value are the only bytes that read as it.
  lemma {:induction false} Le16Injective(b0: Byte, b1: Byte)
    ensures ToLe16(FromLe16(b0, b1)) == [b0, b1]
  {
    TwoLowBytes(FromLe16(b0, b1));
    assert FromLe16(b0, b1) / 0x100 == b1;
  }

  function FromLe32(b0: Byte, b1: Byte, b2: Byte, b3: Byte): Word {
    FromLe16(b0, b1) + 0x1_0000 * FromLe16(b2, b3)
  }

  function ToLe32(w: Word): (b: seq<Byte>)
    ensures |b| == 4
    ensures FromLe32(b[0], b[1], b[2], b[3]) == w
  {
    FourLowBytes(w);
    TwoLowBytes(w % 0x1_0000);
    TwoLowBytes(w / 0x1_0000);
    LowBytes(w, 4)
  }

  // Low byte first.
  lemma {:induction false} GoldenWord()
    ensures ToLe32(0x0403_0201) == [1, 2, 3, 4]
  {
    Le32Injective(1, 2, 3, 4);
  }

  lemma {:induction false} Le32Injective(b0: Byte, b1: Byte, b2: Byte, b3: Byte)
    ensures ToLe32(FromLe32(b0, b1, b2, b3)) == [b0, b1, b2, b3]
  {
    var w := FromLe32(b0, b1, b2, b3);
    FourLowBytes(w);
    assert w / 0x1_0000 == FromLe16(b2, b3) && w % 0x1_0000 == FromLe16(b0, b1);
    Le16Injective(b0, b1);
    Le16Injective(b2, b3);
  }

  // `s` with `data` written over it from `at` on.
  function Spliced(s: seq<Byte>, at: nat, data: seq<Byte>): (r: seq<Byte>)
    requires at + |data| <= |s|
    ensures |r| == |s|
  {
    s[..at] + data + s[at + |data|..]
  }

  // The data stands at its place, and everything else as it was.
  lemma {:induction false} SplicedExactly(s: seq<Byte>, at: nat, data: seq<Byte>, i: nat)
    requires at + |data| <= |s| && i < |s|
    ensures Spliced(s, at, data)[i] == if at <= i < at + |data| then data[i - at] else s[i]
  {
  }

  lemma {:induction false} SplicesJoin(s: seq<Byte>, at: nat, a: seq<Byte>, b: seq<Byte>)
    requires at + |a| + |b| <= |s|
    ensures Spliced(Spliced(s, at, a), at + |a|, b) == Spliced(s, at, a + b)
  {
  }

  lemma {:induction false} SpliceCovers(s: seq<Byte>, at: nat, a: seq<Byte>, b: seq<Byte>)
    requires at + |b| <= |s| && |a| <= |b|
    ensures Spliced(Spliced(s, at, a), at, b) == Spliced(s, at, b)
  {
  }

  method CopyInto(out: array<Byte>, at: nat, data: seq<Byte>)
    requires at + |data| <= out.Length
    modifies out
    ensures out[..] == Spliced(old(out[..]), at, data)
  {
    forall i | 0 <= i < |data| {
      out[at + i] := data[i];
    }
  }

  // A subset is no larger.
  lemma {:induction false} Smaller<T>(a: set<T>, b: set<T>)
    requires a <= b
    ensures |a| <= |b|
    decreases a
  {
    if x :| x in a {
      Smaller(a - {x}, b - {x});
    }
  }
}
