/** Ownership bit vectors of rCanary: the integer tricks by which one bit of a vector is
    read, replaced or cleared. Bit i of a vector is element i. */
module BitVectors {
  import opened Wrappers

  type Bits = seq<bool>

  const U64_LIMIT := 0x1_0000_0000_0000_0000

  function Pow2(n: nat): (r: nat)
    ensures r > 0
  {
    if n == 0 then 1 else 2 * Pow2(n - 1)
  }

  /** The number whose binary digits are `b`. */
  function Value(b: Bits): (r: nat)
    decreases |b|
  {
    if b == [] then 0 else (if b[0] then 1 else 0) + 2 * Value(b[1..])
  }

  // ---------------------------------------------------------------- solver operations

  function Zeros(n: nat): (b: Bits) {
    seq(n, i => false)
  }

  /** A numeral of the given width; higher digits are cut off. */
  function FromU64(x: nat, width: nat): (b: Bits)
    ensures |b| == width
    decreases width
  {
    if width == 0 then [] else [x % 2 == 1] + FromU64(x / 2, width - 1)
  }

  function Extract(b: Bits, high: nat, low: nat): (r: Bits)
    requires low <= high < |b|
  {
    b[low..high + 1]
  }

  /** The first operand gives the high bits. */
  function Concat(high: Bits, low: Bits): (r: Bits) {
    low + high
  }

  function And(a: Bits, b: Bits): (r: Bits)
    requires |a| == |b|
  {
    seq(|a|, i requires 0 <= i < |a| => a[i] && b[i])
  }

  // ---------------------------------------------------------------- integers

  lemma {:induction false} ValueBound(b: Bits)
    ensures Value(b) < Pow2(|b|)
    decreases |b|
  {
    if b != [] {
      ValueBound(b[1..]);
    }
  }

  lemma {:induction false} ValuePush(b: Bits, x: bool)
    ensures Value(b + [x]) == Value(b) + (if x then Pow2(|b|) else 0)
    decreases |b|
  {
    if b != [] {
      assert (b + [x])[1..] == b[1..] + [x];
      ValuePush(b[1..], x);
    }
  }

  /** Reading a vector back from its number. */
  lemma {:induction false} ValueRoundTrip(b: Bits)
    ensures FromU64(Value(b), |b|) == b
    decreases |b|
  {
    if b != [] {
      ValueRoundTrip(b[1..]);
      assert Value(b) / 2 == Value(b[1..]);
      assert Value(b) % 2 == if b[0] then 1 else 0;
    }
  }

  /** A numeral of a shorter vector has zeros above it. */
  lemma {:induction false} ValuePadded(b: Bits, width: nat)
    requires |b| <= width
    ensures FromU64(Value(b), width) == b + Zeros(width - |b|)
    decreases width
  {
    if b == [] {
      ZeroNumeral(width);
    } else {
      ValuePadded(b[1..], width - 1);
      assert Value(b) / 2 == Value(b[1..]);
      assert Value(b) % 2 == if b[0] then 1 else 0;
    }
  }

  /** Bit `i` of a numeral, whatever its width: the vector's own bit, or zero above it. */
  lemma {:induction false} NumeralBit(b: Bits, width: nat, i: nat)
    requires i < width
    ensures FromU64(Value(b), width)[i] == (i < |b| && b[i])
    decreases i
  {
    if b == [] {
      ZeroNumeral(width);
    } else {
      assert Value(b) / 2 == Value(b[1..]);
      assert Value(b) % 2 == if b[0] then 1 else 0;
      if i > 0 {
        NumeralBit(b[1..], width - 1, i - 1);
      }
    }
  }

  lemma {:induction false} ZeroNumeral(width: nat)
    ensures FromU64(0, width) == Zeros(width)
    decreases width
  {
    if width > 0 {
      ZeroNumeral(width - 1);
      assert FromU64(0, width) == [false] + Zeros(width - 1);
    }
  }

  /** Digit `i` of the number is bit `i`, as division and remainder read it. */
  lemma {:induction false} ValueDigit(b: Bits, i: nat)
    requires i < |b|
    ensures Value(b) / Pow2(i) % 2 == if b[i] then 1 else 0
    decreases i
  {
    if i > 0 {
      ValueDigit(b[1..], i - 1);
      assert Value(b) / 2 == Value(b[1..]);
      DivideTwice(Value(b), Pow2(i - 1));
    }
  }

  lemma DivideTwice(x: nat, k: nat)
    requires k > 0
    ensures x / (2 * k) == (x / 2) / k
  {
    var q, r := (x / 2) / k, (x / 2) % k;
    assert x / 2 == q * k + r;
    var y := x - q * (2 * k);
    assert y == 2 * r + x % 2;
    assert 0 <= y < 2 * k;
    QuotientUnique(x, 2 * k, q, y);
  }

  lemma QuotientUnique(x: nat, d: nat, q: nat, y: nat)
    requires d > 0 && x == q * d + y && y < d
    ensures x / d == q
  {
    var p, m := x / d, x % d;
    SmallMultiple(p - q, d, y - m);
  }

  lemma SmallMultiple(k: int, d: int, y: int)
    requires d > 0 && k * d == y && -d < y < d
    ensures k == 0
  {
    if k > 0 {
      MultipleAtLeast(k, d);
    } else if k < 0 {
      assert (-k) * d == -(k * d);
      MultipleAtLeast(-k, d);
    }
  }

  lemma {:induction false} MultipleAtLeast(k: int, d: int)
    requires k >= 1 && d > 0
    ensures k * d >= d
    decreases k
  {
    if k > 1 {
      MultipleAtLeast(k - 1, d);
      assert k * d == (k - 1) * d + d;
    }
  }

  /** `rustbv_to_int` in checked 64-bit arithmetic; `None` stands for the overflow panic. */
  method RustBvToInt(bv: Bits) returns (r: Option<nat>)
    ensures r == if |bv| <= 63 then Some(Value(bv)) else None
    ensures r.Some? ==> r.value < U64_LIMIT
  {
    var ans, base := 0, 1;
    Pow2At64();
    for k := 0 to |bv|
      invariant ans == Value(bv[..k]) && base == Pow2(k) && k <= 63
    {
      assert bv[..k + 1] == bv[..k] + [bv[k]];
      ValuePush(bv[..k], bv[k]);
      ValueBound(bv[..k]);
      PowersBelow(k, 63);
      if ans + base * (if bv[k] then 1 else 0) >= U64_LIMIT {
        assert false;  // the sum stays below twice the base
        return None;
      }
      ans := ans + base * (if bv[k] then 1 else 0);
      if base * 2 >= U64_LIMIT {
        PowersBelow(k, 62);
        return None;
      }
      base := base * 2;
      if k == 63 {
        assert false;  // 2 * 2^63 does not fit
      }
    }
    assert bv[..|bv|] == bv;
    ValueBound(bv);
    PowersBelow(|bv|, 63);
    r := Some(ans);
  }

  lemma Pow2At64()
    ensures Pow2(62) * 2 == Pow2(63) && Pow2(63) * 2 == U64_LIMIT == Pow2(64)
  {
    assert Pow2(8) == 256;
    PowersAdd(8, 8);
    assert Pow2(16) == 0x1_0000;
    PowersAdd(16, 16);
    assert Pow2(32) == 0x1_0000_0000;
    PowersAdd(32, 32);
  }

  lemma {:induction false} PowersAdd(a: nat, b: nat)
    ensures Pow2(a + b) == Pow2(a) * Pow2(b)
    decreases a
  {
    if a > 0 {
      PowersAdd(a - 1, b);
    }
  }

  lemma {:induction false} PowersBelow(a: nat, b: nat)
    ensures a <= b ==> Pow2(a) <= Pow2(b)
    decreases b
  {
    if a < b {
      PowersBelow(a, b - 1);
    }
  }

  // ---------------------------------------------------------------- one bit of a vector

  /** The mask by which the field handlers clear one bit; `None` is the overflow panic. */
  method ClearMask(width: nat, index: nat) returns (mask: Option<Bits>)
    requires index < width
    ensures mask.Some? <==> width <= 63
    ensures mask.Some? ==> |mask.value| == width && forall b: Bits :: |b| == width ==>
              And(b, mask.value) == b[index := false]
  {
    var pattern: Bits := seq(width, i => true)[index := false];
    var n := RustBvToInt(pattern);
    if n == None {
      return None;
    }
    ValueRoundTrip(pattern);
    mask := Some(FromU64(n.value, width));
  }

  // ---------------------------------------------------------------- layouts

  datatype Owner = Uninit | Unowned | Owned

  /** `ownership_layout_to_rustbv`: an uninitialised item is reported and leaves no bit. */
  function LayoutBits(layout: seq<Owner>): (b: Bits)
    decreases |layout|
  {
    if layout == [] then []
    else (match layout[0]
          case Uninit => []
          case Unowned => [false]
          case Owned => [true]) + LayoutBits(layout[1..])
  }

  /** `reverse_ownership_layout_to_rustbv`. */
  function ReverseBits(layout: seq<Owner>): (b: Bits)
    decreases |layout|
  {
    if layout == [] then []
    else (match layout[0]
          case Uninit => []
          case Unowned => [true]
          case Owned => [false]) + ReverseBits(layout[1..])
  }

  /** Bits and layout items correspond exactly when no item is uninitialised. */
  lemma {:induction false} LayoutAligned(layout: seq<Owner>)
    ensures |LayoutBits(layout)| == |ReverseBits(layout)| <= |layout|
    ensures |LayoutBits(layout)| == |layout| <==> forall i :: 0 <= i < |layout| ==> layout[i] != Uninit
    ensures (forall i :: 0 <= i < |layout| ==> layout[i] != Uninit) ==>
              forall i :: 0 <= i < |layout| ==>
                LayoutBits(layout)[i] == (layout[i] == Owned) && ReverseBits(layout)[i] == (layout[i] == Unowned)
    decreases |layout|
  {
    if layout != [] {
      var rest := layout[1..];
      LayoutAligned(rest);
      assert forall i :: 1 <= i < |layout| ==> layout[i] == rest[i - 1];
      if forall i :: 0 <= i < |rest| ==> rest[i] != Uninit {
        assert layout[0] != Uninit ==> forall i :: 0 <= i < |layout| ==> layout[i] != Uninit;
      }
    }
  }

  // ---------------------------------------------------------------- counting bits

  /** The number of set bits. */
  function Ones(b: Bits): (n: nat)
    ensures n <= |b|
    decreases |b|
  {
    if b == [] then 0 else (if b[0] then 1 else 0) + Ones(b[1..])
  }

  lemma {:induction false} OnesZero(b: Bits)
    ensures Ones(b) == 0 <==> b == Zeros(|b|)
    decreases |b|
  {
    if b != [] {
      OnesZero(b[1..]);
      assert Zeros(|b|)[1..] == Zeros(|b| - 1);
      assert b == [b[0]] + b[1..];
      assert Zeros(|b|) == [false] + Zeros(|b| - 1);
    }
  }

  /** Replacing a bit changes the count by the difference of the two bits. */
  lemma {:induction false} OnesUpdate(b: Bits, i: nat, x: bool)
    requires i < |b|
    ensures Ones(b[i := x]) + (if b[i] then 1 else 0) == Ones(b) + (if x then 1 else 0)
    decreases i
  {
    var c := b[i := x];
    if i == 0 {
      assert c[1..] == b[1..];
    } else {
      assert c[1..] == b[1..][i - 1 := x];
      OnesUpdate(b[1..], i - 1, x);
    }
  }

  lemma {:induction false} OnesAppend(b: Bits, c: Bits)
    ensures Ones(b + c) == Ones(b) + Ones(c)
    decreases |b|
  {
    if b == [] {
      assert b + c == c;
    } else {
      assert (b + c)[1..] == b[1..] + c;
      OnesAppend(b[1..], c);
    }
  }

  lemma {:induction false} OnesMonotone(b: Bits, c: Bits)
    requires |b| == |c| && forall i :: 0 <= i < |b| && b[i] ==> c[i]
    ensures Ones(b) <= Ones(c)
    decreases |b|
  {
    if b != [] {
      OnesMonotone(b[1..], c[1..]);
    }
  }
}
