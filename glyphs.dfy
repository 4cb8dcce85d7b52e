/**
 * The on-screen counters: the number of pictures (`Count2D`) and the frame
 * number (`Frame2D`). Each shows a byte as one to three digit glyphs, one
 * slot per digit; the slots are rebuilt only when the number of digits
 * changes. A slot is modelled by the digit its glyph shows; positions,
 * scales and textures are not part of the model.
 */
module Glyphs {

  import opened Pictures

  /** Decimal digit `k` of `n`, counted from the units. */
  function DigitAt(n: nat, k: nat): (d: nat)
    ensures d < 10
  {
    (n / Pow10(k)) % 10
  }

  function Pow10(k: nat): (p: nat)
    ensures p >= 1
  {
    if k == 0 then 1 else 10 * Pow10(k - 1)
  }

  /** The number the digits show, most significant first. */
  function Value(ds: seq<int>): int
  {
    if ds == [] then 0 else Value(ds[..|ds| - 1]) * 10 + ds[|ds| - 1]
  }

  /** The digits of `n` on `count` slots, most significant first: the last slot holds the units. */
  function Digits(n: nat, count: nat): (ds: seq<int>)
    ensures |ds| == count
    ensures forall i :: 0 <= i < count ==> ds[i] == DigitAt(n, count - 1 - i)
  {
    seq(count, i requires 0 <= i < count => DigitAt(n, count - 1 - i))
  }

  /** A positive multiple of `d` is at least `d`. */
  lemma {:induction false} MulAtLeast(d: int, m: int)
    requires d > 0 && m >= 1
    ensures d * m >= d
    decreases m
  {
    if m > 1 {
      MulAtLeast(d, m - 1);
      assert d * m == d * (m - 1) + d;
    }
  }

  /** `x` split as `d * q + r` with `0 <= r < d` gives its quotient and remainder. */
  lemma DivModOf(x: int, d: int, q: int, r: int)
    requires d > 0 && x == d * q + r && 0 <= r < d
    ensures x / d == q && x % d == r
  {
    var q', r' := x / d, x % d;
    assert d * (q' - q) == r - r' by {
      assert d * q' + r' == d * q + r;
      assert d * (q' - q) == d * q' - d * q;
    }
    if q' > q {
      MulAtLeast(d, q' - q);
    } else if q' < q {
      MulAtLeast(d, q - q');
    }
  }

  /** A byte is its hundreds, tens and units digits. */
  lemma Places(n: nat)
    requires n < 256
    ensures n == 100 * DigitAt(n, 2) + 10 * DigitAt(n, 1) + DigitAt(n, 0)
    ensures DigitAt(n, 2) <= 2
    ensures n < 100 ==> DigitAt(n, 2) == 0
    ensures n < 10 ==> DigitAt(n, 1) == 0
  {
    assert Pow10(1) == 10 && Pow10(2) == 100;
    var a, b, c := n / 100, (n / 10) % 10, n % 10;
    DivModOf(n, 10, n / 10, c);
    DivModOf(n / 10, 10, (n / 10) / 10, b);
    DivModOf(n, 100, (n / 10) / 10, 10 * b + c);
    DivModOf(a, 10, 0, a);
  }

  /** Each digit is the count of its place in `n`: reading the slots back gives the byte shown. */
  lemma DigitsRoundTrip(n: nat)
    requires n < 256
    ensures Value(Digits(n, DigitCount(n))) == n
    ensures DigitCount(n) > 1 ==> Digits(n, DigitCount(n))[0] != 0
  {
    var ds := Digits(n, DigitCount(n));
    var a, b, c := DigitAt(n, 2), DigitAt(n, 1), DigitAt(n, 0);
    Places(n);
    if n < 10 {
      assert ds == [c];
      assert Value(ds) == Value([]) * 10 + c;
    } else if n < 100 {
      assert ds == [b, c];
      assert ds[..1] == [b];
      assert Value(ds[..1]) == Value([]) * 10 + b;
    } else {
      assert ds == [a, b, c];
      assert ds[..2] == [a, b];
      assert ds[..2][..1] == [a];
      assert Value(ds[..2][..1]) == Value([]) * 10 + a;
    }
  }

  /**
   * One step of the digit loop: with `m` = 10^k (k = 1 or 2, a byte has
   * at most three digits), removing the previous digit from `n` modulo
   * 10m and dividing by m gives digit k.
   */
  lemma DigitStep(n: nat, k: nat)
    requires n < 256 && 1 <= k <= 2
    ensures (n % Pow10(k + 1) - DigitAt(n, k - 1)) / Pow10(k) == DigitAt(n, k)
  {
    assert Pow10(1) == 10 && Pow10(2) == 100 && Pow10(3) == 1000;
    var a, b, c := DigitAt(n, 2), DigitAt(n, 1), DigitAt(n, 0);
    Places(n);
    if k == 1 {
      DivModOf(n, 100, a, 10 * b + c);
      DivModOf(10 * b, 10, b, 0);
    } else {
      DivModOf(n, 1000, 0, n);
      DivModOf(100 * a + 9 * b + c, 100, a, 9 * b + c);
    }
  }

  /**
   * The digit loop shared by both counters: from the last slot to the first,
   * `no` takes `n` modulo the running `modulo` minus the digit before, scaled
   * down once `modulo` is past 10.
   */
  method ShowDigits(slots: array<int>, n: int)
    requires 0 <= n < 256 && 1 <= slots.Length <= 3 && slots.Length >= DigitCount(n)
    modifies slots
    ensures slots[..] == Digits(n, slots.Length)
  {
    var count := slots.Length;
    var i := count - 1;
    var no := 0;
    var modulo := 10;
    while i != -1
      invariant -1 <= i < count
      invariant modulo == Pow10(count - i)
      invariant i < count - 1 ==> no == DigitAt(n, count - 2 - i)
      invariant i == count - 1 ==> no == 0
      invariant forall j :: i < j < count ==> slots[j] == DigitAt(n, count - 1 - j)
      decreases i
    {
      ghost var k := count - 1 - i;
      if k > 0 {
        DigitStep(n, k);
      } else {
        assert Pow10(1) == 10;
      }
      no := (n % modulo) - no;
      if modulo > 10 {
        no := no / (modulo / 10);
      }
      modulo := modulo * 10;
      slots[i] := no;
      i := i - 1;
    }
  }

  /** Frees the slots one by one, then the slot array when there was one: the counts freed are returned. */
  method DestroySlots(digitCount: nat) returns (freedSlots: nat, freedArray: bool)
    ensures freedSlots == digitCount && freedArray == (digitCount > 0)
  {
    freedSlots := 0;
    var i := 0;
    while i < digitCount
      invariant 0 <= i <= digitCount && freedSlots == i
    {
      freedSlots := freedSlots + 1;
      i := i + 1;
    }
    freedArray := digitCount > 0;
  }

  /** The number of pictures taken, as digit glyphs. */
  class Count2D {
    var digitCount: nat
    var slots: array<int>

    /** The slot array has one slot per digit. */
    predicate Valid()
      reads this
    {
      slots.Length == digitCount
    }

    constructor ()
      ensures Valid() && digitCount == 0
    {
      digitCount := 0;
      slots := new int[0];
    }

    /** Starts with one slot showing 1. */
    method Start()
      modifies this
      ensures Valid() && digitCount == 1 && slots[..] == [1] && fresh(slots)
    {
      digitCount := 1;
      slots := new int[1](_ => 1);
    }

    method Destroy() returns (freedSlots: nat, freedArray: bool)
      ensures freedSlots == digitCount && freedArray == (digitCount > 0)
    {
      freedSlots, freedArray := DestroySlots(digitCount);
    }

    /**
     * Shows `count`: the slots are rebuilt only when its number of digits
     * differs from the current one; slot i then shows digit i of `count`,
     * most significant first.
     */
    method SetCount(count: int)
      requires Valid() && 0 <= count < 256
      modifies this, slots
      ensures Valid() && digitCount == DigitCount(count)
      ensures old(digitCount) == DigitCount(count) ==> slots == old(slots)
      ensures old(digitCount) != DigitCount(count) ==> fresh(slots)
      ensures slots[..] == Digits(count, DigitCount(count)) && Value(slots[..]) == count
    {
      if DigitCount(count) != digitCount {
        var freedSlots, freedArray := Destroy();
        digitCount := DigitCount(count);
        slots := new int[digitCount];
      }
      ShowDigits(slots, count);
      DigitsRoundTrip(count);
    }
  }

  /** The frame number of the device, as digit glyphs after a `#`. */
  class Frame2D {
    var digitCount: nat
    var slots: array<int>

    /** The slot array has one slot per digit. */
    predicate Valid()
      reads this
    {
      slots.Length == digitCount
    }

    constructor ()
      ensures Valid() && digitCount == 0
    {
      digitCount := 0;
      slots := new int[0];
    }

    /** Starts with one slot showing 1. */
    method Start()
      modifies this
      ensures Valid() && digitCount == 1 && slots[..] == [1] && fresh(slots)
    {
      digitCount := 1;
      slots := new int[1](_ => 1);
    }

    method Destroy() returns (freedSlots: nat, freedArray: bool)
      ensures freedSlots == digitCount && freedArray == (digitCount > 0)
    {
      freedSlots, freedArray := DestroySlots(digitCount);
    }

    /**
     * Shows `frameNo`: the slots are rebuilt only when its number of digits
     * differs from the current one; slot i then shows digit i, most
     * significant first.
     */
    method SetFrameNo(frameNo: int)
      requires Valid() && 0 <= frameNo < 256
      modifies this, slots
      ensures Valid() && digitCount == DigitCount(frameNo)
      ensures old(digitCount) == DigitCount(frameNo) ==> slots == old(slots)
      ensures old(digitCount) != DigitCount(frameNo) ==> fresh(slots)
      ensures slots[..] == Digits(frameNo, DigitCount(frameNo)) && Value(slots[..]) == frameNo
    {
      if DigitCount(frameNo) != digitCount {
        var freedSlots, freedArray := Destroy();
        digitCount := DigitCount(frameNo);
        slots := new int[digitCount];
      }
      ShowDigits(slots, frameNo);
      DigitsRoundTrip(frameNo);
    }
  }
}
