/** Size classes of the second slab allocator: rounding a request up to a power of two by smearing bits,
    and choosing a buffer.  Words are natural numbers below 2^64, with the bit operations spelled out. */
module SizeClasses {
  import opened Options
  import opened WordMemory

  const WORD_BITS: nat := 64

  // ---------------------------------------------------------------- bits of a natural number

  function Pow2(k: nat): (p: nat)
    ensures p > 0
  {
    if k == 0 then 1 else 2 * Pow2(k - 1)
  }

  /** Bitwise or. */
  function Or(a: nat, b: nat): nat {
    if a == 0 then b
    else if b == 0 then a
    else 2 * Or(a / 2, b / 2) + if a % 2 == 1 || b % 2 == 1 then 1 else 0
  }

  /** Shift right. */
  function Shr(a: nat, k: nat): nat
    decreases k
  {
    if k == 0 then a else Shr(a / 2, k - 1)
  }

  /** The number of bits up to and including the highest set bit. */
  function Len(a: nat): nat {
    if a == 0 then 0 else 1 + Len(a / 2)
  }

  /** `m` set bits. */
  function Ones(m: nat): nat {
    if m == 0 then 0 else 2 * Ones(m - 1) + 1
  }

  // ---------------------------------------------------------------- rounding up

  method NbytesToPow2(n: nat) returns (nbytes: nat)
    requires n < Pow2(WORD_BITS)
    ensures nbytes == RoundUp(n)
  {
    hide Or, Shr, Len, TopOnes;
    nbytes := Decrement(n);
    ghost var x := nbytes;
    Length(x, WORD_BITS);
    TopOnesOne(x);
    SmearStep(x, nbytes, 1);
    nbytes := Or(nbytes, Shr(nbytes, 1));
    SmearStep(x, nbytes, 2);
    nbytes := Or(nbytes, Shr(nbytes, 2));
    SmearStep(x, nbytes, 4);
    nbytes := Or(nbytes, Shr(nbytes, 4));
    SmearStep(x, nbytes, 8);
    nbytes := Or(nbytes, Shr(nbytes, 8));
    SmearStep(x, nbytes, 16);
    nbytes := Or(nbytes, Shr(nbytes, 16));
    SmearStep(x, nbytes, 32);
    nbytes := Or(nbytes, Shr(nbytes, 32));
    assert nbytes == Ones(Len(x)) by { AllOnes(x, nbytes, WORD_BITS); }
    OnesIs(Len(x));
    nbytes := Increment(nbytes);
  }

  /** 64-bit increment. */
  function Increment(a: nat): nat {
    if a + 1 == Pow2(WORD_BITS) then 0 else a + 1
  }

  /** 64-bit decrement. */
  function Decrement(a: nat): nat {
    if a == 0 then Pow2(WORD_BITS) - 1 else a - 1
  }

  /** What the smearing computes: the power of two just above `n - 1`, in 64-bit arithmetic. */
  function RoundUp(n: nat): nat {
    Increment(Pow2(Len(Decrement(n))) - 1)
  }

  /** `y` is as long as `x`, and its highest `m` bits (or all of them, if it has fewer) are set. */
  ghost predicate TopOnes(x: nat, y: nat, m: nat) {
    var l := Len(x);
    if m <= l then Shr(y, l - m) == Ones(m) else y == Ones(l)
  }

  lemma AllOnes(x: nat, y: nat, m: nat)
    requires TopOnes(x, y, m) && Len(x) <= m
    ensures y == Ones(Len(x))
  {
  }

  lemma {:induction false} TopOnesOne(x: nat)
    ensures TopOnes(x, x, 1)
  {
    if x == 0 {
      assert Len(x) == 0 && Ones(0) == 0;
    } else if x == 1 {
      assert Len(1) == 1 && Shr(1, 0) == 1 && Ones(1) == 1;
    } else {
      TopOnesOne(x / 2);
      var l := Len(x / 2);
      assert Len(x) == l + 1 && l > 0;
      assert Shr(x, l) == Shr(x / 2, l - 1);
    }
  }

  /** Or-ing a word with itself shifted by `k` doubles the run of set bits at its top. */
  lemma SmearStep(x: nat, y: nat, k: nat)
    requires k > 0 && TopOnes(x, y, k)
    ensures TopOnes(x, Or(y, Shr(y, k)), 2 * k)
  {
    hide Or, Shr, Len, Ones;
    var l := Len(x);
    if 2 * k <= l {
      var j := l - 2 * k;
      ShrOr(y, Shr(y, k), j);
      ShrShr(y, k, j);
      ShrShr(y, j, k);
      OrFill(Shr(y, j), k, k);
    } else if k <= l {
      ShrShr(y, l - k, 2 * k - l);
      ShrOnes(k, 2 * k - l);
      OrFill(y, k, l - k);
    } else {
      ShrOnes(l, k);
      OrZero(y);
    }
  }

  lemma OrZero(a: nat)
    ensures Or(a, 0) == a && Ones(0) == 0
  {
  }

  lemma {:induction false} ShrOr(a: nat, b: nat, j: nat)
    ensures Shr(Or(a, b), j) == Or(Shr(a, j), Shr(b, j))
    decreases j
  {
    if j == 0 {
    } else {
      ShrOr(a / 2, b / 2, j - 1);
      if a == 0 { ShrZero(j); } else if b == 0 { ShrZero(j); }
    }
  }

  lemma {:induction false} ShrZero(j: nat)
    ensures Shr(0, j) == 0
  {
    if j == 0 {
    } else {
      ShrZero(j - 1);
    }
  }

  lemma {:induction false} ShrShr(a: nat, j: nat, k: nat)
    ensures Shr(Shr(a, j), k) == Shr(a, j + k)
    decreases j
  {
    if j == 0 {
    } else {
      ShrShr(a / 2, j - 1, k);
    }
  }

  lemma {:induction false} ShrOnes(m: nat, k: nat)
    ensures Shr(Ones(m), k) == if k <= m then Ones(m - k) else 0
    decreases k
  {
    if m == 0 {
      ShrZero(k);
    } else if k > 0 {
      ShrOnes(m - 1, k - 1);
    }
  }

  /** Ones below ones give more ones. */
  lemma {:induction false} OrFill(u: nat, k: nat, m: nat)
    requires Shr(u, m) == Ones(k)
    ensures Or(u, Ones(m)) == Ones(k + m)
    decreases m
  {
    if m == 0 {
      OrZero(u);
    } else {
      OrFill(u / 2, k, m - 1);
      assert Ones(m) / 2 == Ones(m - 1) && Ones(m) % 2 == 1;
      assert Ones(k + m) == 2 * Ones(k + m - 1) + 1;
      if u == 0 {
        ShrZero(m);
        assert Ones(k) == 0 && k == 0;
      } else {
        assert Or(u, Ones(m)) == 2 * Or(u / 2, Ones(m - 1)) + 1;
      }
    }
  }

  lemma {:induction false} OnesIs(m: nat)
    ensures Ones(m) == Pow2(m) - 1
  {
    if m == 0 {
    } else {
      OnesIs(m - 1);
    }
  }

  lemma {:induction false} Length(x: nat, k: nat)
    ensures x < Pow2(k) <==> Len(x) <= k
  {
    if x == 0 || k == 0 {
    } else {
      Length(x / 2, k - 1);
    }
  }

  // ---------------------------------------------------------------- the least power of two

  ghost predicate IsPow2(p: nat) {
    exists k: nat :: p == Pow2(k)
  }

  lemma {:induction false} Pow2Monotone(j: nat, k: nat)
    requires j < k
    ensures 2 * Pow2(j) <= Pow2(k)
  {
    if j + 1 == k {
    } else {
      Pow2Monotone(j, k - 1);
    }
  }

  /** A request from 1 to 2^63 bytes, and no other, is rounded up to a power of two that holds it. */
  lemma RoundUpIsPow2(n: nat)
    requires n < Pow2(WORD_BITS)
    ensures IsPow2(RoundUp(n)) && RoundUp(n) >= n <==> 1 <= n <= Pow2(63)
  {
    hide Pow2, Len;
    var x := Decrement(n);
    Length(x, 63);
    Length(x, WORD_BITS);
    Length(x, Len(x));
    Pow2Monotone(63, WORD_BITS);
    if Len(x) < WORD_BITS {
      Pow2Monotone(Len(x), WORD_BITS);
      assert RoundUp(n) == Pow2(Len(x));
    } else {
      assert forall k: nat :: Pow2(k) > 0;
    }
  }

  /** ... and to the least one. */
  lemma RoundUpIsLeast(n: nat, k: nat)
    requires 1 <= n && Pow2(k) >= n
    ensures RoundUp(n) <= Pow2(k)
  {
    hide Pow2, Len;
    Length(n - 1, k);
    if Len(n - 1) < k { Pow2Monotone(Len(n - 1), k); }
  }

  /** Requests of zero bytes, or of more than 2^63, are rounded to zero, and no others. */
  lemma RoundUpWraps(n: nat)
    requires n < Pow2(WORD_BITS)
    ensures RoundUp(n) == 0 <==> !(1 <= n <= Pow2(63))
  {
    hide Pow2, Len;
    var x := Decrement(n);
    Length(x, 63);
    Length(x, WORD_BITS);
    Pow2Monotone(63, WORD_BITS);
    if Len(x) < WORD_BITS {
      Pow2Monotone(Len(x), WORD_BITS);
    } else {
      assert Len(x) == WORD_BITS;
    }
  }

  lemma RoundUpIdempotent(n: nat)
    requires 1 <= n <= Pow2(63)
    ensures RoundUp(RoundUp(n)) == RoundUp(n)
  {
    hide Pow2, Len;
    Pow2Monotone(63, WORD_BITS);
    RoundUpIsPow2(n);
    var k :| RoundUp(n) == Pow2(k);
    RoundUpIsLeast(n, 63);
    RoundUpIsPow2(Pow2(k));
    RoundUpIsLeast(Pow2(k), k);
  }

  // ---------------------------------------------------------------- classes

  const CLASSES: nat := 9

  /** `Pow2ToIndex`; `None` is its assertion failure. */
  function Pow2ToIndex(pow2: nat): (i: Option<nat>)
    ensures i.Some? ==> i.value < CLASSES
  {
    match pow2
    case 2 => Some(0)
    case 4 => Some(0)
    case 8 => Some(0)
    case 16 => Some(1)
    case 32 => Some(2)
    case 64 => Some(3)
    case 128 => Some(4)
    case 256 => Some(5)
    case 512 => Some(6)
    case 1024 => Some(7)
    case 2048 => Some(8)
    case _ => None
  }

  /** Exactly the powers of two from 2 to 2048 have a class. */
  lemma IndexOfPower(k: nat)
    ensures Pow2ToIndex(Pow2(k)) == if 1 <= k <= 11 then Some(if k <= 3 then 0 else k - 3) else None
  {
    if k > 11 {
      Pow2Monotone(11, k);
      assert Pow2(11) == 2048;
    } else {
      assert Pow2(0) == 1 && Pow2(1) == 2 && Pow2(2) == 4 && Pow2(3) == 8;
    }
  }

  /** Object size of class `i`. */
  function ClassSize(i: nat): nat {
    Pow2(i + 3)
  }

  lemma ClassSizes()
    ensures ClassSize(0) == 8 && ClassSize(1) == 16 && ClassSize(2) == 32
    ensures ClassSize(3) == 64 && ClassSize(4) == 128 && ClassSize(5) == 256
    ensures ClassSize(6) == 512 && ClassSize(7) == 1024 && ClassSize(8) == 2048
  {
  }

  lemma RequestPower(n: nat)
    requires 1 <= n < UINT16
    ensures RoundUp(n) == Pow2(Len(n - 1))
    ensures 2 <= n <= 2048 <==> 1 <= Len(n - 1) <= 11
  {
    hide Len;
    Length(n - 1, 0);
    Length(n - 1, 11);
    Length(n - 1, 16);
    assert Pow2(11) == 2048 && Pow2(16) == UINT16;
    Pow2Monotone(Len(n - 1), WORD_BITS);
  }

  /** A request has a class exactly from 2 to 2048 bytes, and its class is the smallest that fits. */
  lemma ClassOfRequest(n: nat)
    requires n < UINT16
    ensures var c := Pow2ToIndex(RoundUp(n));
            && (c.Some? <==> 2 <= n <= 2048)
            && (c.Some? ==> n <= ClassSize(c.value) && forall j: nat :: j < c.value ==> ClassSize(j) < n)
  {
    hide Len, Pow2;
    if n == 0 {
      Length(Decrement(0), 63);
      Length(Decrement(0), WORD_BITS);
      Pow2Monotone(63, WORD_BITS);
      return;
    }
    var k := Len(n - 1);
    RequestPower(n);
    IndexOfPower(k);
    Length(n - 1, k);
    if k > 0 { Length(n - 1, k - 1); }
    if k < 3 { Pow2Monotone(k, 3); }
    forall j: nat | j + 3 < k ensures ClassSize(j) < n {
      if j + 3 < k - 1 { Pow2Monotone(j + 3, k - 1); }
    }
  }

  class Allocator {
    /** The object size of each buffer. */
    const buffers: array<nat>

    constructor ()
      ensures fresh(buffers) && Initialised()
    {
      buffers := new nat[CLASSES];
      new;
      InitBuffers();
    }

    ghost predicate Initialised()
      reads buffers
    {
      buffers.Length == CLASSES && forall i: nat :: i < CLASSES ==> buffers[i] == ClassSize(i)
    }

    method InitBuffers()
      requires buffers.Length == CLASSES
      modifies buffers
      ensures Initialised()
    {
      buffers[0] := 8;
      buffers[1] := 16;
      buffers[2] := 32;
      buffers[3] := 64;
      buffers[4] := 128;
      buffers[5] := 256;
      buffers[6] := 512;
      buffers[7] := 1024;
      buffers[8] := 2048;
      ClassSizes();
      hide ClassSize;
    }

    /** The buffer for a request of 2 to 2048 bytes is the one of the smallest class that fits. */
    method GetBuffer(size: nat) returns (i: nat)
      requires Initialised() && 2 <= size <= 2048
      ensures i < CLASSES && size <= buffers[i]
      ensures forall j :: 0 <= j < i ==> buffers[j] < size
    {
      ClassOfRequest(size);
      assert Pow2(WORD_BITS) > 2048;
      var pow2 := NbytesToPow2(size);
      i := Pow2ToIndex(pow2).value;
    }
  }
}
