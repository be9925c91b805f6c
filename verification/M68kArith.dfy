/** Addition and subtraction on the emulated 68000, binary and decimal: what one
    instruction with the extend flag computes, and what its flags mean. */
module M68kArith {

  const TWO32: nat := 0x1_0000_0000
  type word32 = n: int | 0 <= n < TWO32

  datatype Size = Byte | Word | Long

  function Bytes(sz: Size): (n: nat)
    ensures n == 1 || n == 2 || n == 4
  {
    match sz case Byte => 1 case Word => 2 case Long => 4
  }

  function Modulus(sz: Size): (n: nat)
    ensures n > 0
  {
    match sz case Byte => 0x100 case Word => 0x1_0000 case Long => TWO32
  }

  /** The part of a register an operation of that size works on. */
  function Low(sz: Size, v: nat): (n: nat)
    ensures n < Modulus(sz)
  {
    v % Modulus(sz)
  }

  /** v & msb. */
  predicate Msb(sz: Size, v: nat)
  {
    v / (Modulus(sz) / 2) % 2 == 1
  }

  /** The low part read as a two's complement number. */
  function Signed(sz: Size, v: nat): int
  {
    var n: int := Low(sz, v);
    if 2 * n >= Modulus(sz) then n - Modulus(sz) else n
  }

  predicate Fits(sz: Size, i: int)
  {
    -(Modulus(sz) as int) <= 2 * i < Modulus(sz)
  }

  function Int(b: bool): nat
  {
    if b then 1 else 0
  }

  /** d + s or d - s. */
  function Total(sub: bool, d: int, s: int): int
  {
    if sub then d - s else d + s
  }

  /** The condition codes of the status register. */
  datatype Ccr = Ccr(x: bool, n: bool, z: bool, v: bool, c: bool)

  datatype Outcome = Outcome(val: word32, ccr: Ccr)

  // ----- the instructions

  /** op_add: the flags come from the top bits of operands and result. */
  function Add(sz: Size, s: word32, d: word32): Outcome
  {
    var r := (d + s) % TWO32;
    var sm, dm, rm := Msb(sz, s), Msb(sz, d), Msb(sz, r);
    var carry := (sm && dm) || (sm && !rm) || (dm && !rm);
    Outcome(r, Ccr(carry, rm, Low(sz, r) == 0, sm == dm && dm != rm, carry))
  }

  /** op_sub. */
  function Sub(sz: Size, s: word32, d: word32): Outcome
  {
    var r := (d - s) % TWO32;
    var sm, dm, rm := Msb(sz, s), Msb(sz, d), Msb(sz, r);
    var borrow := (sm && !dm) || (rm && !dm) || (sm && rm);
    Outcome(r, Ccr(borrow, rm, Low(sz, r) == 0, sm != dm && dm != rm, borrow))
  }

  function AddOrSub(sub: bool, sz: Size, s: word32, d: word32): Outcome
  {
    if sub then Sub(sz, s, d) else Add(sz, s, d)
  }

  /** ADDX and SUBX: the extend flag is added or subtracted in a second step, and
      carry and overflow of both steps accumulate. */
  function Extended(sub: bool, sz: Size, s: word32, d: word32, f: Ccr): Outcome
  {
    var a := AddOrSub(sub, sz, s, d);
    var b := if f.x then
               var t := AddOrSub(sub, sz, 1, a.val);
               Outcome(t.val, Ccr(t.ccr.x || a.ccr.x, t.ccr.n, t.ccr.z, t.ccr.v || a.ccr.v, t.ccr.c || a.ccr.c))
             else a;
    Outcome(b.val, b.ccr.(z := b.ccr.z && f.z))
  }

  /** The or of two numbers. */
  function Or(a: nat, b: nat): nat
  {
    if a == 0 then b else 2 * Or(a / 2, b / 2) + (if a % 2 == 1 || b % 2 == 1 then 1 else 0)
  }

  /** One decimal digit, in a byte that wraps around, and its carry or borrow. */
  function Digit(sub: bool, a: nat, b: nat, x: bool): (nat, bool)
  {
    var t := Total(sub, b, a + Int(x));
    var out := if sub then t < 0 else t > 9;
    ((if !out then t else if sub then t + 10 else t - 10) % 0x100, out)
  }

  /** ABCD and SBCD. */
  function Decimal(sub: bool, op1: nat, op2: nat, f: Ccr): Outcome
    requires op1 < 0x100 && op2 < 0x100
  {
    var (digit0, x0) := Digit(sub, op1 % 16, op2 % 16, f.x);
    var (digit1, x1) := Digit(sub, op1 / 16, op2 / 16, x0);
    var r := Or(16 * digit1, digit0) % 0x100;
    Outcome(r, Ccr(x1, f.n, f.z && r == 0, f.v, x1))
  }

  // ----- what one instruction computes

  lemma ModUnique(i: int, m: nat, q: int, r: int)
    requires 0 <= r < m && i == q * m + r
    ensures i % m == r && i / m == q
  {
    var k := i / m - q;
    assert i == (i / m) * m + i % m;
    assert k * m == r - i % m;
    TimesBound(k, m);
  }

  lemma TimesBound(k: int, m: nat)
    ensures k >= 1 ==> k * m >= m
    ensures k <= -1 ==> k * m <= -(m as int)
  {
  }

  lemma MsbIsHalf(sz: Size, v: nat)
    ensures Msb(sz, v) <==> 2 * Low(sz, v) >= Modulus(sz)
  {
    TopBit(v, Modulus(sz) / 2);
  }

  lemma TopBit(v: nat, h: nat)
    requires h > 0
    ensures v / h % 2 == 1 <==> v % (2 * h) >= h
  {
    var m := 2 * h;
    var q, r := v / m, v % m;
    Regroup(2, h, q, 0);
    assert v == 2 * h * q + r;
    if r < h {
      ModUnique(v, h, 2 * q, r);
    } else {
      ModUnique(v, h, 2 * q + 1, r - h);
    }
  }

  /** A truncated result has the low part of the true one. */
  lemma LowOfWord(sz: Size, i: int)
    ensures Low(sz, i % TWO32) == i % Modulus(sz)
  {
    var m := Modulus(sz);
    var w := i % TWO32;
    var k := TWO32 / m;
    assert i == k * m * (i / TWO32) + (w / m) * m + w % m;
    Regroup(k, m, i / TWO32, w / m);
    ModUnique(i, m, k * (i / TWO32) + w / m, w % m);
  }

  lemma Regroup(k: int, m: int, a: int, b: int)
    ensures k * m * a + b * m == (k * a + b) * m
  {
  }

  lemma LowOfSum(sz: Size, a: nat, b: nat)
    ensures (a + b) % Modulus(sz) == (Low(sz, a) + Low(sz, b)) % Modulus(sz)
    ensures (a - b) % Modulus(sz) == (Low(sz, a) as int - Low(sz, b)) % Modulus(sz)
  {
    var m := Modulus(sz);
    Congruent(a + b, Low(sz, a) + Low(sz, b), m, a / m + b / m);
    Congruent(a - b, Low(sz, a) as int - Low(sz, b), m, a / m - b / m);
  }

  lemma Congruent(i: int, j: int, m: nat, k: int)
    requires m > 0 && i == j + k * m
    ensures i % m == j % m
  {
    Regroup(1, m, k, j / m);
    ModUnique(i, m, k + j / m, j % m);
  }

  lemma Wrap(m: nat, i: int)
    requires m > 0 && -(m as int) <= i < 2 * m
    ensures i % m == if i < 0 then i + m else if i < m then i else i - m
  {
    if i < 0 {
      ModUnique(i, m, -1, i + m);
    } else if i < m {
      ModUnique(i, m, 0, i);
    } else {
      ModUnique(i, m, 1, i - m);
    }
  }

  /** Carry and result of an addition: together the sum of the low parts.  N is the
      sign of the result, V says that the signed sum does not fit. */
  lemma AddMeans(sz: Size, s: word32, d: word32)
    ensures var r := Add(sz, s, d);
            && Low(sz, r.val) + Modulus(sz) * Int(r.ccr.x) == Low(sz, d) + Low(sz, s)
            && r.ccr.c == r.ccr.x && (r.ccr.n <==> Signed(sz, r.val) < 0) && (r.ccr.z <==> Low(sz, r.val) == 0)
            && (r.ccr.v <==> !Fits(sz, Signed(sz, d) + Signed(sz, s)))
  {
    hide Msb, Low;
    var r, m := (d + s) % TWO32, Modulus(sz);
    LowOfWord(sz, d + s);
    LowOfSum(sz, d, s);
    Wrap(m, Low(sz, d) + Low(sz, s));
    MsbIsHalf(sz, s);
    MsbIsHalf(sz, d);
    MsbIsHalf(sz, r);
  }

  lemma SubMeans(sz: Size, s: word32, d: word32)
    ensures var r := Sub(sz, s, d);
            && Low(sz, r.val) as int - Modulus(sz) * Int(r.ccr.x) == Low(sz, d) as int - Low(sz, s)
            && r.ccr.c == r.ccr.x && (r.ccr.n <==> Signed(sz, r.val) < 0) && (r.ccr.z <==> Low(sz, r.val) == 0)
            && (r.ccr.v <==> !Fits(sz, Signed(sz, d) - Signed(sz, s)))
  {
    hide Msb, Low;
    var r, m := (d - s) % TWO32, Modulus(sz);
    LowOfWord(sz, d - s);
    LowOfSum(sz, d, s);
    Wrap(m, Low(sz, d) as int - Low(sz, s));
    MsbIsHalf(sz, s);
    MsbIsHalf(sz, d);
    MsbIsHalf(sz, r);
  }

  /** A signed number reduced to what the operand size holds. */
  function Wrapped(sz: Size, i: int): int
    requires -2 * Modulus(sz) as int <= 2 * i <= 2 * Modulus(sz)
  {
    if 2 * i >= Modulus(sz) then i - Modulus(sz)
    else if 2 * i < -(Modulus(sz) as int) then i + Modulus(sz)
    else i
  }

  lemma SignedRange(sz: Size, v: nat)
    ensures Fits(sz, Signed(sz, v))
  {
    hide Low;
  }

  lemma StepMeans(sub: bool, sz: Size, s: word32, d: word32)
    ensures var r := AddOrSub(sub, sz, s, d);
            && Low(sz, r.val) as int == Total(sub, Low(sz, d), Low(sz, s)) - Total(sub, 0, Modulus(sz) * Int(r.ccr.x))
            && r.ccr.c == r.ccr.x && (r.ccr.n <==> Signed(sz, r.val) < 0) && (r.ccr.z <==> Low(sz, r.val) == 0)
            && (r.ccr.v <==> !Fits(sz, Total(sub, Signed(sz, d), Signed(sz, s))))
            && -2 * Modulus(sz) as int <= 2 * Total(sub, Signed(sz, d), Signed(sz, s)) <= 2 * Modulus(sz)
            && Signed(sz, r.val) == Wrapped(sz, Total(sub, Signed(sz, d), Signed(sz, s)))
  {
    hide Add, Sub, Low;
    if sub {
      SubMeans(sz, s, d);
    } else {
      AddMeans(sz, s, d);
    }
  }

  /** One ADDX or SUBX: result and final extend flag are the exact sum or difference
      with the extend flag taken in, N is the sign of the result, and Z survives
      exactly if it was set and the result is zero. */
  lemma ExtendedMeans(sub: bool, sz: Size, s: word32, d: word32, f: Ccr)
    ensures var r := Extended(sub, sz, s, d, f);
            && Low(sz, r.val) as int == Total(sub, Low(sz, d), Low(sz, s) + Int(f.x)) - Total(sub, 0, Modulus(sz) * Int(r.ccr.x))
            && r.ccr.c == r.ccr.x && (r.ccr.n <==> Signed(sz, r.val) < 0)
            && (r.ccr.z <==> f.z && Low(sz, r.val) == 0)
  {
    hide AddOrSub, Low, Signed, Fits, Wrapped;
    var a := AddOrSub(sub, sz, s, d);
    StepMeans(sub, sz, s, d);
    StepMeans(sub, sz, 1, a.val);
    LowOne(sz);
  }

  lemma LowOne(sz: Size)
    ensures Low(sz, 1) == 1 && Signed(sz, 1) == 1
  {
  }

  /** The one family of operands on which the signed result leaves the range in the
      first step and comes back in the second. */
  predicate OverflowsTwice(sub: bool, sz: Size, s: word32, d: word32, f: Ccr)
  {
    var i := Total(sub, Signed(sz, d), Signed(sz, s));
    f.x && 2 * i == if sub then Modulus(sz) as int else -(Modulus(sz) as int) - 2
  }

  /** V says that the signed result does not fit, except where both steps overflow:
      there it is set although the result fits. */
  lemma OverflowExact(sub: bool, sz: Size, s: word32, d: word32, f: Ccr)
    ensures var r := Extended(sub, sz, s, d, f);
            var fits := Fits(sz, Total(sub, Signed(sz, d), Signed(sz, s) + Int(f.x)));
            && (r.ccr.v == !fits <==> !OverflowsTwice(sub, sz, s, d, f))
            && (OverflowsTwice(sub, sz, s, d, f) ==> r.ccr.v && fits)
  {
    hide AddOrSub, Low, Signed, Fits, Wrapped, Modulus;
    var a := AddOrSub(sub, sz, s, d);
    StepMeans(sub, sz, s, d);
    StepMeans(sub, sz, 1, a.val);
    LowOne(sz);
    var i := Total(sub, Signed(sz, d), Signed(sz, s));
    TwoSteps(sz, i, if sub then -1 else 1);
    SignedFits(sub, sz, s, d);
  }

  lemma SignedFits(sub: bool, sz: Size, s: word32, d: word32)
    ensures Fits(sz, Signed(sz, s)) && Fits(sz, Signed(sz, d))
  {
    SignedRange(sz, s);
    SignedRange(sz, d);
  }

  lemma TwoSteps(sz: Size, i: int, e: int)
    requires -2 * Modulus(sz) as int <= 2 * i <= 2 * Modulus(sz) && (e == 1 || e == -1)
    ensures (!Fits(sz, i) || !Fits(sz, Wrapped(sz, i) + e)) == !Fits(sz, i + e)
       <==> 2 * i != if e == 1 then -(Modulus(sz) as int) - 2 else Modulus(sz) as int
    ensures 2 * i == (if e == 1 then -(Modulus(sz) as int) - 2 else Modulus(sz) as int) ==> !Fits(sz, i) && Fits(sz, i + e)
  {
  }

  /** -128 + -1 + 1 = -128 fits in a byte, and yet V is set. */
  lemma OverflowWrong(f: Ccr)
    requires f.x
    ensures Signed(Byte, 0x80) == -128 && Signed(Byte, 0xff) == -1
    ensures Extended(false, Byte, 0x80, 0xff, f).ccr.v
    ensures Extended(false, Byte, 0x80, 0xff, f).val % 0x100 == 0x80
  {
  }

  // ----- decimal

  predicate Bcd(b: nat)
  {
    b % 16 < 10 && b / 16 < 10
  }

  /** The number two decimal digits write. */
  function Dec(b: nat): nat
  {
    10 * (b / 16) + b % 16
  }

  lemma OrIsSum(a: nat, b: nat)
    requires b < 16
    ensures Or(16 * a, b) == 16 * a + b
  {
    hide Or;
    OrZero(a);
    assert b / 2 / 2 == b / 4 && b / 4 / 2 == b / 8 && b / 8 / 2 == 0;
    OrStep(a, b / 8);
    OrStep(2 * a, b / 4);
    OrStep(4 * a, b / 2);
    OrStep(8 * a, b);
  }

  lemma OrStep(a: nat, b: nat)
    ensures Or(2 * a, b) == 2 * Or(a, b / 2) + b % 2
  {
  }

  lemma {:induction false} OrZero(a: nat)
    ensures Or(a, 0) == a
  {
    if a > 0 {
      OrZero(a / 2);
    }
  }

  /** One ABCD or SBCD on decimal digits: exact decimal sum or difference, in
      decimal digits again. */
  lemma DecimalMeans(sub: bool, op1: nat, op2: nat, f: Ccr)
    requires op1 < 0x100 && op2 < 0x100 && Bcd(op1) && Bcd(op2)
    ensures var r := Decimal(sub, op1, op2, f);
            && Bcd(r.val) && r.val < 0x100
            && Dec(r.val) as int == Total(sub, Dec(op2), Dec(op1) + Int(f.x)) - Total(sub, 0, 100 * Int(r.ccr.x))
            && r.ccr.c == r.ccr.x && (r.ccr.z <==> f.z && Dec(r.val) == 0)
            && r.ccr.n == f.n && r.ccr.v == f.v
  {
    hide Or, Digit, Bcd, Dec, Total;
    Nibbles(op1);
    Nibbles(op2);
    var (digit0, x0) := Digit(sub, op1 % 16, op2 % 16, f.x);
    var (digit1, x1) := Digit(sub, op1 / 16, op2 / 16, x0);
    DigitMeans(sub, op1 % 16, op2 % 16, f.x);
    DigitMeans(sub, op1 / 16, op2 / 16, x0);
    OrIsSum(digit1, digit0);
    TwoDigits(digit1, digit0);
    assert Decimal(sub, op1, op2, f).val == 16 * digit1 + digit0;
    Combine(sub, op1, op2, f.x, digit0, x0, digit1, x1);
  }

  lemma Combine(sub: bool, op1: nat, op2: nat, x: bool, digit0: nat, x0: bool, digit1: nat, x1: bool)
    requires digit0 == Total(sub, op2 % 16, op1 % 16 + Int(x)) - Total(sub, 0, 10 * Int(x0))
    requires digit1 == Total(sub, op2 / 16, op1 / 16 + Int(x0)) - Total(sub, 0, 10 * Int(x1))
    ensures 10 * digit1 + digit0 == Total(sub, Dec(op2), Dec(op1) + Int(x)) - Total(sub, 0, 100 * Int(x1))
  {
  }

  lemma Nibbles(b: nat)
    requires Bcd(b)
    ensures b % 16 < 10 && b / 16 < 10 && Dec(b) == 10 * (b / 16) + b % 16
  {
  }

  lemma TwoDigits(hi: nat, lo: nat)
    requires hi < 10 && lo < 10
    ensures Bcd(16 * hi + lo) && Dec(16 * hi + lo) == 10 * hi + lo && 16 * hi + lo < 0x100
  {
  }

  lemma DigitMeans(sub: bool, a: nat, b: nat, x: bool)
    requires a < 10 && b < 10
    ensures var (digit, out) := Digit(sub, a, b, x);
            digit < 10 && digit == Total(sub, b, a + Int(x)) - Total(sub, 0, 10 * Int(out))
  {
  }
}
