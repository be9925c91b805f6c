/** Arithmetic on numbers of any length: chains of ADDX, SUBX, ABCD and SBCD, limb
    by limb from the least significant up. */
module M68kChain {
  import opened Bits
  import opened M68kArith
  import opened M68kMemory

  datatype Op = Binary(sub: bool, sz: Size) | Packed(sub: bool)

  function OpBytes(op: Op): (n: nat)
    ensures n == 1 || n == 2 || n == 4
  {
    if op.Binary? then Bytes(op.sz) else 1
  }

  /** What one instruction does to its operands. */
  function Step(op: Op, s: word32, d: word32, f: Ccr): Outcome
  {
    if op.Binary? then Extended(op.sub, op.sz, s, d, f) else Decimal(op.sub, s % 0x100, d % 0x100, f)
  }

  function Radix(op: Op): (r: nat)
    ensures r > 1
  {
    if op.Binary? then Modulus(op.sz) else 100
  }

  function Place(op: Op, v: nat): nat
  {
    if op.Binary? then Low(op.sz, v) else Dec(v % 0x100)
  }

  predicate Operand(op: Op, v: nat)
  {
    op.Packed? ==> M68kArith.Bcd(v % 0x100)
  }

  ghost predicate Operands(op: Op, vs: seq<word32>)
  {
    forall i | 0 <= i < |vs| :: Operand(op, vs[i])
  }

  function Num(op: Op, vs: seq<nat>): nat
  {
    if vs == [] then 0 else Num(op, vs[..|vs| - 1]) + Worth(Place(op, vs[|vs| - 1]), Power(Radix(op), |vs| - 1))
  }

  datatype Chained = Chained(vals: seq<word32>, ccr: Ccr)

  /** One instruction for each limb, from the least significant up. */
  function Chain(op: Op, ss: seq<word32>, ds: seq<word32>, f: Ccr): (r: Chained)
    requires |ss| == |ds|
    ensures |r.vals| == |ss|
  {
    if ss == [] then Chained([], f)
    else
      var n := |ss| - 1;
      var r := Chain(op, ss[..n], ds[..n], f);
      var t := Step(op, ss[n], ds[n], r.ccr);
      Chained(r.vals + [t.val], t.ccr)
  }

  lemma StepPlace(op: Op, s: word32, d: word32, f: Ccr)
    requires Operand(op, s) && Operand(op, d)
    ensures var r := Step(op, s, d, f);
            && Operand(op, r.val)
            && Place(op, r.val) as int == Total(op.sub, Place(op, d), Place(op, s) + Int(f.x)) - Total(op.sub, 0, Radix(op) * Int(r.ccr.x))
            && r.ccr.c == r.ccr.x && (r.ccr.z <==> f.z && Place(op, r.val) == 0)
  {
    hide Extended, Decimal, M68kArith.Bcd, Dec, Low;
    if op.Binary? {
      ExtendedMeans(op.sub, op.sz, s, d, f);
    } else {
      DecimalMeans(op.sub, s % 0x100, d % 0x100, f);
    }
  }

  /** A chain of any length computes the exact sum or difference of the numbers,
      initial X taken in; the final X is the carry or borrow out, and Z survives
      exactly if it was set and the whole result is zero. */
  lemma {:induction false} ChainComputes(op: Op, ss: seq<word32>, ds: seq<word32>, f: Ccr)
    requires |ss| == |ds| && Operands(op, ss) && Operands(op, ds)
    ensures var r := Chain(op, ss, ds, f);
            && Operands(op, r.vals)
            && Num(op, r.vals) as int == Total(op.sub, Num(op, ds), Num(op, ss) + Int(f.x))
                                          - Total(op.sub, 0, Worth(Int(r.ccr.x), Power(Radix(op), |ss|)))
            && (ss != [] ==> r.ccr.c == r.ccr.x)
            && (r.ccr.z <==> f.z && Num(op, r.vals) == 0)
  {
    hide Step, Place, Operand, Radix, Total, Operands, Num, Power, Worth, Int;
    if ss == [] {
      NoLimbs(op, f);
      NoChange(op.sub, Int(f.x));
    } else {
      var n := |ss| - 1;
      Prefix(op, ss);
      Prefix(op, ds);
      var r := Chain(op, ss[..n], ds[..n], f);
      ChainComputes(op, ss[..n], ds[..n], f);
      var t := Step(op, ss[n], ds[n], r.ccr);
      StepPlace(op, ss[n], ds[n], r.ccr);
      var p := Power(Radix(op), n);
      LimbStep(op.sub, Num(op, r.vals), Num(op, ds[..n]), Num(op, ss[..n]), Int(f.x), Int(r.ccr.x),
               Place(op, t.val), Place(op, ds[n]), Place(op, ss[n]), Int(t.ccr.x), Radix(op), p);
      OneMore(op, r.vals, t.val);
      Nonzero(Place(op, t.val), p);
    }
  }

  lemma NoLimbs(op: Op, f: Ccr)
    ensures Num(op, []) == 0 && Operands(op, []) && Worth(Int(f.x), Power(Radix(op), 0)) == Int(f.x)
  {
  }

  lemma NoChange(sub: bool, x: nat)
    ensures 0 == Total(sub, 0, 0 + x) - Total(sub, 0, x)
  {
  }

  lemma Prefix(op: Op, vs: seq<word32>)
    requires vs != [] && Operands(op, vs)
    ensures var n := |vs| - 1;
            && Operand(op, vs[n]) && Operands(op, vs[..n])
            && Num(op, vs) == Num(op, vs[..n]) + Worth(Place(op, vs[n]), Power(Radix(op), n))
  {
    hide Place, Operand, Radix;
  }

  lemma OneMore(op: Op, vs: seq<word32>, v: word32)
    requires Operand(op, v) && Operands(op, vs)
    ensures Operands(op, vs + [v])
    ensures Num(op, vs + [v]) == Num(op, vs) + Worth(Place(op, v), Power(Radix(op), |vs|))
    ensures Power(Radix(op), |vs| + 1) == Power(Radix(op), |vs|) * Radix(op)
  {
    hide Place, Operand, Radix;
    assert (vs + [v])[..|vs|] == vs;
  }

  /** The equations of the limbs so far and of the next limb, worth p, together. */
  lemma LimbStep(sub: bool, nv: nat, nd: nat, ns: nat, x: nat, x0: nat, v: nat, d: nat, s: nat, x1: nat, r: nat, p: nat)
    requires nv == Total(sub, nd, ns + x) - Total(sub, 0, Worth(x0, p))
    requires v == Total(sub, d, s + x0) - Total(sub, 0, r * x1)
    ensures nv + Worth(v, p) == Total(sub, nd + Worth(d, p), ns + Worth(s, p) + x) - Total(sub, 0, Worth(x1, p * r))
  {
    hide Worth;
    WorthSum(s, x0, p);
    WorthSum(d, r * x1, p);
    WorthSum(v, s + x0, p);
    WorthSum(v, r * x1, p);
    WorthSum(d, s + x0, p);
    WorthOfProduct(r, x1, p);
    if sub {
      assert v + (s + x0) == d + r * x1;
    } else {
      assert v + r * x1 == d + (s + x0);
    }
  }

  lemma WorthSum(v: nat, w: nat, p: nat)
    ensures Worth(v + w, p) == Worth(v, p) + Worth(w, p)
  {
  }

  lemma WorthOfProduct(r: nat, x: nat, p: nat)
    ensures Worth(r * x, p) == Worth(x, p * r)
  {
    assert r * x * p == x * (p * r);
  }

  lemma Nonzero(v: nat, p: nat)
    requires p > 0
    ensures Worth(v, p) == 0 <==> v == 0
  {
  }
}
