/** The same chains with both numbers in memory, addressed by -(Ay),-(Ax). */
module M68kMemoryChain {
  import opened Bits
  import opened M68kArith
  import opened M68kMemory
  import opened M68kChain

  /** What the predecrementing form reads and changes: memory, the source and the
      destination address register, and the condition codes. */
  datatype Machine = Machine(mem: seq<byte>, ay: nat, ax: nat, ccr: Ccr)

  /** Both operands lie in memory, at even addresses if they are wider than a byte. */
  predicate Reachable(m: Machine, b: nat)
  {
    && b <= m.ay <= |m.mem| <= TWO32 && b <= m.ax <= |m.mem|
    && (b > 1 ==> m.ay % 2 == 0 && m.ax % 2 == 0)
  }

  /** One instruction on the limbs at ay and ax. */
  function StepAt(op: Op, mem: seq<byte>, ay: nat, ax: nat, f: Ccr): (r: Machine)
    requires ay + OpBytes(op) <= |mem| && ax + OpBytes(op) <= |mem|
    ensures |r.mem| == |mem| && r.ay == ay && r.ax == ax
  {
    var b := OpBytes(op);
    LimbIsWord(mem[ay..ay + b], b);
    LimbIsWord(mem[ax..ax + b], b);
    var t := Step(op, Get(mem, ay, b), Get(mem, ax, b), f);
    Machine(Put(mem, ax, b, t.val), ay, ax, t.ccr)
  }

  /** One instruction on -(Ay),-(Ax). */
  function MemStep(op: Op, m: Machine): (r: Machine)
    requires Reachable(m, OpBytes(op))
    ensures |r.mem| == |m.mem|
  {
    StepAt(op, m.mem, m.ay - OpBytes(op), m.ax - OpBytes(op), m.ccr)
  }

  /** The length of n limbs of b bytes, n times b. */
  function Span(n: nat, b: nat): nat
  {
    if n == 0 then 0 else Span(n - 1, b) + b
  }

  lemma {:induction false} SpanTwice(n: nat, b: nat)
    ensures Span(n, 2 * b) == 2 * Span(n, b)
  {
    if n > 0 {
      SpanTwice(n - 1, b);
    }
  }

  /** n instructions can run: both regions lie in memory. */
  predicate RegionsFit(m: Machine, b: nat, n: nat)
  {
    && Span(n, b) <= m.ay <= |m.mem| <= TWO32 && Span(n, b) <= m.ax <= |m.mem|
    && (b > 1 ==> m.ay % 2 == 0 && m.ax % 2 == 0)
  }

  /** No source limb is overwritten before it is read. */
  predicate SourceSafe(m: Machine, b: nat, n: nat)
  {
    m.ay <= m.ax || m.ax + Span(n, b) <= m.ay
  }

  /** n instructions, down through memory. */
  function MemRun(op: Op, m: Machine, n: nat): (r: Machine)
    requires RegionsFit(m, OpBytes(op), n)
    ensures |r.mem| == |m.mem| && r.ay == m.ay - Span(n, OpBytes(op)) && r.ax == m.ax - Span(n, OpBytes(op))
  {
    if n == 0 then m
    else
      Fewer(m, OpBytes(op), n);
      var r := MemRun(op, m, n - 1);
      NextReachable(m, r, OpBytes(op), n);
      MemStep(op, r)
  }

  lemma Fewer(m: Machine, b: nat, n: nat)
    requires RegionsFit(m, b, n) && n > 0
    ensures RegionsFit(m, b, n - 1)
    ensures SourceSafe(m, b, n) ==> SourceSafe(m, b, n - 1)
  {
  }

  lemma NextReachable(m: Machine, r: Machine, b: nat, n: nat)
    requires RegionsFit(m, b, n) && n > 0 && (b == 1 || b == 2 || b == 4)
    requires |r.mem| == |m.mem| && r.ay == m.ay - Span(n - 1, b) && r.ax == m.ax - Span(n - 1, b)
    ensures Reachable(r, b)
  {
    SpanTwice(n - 1, b / 2);
  }

  /** The n limbs that end at top, least significant first. */
  function Limbs(mem: seq<byte>, top: nat, b: nat, n: nat): (vs: seq<word32>)
    requires Span(n, b) <= top <= |mem| && (b == 1 || b == 2 || b == 4)
    ensures |vs| == n
  {
    if n == 0 then []
    else
      Limb(mem, top, b, n);
      Limbs(mem, top, b, n - 1) + [Get(mem, top - Span(n, b), b)]
  }

  lemma Limb(mem: seq<byte>, top: nat, b: nat, n: nat)
    requires 0 < n && Span(n, b) <= top <= |mem| && (b == 1 || b == 2 || b == 4)
    ensures Span(n, b) == Span(n - 1, b) + b
    ensures Get(mem, top - Span(n, b), b) < TWO32
  {
    LimbIsWord(mem[top - Span(n, b)..top - Span(n, b) + b], b);
  }

  lemma {:induction false} SameLimbs(mem: seq<byte>, mem': seq<byte>, top: nat, b: nat, n: nat)
    requires Span(n, b) <= top <= |mem| == |mem'| && (b == 1 || b == 2 || b == 4)
    requires mem[top - Span(n, b)..top] == mem'[top - Span(n, b)..top]
    ensures Limbs(mem, top, b, n) == Limbs(mem', top, b, n)
  {
    hide Get;
    if n > 0 {
      Limb(mem, top, b, n);
      Limb(mem', top, b, n);
      SliceOfSlice(mem, top - Span(n, b), top, b, Span(n, b));
      SliceOfSlice(mem', top - Span(n, b), top, b, Span(n, b));
      SliceOfSlice(mem, top - Span(n, b), top, 0, b);
      SliceOfSlice(mem', top - Span(n, b), top, 0, b);
      SameGet(mem, mem', top - Span(n, b), b);
      SameLimbs(mem, mem', top, b, n - 1);
    }
  }

  /** What is stored of a limb. */
  function Kept(op: Op, v: nat): (r: word32)
    ensures Place(op, r) == Place(op, v)
  {
    if op.Binary? then
      LowTwice(op.sz, v);
      Low(op.sz, v)
    else v % 0x100
  }

  lemma LowTwice(sz: Size, v: nat)
    ensures Low(sz, v) < TWO32 && Low(sz, Low(sz, v)) == Low(sz, v)
  {
  }

  function AllKept(op: Op, vs: seq<word32>): (r: seq<word32>)
    ensures |r| == |vs|
  {
    if vs == [] then [] else AllKept(op, vs[..|vs| - 1]) + [Kept(op, vs[|vs| - 1])]
  }

  lemma {:induction false} KeptNum(op: Op, vs: seq<word32>)
    ensures Num(op, AllKept(op, vs)) == Num(op, vs)
  {
    hide Place, Kept, Worth, Power;
    if vs != [] {
      var n := |vs| - 1;
      KeptNum(op, vs[..n]);
      assert AllKept(op, vs)[..n] == AllKept(op, vs[..n]);
    }
  }

  lemma ChainMore(op: Op, ss: seq<word32>, ds: seq<word32>, s: word32, d: word32, f: Ccr)
    requires |ss| == |ds|
    ensures var r := Chain(op, ss, ds, f);
            var t := Step(op, s, d, r.ccr);
            Chain(op, ss + [s], ds + [d], f) == Chained(r.vals + [t.val], t.ccr)
  {
    hide Step;
    assert (ss + [s])[..|ss|] == ss && (ds + [d])[..|ds|] == ds;
  }

  lemma KeptMore(op: Op, vs: seq<word32>, v: word32)
    ensures AllKept(op, vs + [v]) == AllKept(op, vs) + [Kept(op, v)]
  {
    assert (vs + [v])[..|vs|] == vs;
  }

  lemma LimbsMore(mem: seq<byte>, top: nat, b: nat, n: nat)
    requires 0 < n && Span(n, b) <= top <= |mem| && (b == 1 || b == 2 || b == 4)
    ensures Span(n - 1, b) <= top && Get(mem, top - Span(n, b), b) < TWO32
    ensures Limbs(mem, top, b, n) == Limbs(mem, top, b, n - 1) + [Get(mem, top - Span(n, b), b)]
  {
    hide Get;
    Limb(mem, top, b, n);
  }

  lemma RunMore(op: Op, m: Machine, n: nat)
    requires n > 0 && RegionsFit(m, OpBytes(op), n)
    ensures var b := OpBytes(op);
            && RegionsFit(m, b, n - 1)
            && var q := MemRun(op, m, n - 1);
               MemRun(op, m, n) == StepAt(op, q.mem, m.ay - Span(n, b), m.ax - Span(n, b), q.ccr)
  {
    hide StepAt;
    Fewer(m, OpBytes(op), n);
  }

  /** q is what n instructions make of m: the chain over the limbs, and nothing
      changed outside the destination. */
  ghost predicate Agrees(op: Op, m: Machine, q: Machine, n: nat)
    requires RegionsFit(m, OpBytes(op), n)
  {
    var b := OpBytes(op);
    var c := Chain(op, Limbs(m.mem, m.ay, b, n), Limbs(m.mem, m.ax, b, n), m.ccr);
    && |q.mem| == |m.mem| && q.ccr == c.ccr && Limbs(q.mem, m.ax, b, n) == AllKept(op, c.vals)
    && SameOutside(m.mem, q.mem, m.ax - Span(n, b), m.ax)
  }

  /** The instructions work limb by limb down the two regions, and change nothing
      outside the destination. */
  lemma {:induction false} RunIsChain(op: Op, m: Machine, n: nat)
    requires RegionsFit(m, OpBytes(op), n) && SourceSafe(m, OpBytes(op), n)
    ensures Agrees(op, m, MemRun(op, m, n), n)
  {
    hide *;
    if n == 0 {
      NoRun(op, m);
    } else {
      Fewer(m, OpBytes(op), n);
      RunIsChain(op, m, n - 1);
      RunMore(op, m, n);
      NextLimb(op, m, MemRun(op, m, n - 1), n);
    }
  }

  /** One more limb behind n - 1 others. */
  lemma NextLimb(op: Op, m: Machine, q: Machine, n: nat)
    requires n > 0 && RegionsFit(m, OpBytes(op), n) && RegionsFit(m, OpBytes(op), n - 1)
    requires SourceSafe(m, OpBytes(op), n) && Agrees(op, m, q, n - 1)
    ensures var b := OpBytes(op);
            |q.mem| == |m.mem| && Agrees(op, m, StepAt(op, q.mem, m.ay - Span(n, b), m.ax - Span(n, b), q.ccr), n)
  {
    hide Step, Kept, Get, Put, Limbs, Chain, AllKept, SameOutside, OpBytes;
    var b := OpBytes(op);
    var ay, ax := m.ay - Span(n, b), m.ax - Span(n, b);
    GetOutside(m.mem, q.mem, ax + b, m.ax, ay, b);
    GetOutside(m.mem, q.mem, ax + b, m.ax, ax, b);
    LimbsMore(m.mem, m.ay, b, n);
    LimbsMore(m.mem, m.ax, b, n);
    var ss, ds := Limbs(m.mem, m.ay, b, n - 1), Limbs(m.mem, m.ax, b, n - 1);
    ChainMore(op, ss, ds, Get(m.mem, ay, b), Get(m.mem, ax, b), m.ccr);
    var c, t := Chain(op, ss, ds, m.ccr), Step(op, Get(m.mem, ay, b), Get(m.mem, ax, b), q.ccr);
    KeptMore(op, c.vals, t.val);
    PutOutside(m.mem, q.mem, ax, b, m.ax, t.val);
    WrittenLimb(op, q.mem, m.ax, n, t.val);
  }

  lemma WrittenLimb(op: Op, mem: seq<byte>, top: nat, n: nat, v: word32)
    requires n > 0 && Span(n, OpBytes(op)) <= top <= |mem|
    ensures var b := OpBytes(op);
            Limbs(Put(mem, top - Span(n, b), b, v), top, b, n) == Limbs(mem, top, b, n - 1) + [Kept(op, v)]
  {
    hide Kept, Get, Put, Limbs, OpBytes;
    var b := OpBytes(op);
    var after := Put(mem, top - Span(n, b), b, v);
    LimbKept(op, mem, top - Span(n, b), v);
    LimbsMore(after, top, b, n);
    SameLimbs(after, mem, top, b, n - 1);
  }

  lemma NoRun(op: Op, m: Machine)
    requires RegionsFit(m, OpBytes(op), 0)
    ensures MemRun(op, m, 0) == m && Agrees(op, m, m, 0)
  {
  }

  lemma LimbKept(op: Op, mem: seq<byte>, at: nat, v: word32)
    requires at + OpBytes(op) <= |mem|
    ensures Get(Put(mem, at, OpBytes(op), v), at, OpBytes(op)) == Kept(op, v)
    ensures forall k | 0 <= k < |mem| && !(at <= k < at + OpBytes(op)) :: Put(mem, at, OpBytes(op), v)[k] == mem[k]
  {
    hide Put, BeNumber, BeBytes;
    GetPut(mem, at, OpBytes(op), v);
    BeBack(v, OpBytes(op));
  }

  /** A chain down through memory adds the number in the source region to the one
      in the destination region, or takes it from it. */
  lemma MemoryArithmetic(op: Op, m: Machine, n: nat)
    requires RegionsFit(m, OpBytes(op), n) && SourceSafe(m, OpBytes(op), n)
    requires Operands(op, Limbs(m.mem, m.ay, OpBytes(op), n)) && Operands(op, Limbs(m.mem, m.ax, OpBytes(op), n))
    ensures var b := OpBytes(op);
            var r := MemRun(op, m, n);
            var v, d, s := Num(op, Limbs(r.mem, m.ax, b, n)), Num(op, Limbs(m.mem, m.ax, b, n)), Num(op, Limbs(m.mem, m.ay, b, n));
            && v as int == Total(op.sub, d, s + Int(m.ccr.x)) - Total(op.sub, 0, Worth(Int(r.ccr.x), Power(Radix(op), n)))
            && (r.ccr.z <==> m.ccr.z && v == 0)
            && SameOutside(m.mem, r.mem, m.ax - Span(n, b), m.ax)
  {
    hide MemRun, Limbs, Chain, Num, Operands, Total, AllKept, SameOutside, SourceSafe, Power, Worth, Place;
    var b := OpBytes(op);
    var ss, ds := Limbs(m.mem, m.ay, b, n), Limbs(m.mem, m.ax, b, n);
    RunIsChain(op, m, n);
    ChainComputes(op, ss, ds, m.ccr);
    KeptNum(op, Chain(op, ss, ds, m.ccr).vals);
  }

  /** The limbs of a binary number are the number its bytes write. */
  lemma {:induction false} LimbsAreNumber(sub: bool, sz: Size, mem: seq<byte>, top: nat, n: nat)
    requires Span(n, Bytes(sz)) <= top <= |mem|
    ensures Num(Binary(sub, sz), Limbs(mem, top, Bytes(sz), n)) == BeNumber(mem[top - Span(n, Bytes(sz))..top])
  {
    hide Power, Num, BeNumber, Limbs, Worth, Place, Get, Modulus;
    var b := Bytes(sz);
    if n == 0 {
      NoNumber(Binary(sub, sz), mem, top, b);
    } else {
      LimbsMore(mem, top, b, n);
      LimbsAreNumber(sub, sz, mem, top, n - 1);
      var vs, v := Limbs(mem, top, b, n - 1), Get(mem, top - Span(n, b), b);
      NumMore(Binary(sub, sz), vs, v);
      PlaceOfLimb(sub, sz, mem[top - Span(n, b)..top - Span(n, b) + b]);
      var hi, lo := mem[top - Span(n, b)..top - Span(n - 1, b)], mem[top - Span(n - 1, b)..top];
      assert mem[top - Span(n, b)..top] == hi + lo;
      BeAppend(hi, lo);
      PowerOfPower(sz, n - 1);
      GetIs(mem, top - Span(n, b), b);
    }
  }

  lemma NoNumber(op: Op, mem: seq<byte>, top: nat, b: nat)
    requires top <= |mem| && (b == 1 || b == 2 || b == 4)
    ensures Num(op, Limbs(mem, top, b, 0)) == 0 == BeNumber(mem[top..top])
  {
  }

  /** ADDX or SUBX down through memory on the two regions read as big-endian
      numbers of n limbs: exact addition or subtraction with carry in and out. */
  lemma BigEndianArithmetic(sub: bool, sz: Size, m: Machine, n: nat)
    requires RegionsFit(m, Bytes(sz), n) && SourceSafe(m, Bytes(sz), n)
    ensures var k := Span(n, Bytes(sz));
            var r := MemRun(Binary(sub, sz), m, n);
            var v, d, s := BeNumber(r.mem[m.ax - k..m.ax]), BeNumber(m.mem[m.ax - k..m.ax]), BeNumber(m.mem[m.ay - k..m.ay]);
            && v as int == Total(sub, d, s + Int(m.ccr.x)) - Total(sub, 0, Worth(Int(r.ccr.x), Power(256, k)))
            && (r.ccr.z <==> m.ccr.z && v == 0)
            && SameOutside(m.mem, r.mem, m.ax - k, m.ax)
  {
    hide MemRun, Limbs, Num, Total, SameOutside, SourceSafe, Power, Worth, BeNumber;
    var op := Binary(sub, sz);
    MemoryArithmetic(op, m, n);
    LimbsAreNumber(sub, sz, MemRun(op, m, n).mem, m.ax, n);
    LimbsAreNumber(sub, sz, m.mem, m.ax, n);
    LimbsAreNumber(sub, sz, m.mem, m.ay, n);
    PowerOfPower(sz, n);
  }

  lemma NumMore(op: Op, vs: seq<word32>, v: word32)
    ensures Num(op, vs + [v]) == Num(op, vs) + Worth(Place(op, v), Power(Radix(op), |vs|))
  {
    hide Place, Radix, Power, Worth;
    assert (vs + [v])[..|vs|] == vs;
  }

  lemma PlaceOfLimb(sub: bool, sz: Size, bs: seq<byte>)
    requires |bs| == Bytes(sz)
    ensures Place(Binary(sub, sz), BeNumber(bs)) == BeNumber(bs)
  {
    BeBound(bs);
    PowerOfPower(sz, 1);
  }

  lemma {:induction false} PowerOfPower(sz: Size, n: nat)
    ensures Power(Modulus(sz), n) == Power(256, Span(n, Bytes(sz)))
  {
    if n > 0 {
      PowerOfPower(sz, n - 1);
      var k := Span(n - 1, Bytes(sz));
      FourMore(k);
    }
  }
}
