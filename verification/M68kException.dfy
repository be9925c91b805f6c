/** Exceptions on the emulated 68000: what delivery puts on the supervisor stack,
    what RTE takes back, and why properly nested handlers leave no trace. */
module M68kException {
  import opened Bits
  import opened M68kArith
  import opened M68kMemory

  type Sr = s: seq<bool> | |s| == 16 witness Zeros(16)

  /** Bits of the status register, counted from the top. */
  const SR_T := 0
  const SR_S := 2
  const CC_X := 11
  const CC_N := 12
  const CC_Z := 13
  const CC_V := 14
  const CC_C := 15

  const M68KVEC_ADDR_ERROR: nat := 3

  /** xsp is the stack pointer that is not in use: the supervisor's in user mode,
      the user's in supervisor mode. */
  datatype Regs = Regs(d: seq<word32>, a: seq<word32>, pc: word32, xsp: word32, sr: Sr)

  datatype Vm = Vm(mem: seq<byte>, regs: Regs)

  predicate RegsOk(r: Regs)
  {
    |r.d| == 8 && |r.a| == 8
  }

  /** One region of memory from address 0, short of the whole address space. */
  predicate VmOk(v: Vm)
  {
    RegsOk(v.regs) && |v.mem| < TWO32
  }

  datatype Rc = Okay | AddressError | Unmapped | Privilege

  datatype Exc = Exc(vector: nat, status: nat, fault: nat, opcode: nat)

  predicate ExcOk(e: Exc)
  {
    e.vector < 0x100 && e.status < 0x1_0000 && e.fault < TWO32 && e.opcode < 0x1_0000
  }

  /** The masks of these bits. */
  lemma SrMasks()
    ensures Val(Zeros(16)[SR_T := true]) == 0x8000 && Val(Zeros(16)[SR_S := true]) == 0x2000
    ensures Val(Zeros(16)[CC_X := true]) == 0x10 && Val(Zeros(16)[CC_N := true]) == 8
    ensures Val(Zeros(16)[CC_Z := true]) == 4 && Val(Zeros(16)[CC_V := true]) == 2 && Val(Zeros(16)[CC_C := true]) == 1
  {
    OneBit(16, SR_T);
    OneBit(16, SR_S);
    OneBit(16, CC_X);
    OneBit(16, CC_N);
    OneBit(16, CC_Z);
    OneBit(16, CC_V);
    OneBit(16, CC_C);
    assert Pow2(4) == 16 && Pow2(8) == 256 && Pow2(12) == 4096;
  }

  lemma {:induction false} OneBit(n: nat, i: nat)
    requires i < n
    ensures Val(Zeros(n)[i := true]) == Pow2(n - 1 - i)
  {
    var s := Zeros(n)[i := true];
    if i < n - 1 {
      OneBit(n - 1, i);
      assert s[..n - 1] == Zeros(n - 1)[i := true];
    } else {
      NoBits(n - 1);
      assert s[..n - 1] == Zeros(n - 1);
    }
  }

  lemma {:induction false} NoBits(n: nat)
    ensures Val(Zeros(n)) == 0
  {
    if n > 0 {
      NoBits(n - 1);
      assert Zeros(n)[..n - 1] == Zeros(n - 1);
    }
  }

  // ----- the steps

  /** update_sr: crossing between user and supervisor mode swaps stack pointers. */
  function UpdateSr(r: Regs, sr: Sr): (t: Regs)
    requires RegsOk(r)
    ensures RegsOk(t) && t.sr == sr
  {
    if r.sr[SR_S] != sr[SR_S] then r.(a := r.a[7 := r.xsp], xsp := r.a[7], sr := sr) else r.(sr := sr)
  }

  /** Whether an access goes through: aligned first, mapped second. */
  function Access(size: nat, at: nat, b: nat): Rc
  {
    if b != 1 && at % 2 == 1 then AddressError else if at + b <= size then Okay else Unmapped
  }

  /** A value to store. */
  datatype Store = Store(at: nat, b: nat, v: nat)

  datatype Stored = Stored(rc: Rc, mem: seq<byte>)

  /** Stores one after the other, up to the first that fails. */
  function StoreAll(mem: seq<byte>, ws: seq<Store>): (r: Stored)
    ensures |r.mem| == |mem|
    decreases |ws|
  {
    if ws == [] then Stored(Okay, mem)
    else
      var rc := Access(|mem|, ws[0].at, ws[0].b);
      if rc != Okay then Stored(rc, mem) else StoreAll(Put(mem, ws[0].at, ws[0].b, ws[0].v), ws[1..])
  }

  function Down(a: nat, n: nat): word32
  {
    (a - n) % TWO32
  }

  function Up(a: nat, n: nat): word32
  {
    (a + n) % TWO32
  }

  /** The short frame, and the extended one of bus and address errors below it. */
  function Frame(sp: nat, pc: nat, sr: Sr, e: Exc): seq<Store>
  {
    var short := [Store(Up(sp, 2), 4, pc), Store(sp, 2, Val(sr))];
    if e.vector <= M68KVEC_ADDR_ERROR then
      var lo := Down(sp, 8);
      short + [Store(lo, 2, e.status), Store(Up(lo, 2), 4, e.fault), Store(Up(lo, 6), 2, e.opcode)]
    else short
  }

  datatype Ran = Ran(rc: Rc, vm: Vm)

  /** m68k_deliver_exception: registers change only if everything went through. */
  function Deliver(v: Vm, e: Exc): (r: Ran)
    requires VmOk(v) && ExcOk(e)
    ensures VmOk(r.vm) && |r.vm.mem| == |v.mem|
  {
    var t := UpdateSr(v.regs, v.regs.sr[SR_S := true][SR_T := false]);
    var rc := Access(|v.mem|, 4 * e.vector, 4);
    if rc != Okay then Ran(rc, v)
    else
      var sp := Down(t.a[7], 6);
      var w := StoreAll(v.mem, Frame(sp, v.regs.pc, v.regs.sr, e));
      if w.rc != Okay then Ran(w.rc, Vm(w.mem, v.regs))
      else
        var top := if e.vector <= M68KVEC_ADDR_ERROR then Down(sp, 8) else sp;
        WordFits(v.mem, 4 * e.vector, 4);
        Ran(Okay, Vm(w.mem, t.(pc := Get(v.mem, 4 * e.vector, 4), a := t.a[7 := top])))
  }

  /** RTE. */
  function Rte(v: Vm): (r: Ran)
    requires VmOk(v)
    ensures VmOk(r.vm) && r.vm.mem == v.mem
  {
    var sp := v.regs.a[7];
    if !v.regs.sr[SR_S] then Ran(Privilege, v)
    else
      var rc := Access(|v.mem|, Up(sp, 2), 4);
      if rc != Okay then Ran(rc, v)
      else
        var rc := Access(|v.mem|, sp, 2);
        if rc != Okay then Ran(rc, v)
        else
          WordFits(v.mem, Up(sp, 2), 4);
          var t := UpdateSr(v.regs.(a := v.regs.a[7 := Up(sp, 6)]), ToBits(Get(v.mem, sp, 2), 16));
          Ran(Okay, Vm(v.mem, t.(pc := Get(v.mem, Up(sp, 2), 4))))
  }

  lemma WordFits(mem: seq<byte>, at: nat, b: nat)
    requires at + b <= |mem| && b <= 4
    ensures Get(mem, at, b) < TWO32
  {
    LimbIsWord(mem[at..at + b], b);
  }

  // ----- when a delivery goes through

  /** The supervisor stack pointer, in use or not. */
  function Ssp(r: Regs): word32
    requires RegsOk(r)
  {
    if r.sr[SR_S] then r.a[7] else r.xsp
  }

  lemma StoreFirst(mem: seq<byte>, w: Store, ws: seq<Store>)
    ensures var rc := Access(|mem|, w.at, w.b);
            StoreAll(mem, [w] + ws) == if rc != Okay then Stored(rc, mem) else StoreAll(Put(mem, w.at, w.b, w.v), ws)
  {
    hide Put;
    assert ([w] + ws)[1..] == ws;
  }

  lemma StoreNone(mem: seq<byte>)
    ensures StoreAll(mem, []) == Stored(Okay, mem)
  {
  }

  /** What an extended frame has below the short one. */
  ghost function LongStores(sp: nat, e: Exc): seq<Store>
  {
    var lo := Down(sp, 8);
    if e.vector > M68KVEC_ADDR_ERROR then []
    else [Store(lo, 2, e.status)] + ([Store(Up(lo, 2), 4, e.fault)] + ([Store(Up(lo, 6), 2, e.opcode)] + []))
  }

  lemma FrameStores(sp: nat, pc: nat, sr: Sr, e: Exc)
    ensures Frame(sp, pc, sr, e) == [Store(Up(sp, 2), 4, pc)] + ([Store(sp, 2, Val(sr))] + LongStores(sp, e))
  {
    hide Val, Up, Down;
  }

  lemma UpTwo(sp: word32)
    ensures Up(sp, 2) == if sp + 2 < TWO32 then sp + 2 else sp + 2 - TWO32
  {
  }

  /** A short frame goes onto an even stack with room for six bytes, and only there. */
  lemma ShortFrame(mem: seq<byte>, sp: word32, pc: word32, sr: Sr, e: Exc)
    requires e.vector > M68KVEC_ADDR_ERROR && |mem| < TWO32
    ensures var w := StoreAll(mem, Frame(sp, pc, sr, e));
            && (w.rc == Okay <==> sp % 2 == 0 && sp + 6 <= |mem|)
            && (w.rc == Okay ==> w.mem == Put(Put(mem, sp + 2, 4, pc), sp, 2, Val(sr)))
  {
    hide Put, StoreAll, Val, Zeros, Frame, Up;
    FrameStores(sp, pc, sr, e);
    UpTwo(sp);
    var w1, w2 := Store(Up(sp, 2), 4, pc), Store(sp, 2, Val(sr));
    StoreFirst(mem, w1, [w2] + []);
    if Access(|mem|, w1.at, w1.b) == Okay {
      var mem1 := Put(mem, w1.at, w1.b, w1.v);
      StoreFirst(mem1, w2, []);
      if Access(|mem|, w2.at, w2.b) == Okay {
        StoreNone(Put(mem1, w2.at, w2.b, w2.v));
      }
    }
  }

  /** The user's stack pointer, in use or not. */
  function Usp(r: Regs): word32
    requires RegsOk(r)
  {
    if r.sr[SR_S] then r.xsp else r.a[7]
  }

  /** What memory holds once a short frame is on the stack. */
  function Framed(mem: seq<byte>, sp: nat, pc: nat, sr: Sr): (r: seq<byte>)
    requires sp + 6 <= |mem|
    ensures |r| == |mem|
  {
    Put(Put(mem, sp + 2, 4, pc), sp, 2, Val(sr))
  }

  /** Delivery with a short frame: goes through exactly if the vector can be read and
      the supervisor stack is even and has room, and then enters supervisor mode
      with the frame on that stack and everything else as it was. */
  lemma DeliverShort(v: Vm, e: Exc)
    requires VmOk(v) && ExcOk(e) && e.vector > M68KVEC_ADDR_ERROR
    ensures var r := Deliver(v, e);
            var ssp := Ssp(v.regs);
            && (r.rc == Okay <==> 4 * e.vector + 4 <= |v.mem| && ssp % 2 == 0 && 6 <= ssp <= |v.mem|)
            && (r.rc == Okay ==>
                  && r.vm.mem == Framed(v.mem, ssp - 6, v.regs.pc, v.regs.sr)
                  && r.vm.regs.a[7] == ssp - 6 && r.vm.regs.xsp == Usp(v.regs)
                  && r.vm.regs.sr == v.regs.sr[SR_S := true][SR_T := false]
                  && r.vm.regs.d == v.regs.d && r.vm.regs.a[..7] == v.regs.a[..7])
            && (r.rc != Okay ==> r.vm.regs == v.regs)
  {
    hide StoreAll, Frame, Put, Get;
    var sp := Down(Ssp(v.regs), 6);
    ShortFrame(v.mem, sp, v.regs.pc, v.regs.sr, e);
  }

  lemma {:induction false} NumberBack(bs: seq<byte>)
    ensures BeBytes(BeNumber(bs), |bs|) == bs
  {
    if bs != [] {
      var front, last := bs[..|bs| - 1], bs[|bs| - 1];
      NumberBack(front);
      assert BeNumber(bs) / 256 == BeNumber(front) && BeNumber(bs) % 256 == last;
    }
  }

  /** The handler is entered: a delivery that goes through, with either frame, leaves
      as program counter the four bytes of the vector, most significant first. */
  lemma DeliverEnters(v: Vm, e: Exc)
    requires VmOk(v) && ExcOk(e) && Deliver(v, e).rc == Okay
    ensures 4 * e.vector + 4 <= |v.mem|
    ensures BeBytes(Deliver(v, e).vm.regs.pc, 4) == v.mem[4 * e.vector..4 * e.vector + 4]
  {
    hide StoreAll, Frame, BeBytes, BeNumber;
    NumberBack(v.mem[4 * e.vector..4 * e.vector + 4]);
  }

  /** The stores below a short frame at sp, if there is room for them. */
  lemma LongFrame(mem: seq<byte>, sp: word32, e: Exc)
    requires e.vector <= M68KVEC_ADDR_ERROR && |mem| < TWO32 && sp % 2 == 0 && sp <= |mem|
    ensures StoreAll(mem, LongStores(sp, e)).rc == Okay <==> sp >= 8
    ensures sp >= 8 ==> StoreAll(mem, LongStores(sp, e)).mem == Longer(mem, sp, e)
  {
    hide *;
    var lo := Down(sp, 8);
    var w1, w2, w3 := Store(lo, 2, e.status), Store(Up(lo, 2), 4, e.fault), Store(Up(lo, 6), 2, e.opcode);
    LongIs(sp, e);
    Below(|mem|, sp, e.status, e.fault, e.opcode);
    StoreThree(mem, w1, w2, w3);
    if sp >= 8 {
      LongerIs(mem, sp, e);
    }
  }

  /** What an extended frame adds below the short one at sp. */
  function Longer(mem: seq<byte>, sp: nat, e: Exc): (r: seq<byte>)
    requires 8 <= sp <= |mem|
    ensures |r| == |mem|
  {
    Put(Put(Put(mem, sp - 8, 2, e.status), sp - 6, 4, e.fault), sp - 2, 2, e.opcode)
  }

  lemma LongerIs(mem: seq<byte>, sp: nat, e: Exc)
    requires 8 <= sp <= |mem|
    ensures Longer(mem, sp, e) == Put(Put(Put(mem, sp - 8, 2, e.status), sp - 6, 4, e.fault), sp - 2, 2, e.opcode)
  {
  }

  lemma StoreThree(mem: seq<byte>, w1: Store, w2: Store, w3: Store)
    ensures var w := StoreAll(mem, [w1] + ([w2] + ([w3] + [])));
            && (w.rc == Okay <==> Fits(|mem|, w1) && Fits(|mem|, w2) && Fits(|mem|, w3))
            && (w.rc == Okay ==> w.mem == Put(Put(Put(mem, w1.at, w1.b, w1.v), w2.at, w2.b, w2.v), w3.at, w3.b, w3.v))
  {
    hide Put, StoreAll;
    StoreFirst(mem, w1, [w2] + ([w3] + []));
    if Fits(|mem|, w1) {
      var mem1 := Put(mem, w1.at, w1.b, w1.v);
      StoreFirst(mem1, w2, [w3] + []);
      if Fits(|mem|, w2) {
        var mem2 := Put(mem1, w2.at, w2.b, w2.v);
        StoreFirst(mem2, w3, []);
        if Fits(|mem|, w3) {
          StoreNone(Put(mem2, w3.at, w3.b, w3.v));
        }
      }
    }
  }

  predicate Fits(size: nat, w: Store)
    ensures Fits(size, w) ==> w.at + w.b <= size
  {
    Access(size, w.at, w.b) == Okay
  }

  lemma LongIs(sp: word32, e: Exc)
    requires e.vector <= M68KVEC_ADDR_ERROR
    ensures var lo := Down(sp, 8);
            LongStores(sp, e)
            == [Store(lo, 2, e.status)] + ([Store(Up(lo, 2), 4, e.fault)] + ([Store(Up(lo, 6), 2, e.opcode)] + []))
  {
    hide Up, Down;
  }

  /** There is room below an even address from eight on, and nowhere else. */
  lemma Below(size: nat, sp: word32, a: nat, b: nat, c: nat)
    requires sp % 2 == 0 && sp <= size < TWO32
    ensures var lo := Down(sp, 8);
            && (sp >= 8 ==> lo == sp - 8 && Up(lo, 2) == sp - 6 && Up(lo, 6) == sp - 2)
            && (sp >= 8 <==> Fits(size, Store(lo, 2, a)) && Fits(size, Store(Up(lo, 2), 4, b)) && Fits(size, Store(Up(lo, 6), 2, c)))
  {
    Wrapped(sp);
  }

  lemma Wrapped(sp: word32)
    ensures Down(sp, 8) == if sp >= 8 then sp - 8 else sp - 8 + TWO32
    ensures Up(Down(sp, 8), 2) == if sp >= 6 then sp - 6 else sp - 6 + TWO32
    ensures Up(Down(sp, 8), 6) == if sp >= 2 then sp - 2 else sp - 2 + TWO32
  {
  }

  /** The frame of a bus or address error, from the top of the stack down: program
      counter, status register, opcode, faulting address and access status. */
  function LongBytes(pc: nat, sr: Sr, e: Exc): (bs: seq<byte>)
    ensures |bs| == 14
  {
    BeBytes(e.status, 2) + BeBytes(e.fault, 4) + BeBytes(e.opcode, 2) + BeBytes(Val(sr), 2) + BeBytes(pc, 4)
  }

  lemma LongFramed(mem: seq<byte>, sp: nat, pc: nat, sr: Sr, e: Exc)
    requires 8 <= sp && sp + 6 <= |mem|
    ensures Longer(Framed(mem, sp, pc, sr), sp, e) == mem[..sp - 8] + LongBytes(pc, sr, e) + mem[sp + 6..]
  {
    hide BeBytes, Val, Put;
    var f0 := Put(mem, sp + 2, 4, pc);
    var f := Framed(mem, sp, pc, sr);
    var m1 := Put(f, sp - 8, 2, e.status);
    var m2 := Put(m1, sp - 6, 4, e.fault);
    var m := Put(m2, sp - 2, 2, e.opcode);
    GetPut(mem, sp + 2, 4, pc);
    GetPut(f0, sp, 2, Val(sr));
    GetPut(f, sp - 8, 2, e.status);
    GetPut(m1, sp - 6, 4, e.fault);
    GetPut(m2, sp - 2, 2, e.opcode);
    assert m[..sp - 8] == mem[..sp - 8] && m[sp + 6..] == mem[sp + 6..];
    assert m[sp - 8..sp - 6] == m1[sp - 8..sp - 6] && m[sp - 6..sp - 2] == m2[sp - 6..sp - 2];
    assert m[sp..sp + 2] == f[sp..sp + 2] && m[sp + 2..sp + 6] == f0[sp + 2..sp + 6];
    SevenParts(m, sp - 8);
  }

  lemma SevenParts(m: seq<byte>, at: nat)
    requires at + 14 <= |m|
    ensures m == m[..at] + (m[at..at + 2] + m[at + 2..at + 6] + m[at + 6..at + 8] + m[at + 8..at + 10] + m[at + 10..at + 14]) + m[at + 14..]
  {
  }

  lemma DeliverExtended(v: Vm, e: Exc)
    requires VmOk(v) && ExcOk(e) && e.vector <= M68KVEC_ADDR_ERROR
    ensures var r := Deliver(v, e);
            var ssp := Ssp(v.regs);
            && (r.rc == Okay <==> 4 * e.vector + 4 <= |v.mem| && ssp % 2 == 0 && 14 <= ssp <= |v.mem|)
            && (r.rc == Okay ==>
                  && r.vm.mem == v.mem[..ssp - 14] + LongBytes(v.regs.pc, v.regs.sr, e) + v.mem[ssp..]
                  && r.vm.regs.a[7] == ssp - 14 && r.vm.regs.xsp == Usp(v.regs)
                  && r.vm.regs.sr == v.regs.sr[SR_S := true][SR_T := false]
                  && r.vm.regs.d == v.regs.d && r.vm.regs.a[..7] == v.regs.a[..7])
            && (r.rc != Okay ==> r.vm.regs == v.regs)
  {
    hide StoreAll, Frame, Put, Get, LongStores, LongBytes, Longer, Framed;
    var ssp := Ssp(v.regs);
    var sp := Down(ssp, 6);
    LongSplit(v.mem, sp, v.regs.pc, v.regs.sr, e);
    if ssp >= 6 && ssp % 2 == 0 && ssp <= |v.mem| {
      LongFrame(Framed(v.mem, sp, v.regs.pc, v.regs.sr), sp, e);
      if sp >= 8 {
        LongFramed(v.mem, sp, v.regs.pc, v.regs.sr, e);
      }
    }
  }

  /** An extended frame is a short one and what goes below it. */
  lemma LongSplit(mem: seq<byte>, sp: word32, pc: word32, sr: Sr, e: Exc)
    requires |mem| < TWO32
    ensures var w := StoreAll(mem, Frame(sp, pc, sr, e));
            && (w.rc == Okay ==> sp % 2 == 0 && sp + 6 <= |mem|)
            && (sp % 2 == 0 && sp + 6 <= |mem| ==> w == StoreAll(Framed(mem, sp, pc, sr), LongStores(sp, e)))
  {
    hide Put, StoreAll, Val, Frame, Up, LongStores;
    FrameStores(sp, pc, sr, e);
    UpTwo(sp);
    var w1, w2, long := Store(Up(sp, 2), 4, pc), Store(sp, 2, Val(sr)), LongStores(sp, e);
    StoreFirst(mem, w1, [w2] + long);
    if Access(|mem|, w1.at, w1.b) == Okay {
      StoreFirst(Put(mem, w1.at, w1.b, w1.v), w2, long);
    }
  }

  lemma FrameReads(mem: seq<byte>, sp: nat, pc: word32, sr: Sr)
    requires sp + 6 <= |mem|
    ensures var m := Framed(mem, sp, pc, sr);
            && Get(m, sp + 2, 4) == pc && ToBits(Get(m, sp, 2), 16) == sr
            && SameOutside(mem, m, sp, sp + 6)
  {
    hide Put, BeBytes, BeNumber, Val, ToBits, Zeros;
    var m1 := Put(mem, sp + 2, 4, pc);
    var m := Put(m1, sp, 2, Val(sr));
    GetPut(mem, sp + 2, 4, pc);
    GetPut(m1, sp, 2, Val(sr));
    assert m[sp + 2..sp + 6] == m1[sp + 2..sp + 6];
    BeBack(pc, 4);
    BeBack(Val(sr), 2);
    WordBound(sr);
    ToBitsVal(sr);
  }

  lemma WordBound(sr: Sr)
    ensures Val(sr) < 0x1_0000
  {
    hide Val;
    ValBound(sr);
    assert Pow2(4) == 16;
    assert Pow2(8) == 256;
    assert Pow2(12) == 4096;
  }

  /** Equal over a stretch, equal over every part of it. */
  lemma Within(a: seq<byte>, b: seq<byte>, lo: nat, hi: nat, i: nat, j: nat)
    requires lo <= i <= j <= hi <= |a| == |b| && a[lo..hi] == b[lo..hi]
    ensures a[i..j] == b[i..j]
  {
    SliceOfSlice(a, lo, hi, i - lo, j - lo);
    SliceOfSlice(b, lo, hi, i - lo, j - lo);
  }

  lemma Outside(a: seq<byte>, b: seq<byte>, lo: nat, hi: nat, i: nat, j: nat)
    requires SameOutside(a, b, lo, hi) && i <= j <= |a| && (j <= lo || hi <= i)
    ensures a[i..j] == b[i..j]
  {
  }

  /** What a handler may not disturb: its stack, the user's stack pointer, the mode
      and the frame it was entered with. */
  ghost predicate Handled(v: Vm, w: Vm)
    requires VmOk(v)
  {
    && VmOk(w) && |w.mem| == |v.mem|
    && w.regs.a[7] == v.regs.a[7] && w.regs.xsp == v.regs.xsp && w.regs.sr[SR_S]
    && var sp := v.regs.a[7];
       sp + 6 <= |v.mem| ==> w.mem[sp..sp + 6] == v.mem[sp..sp + 6]
  }

  /** Program counter, status register and both stack pointers are as before. */
  predicate Restored(v: Vm, u: Vm)
    requires VmOk(v) && VmOk(u)
  {
    u.regs.pc == v.regs.pc && u.regs.sr == v.regs.sr && u.regs.a[7] == v.regs.a[7] && u.regs.xsp == v.regs.xsp
  }

  /** Delivery from either mode, any handler, RTE: the interrupted program gets back
      its program counter, its status register and both stack pointers. */
  lemma DeliverThenRte(v: Vm, e: Exc, w: Vm)
    requires VmOk(v) && ExcOk(e) && e.vector > M68KVEC_ADDR_ERROR
    requires Deliver(v, e).rc == Okay && Handled(Deliver(v, e).vm, w)
    ensures Rte(w).rc == Okay && Restored(v, Rte(w).vm) && Rte(w).vm.mem == w.mem
  {
    hide Deliver, Framed, ToBits;
    var h := Deliver(v, e).vm;
    var sp := h.regs.a[7];
    DeliverShort(v, e);
    FrameReads(v.mem, sp, v.regs.pc, v.regs.sr);
    Within(w.mem, h.mem, sp, sp + 6, sp + 2, sp + 6);
    Within(w.mem, h.mem, sp, sp + 6, sp, sp + 2);
    SameGet(w.mem, h.mem, sp + 2, 4);
    SameGet(w.mem, h.mem, sp, 2);
    RteReads(w, v.regs.sr, v.regs.pc);
  }

  /** RTE on a frame in memory. */
  lemma RteReads(w: Vm, sr: Sr, pc: word32)
    requires VmOk(w) && w.regs.sr[SR_S] && w.regs.a[7] % 2 == 0 && w.regs.a[7] + 6 <= |w.mem|
    requires Get(w.mem, w.regs.a[7] + 2, 4) == pc && ToBits(Get(w.mem, w.regs.a[7], 2), 16) == sr
    ensures var u := Rte(w);
            && u.rc == Okay && u.vm.regs.pc == pc && u.vm.regs.sr == sr
            && Ssp(u.vm.regs) == w.regs.a[7] + 6 && Usp(u.vm.regs) == w.regs.xsp
  {
    hide Get, ToBits;
  }

  /** When RTE goes through, and what else it does: it is refused in user mode, an odd
      stack is an address error, and a frame that is not all in memory is not taken;
      then nothing changes. */
  lemma RteExact(v: Vm)
    requires VmOk(v)
    ensures var r := Rte(v);
            var sp := v.regs.a[7];
            && r.rc == (if !v.regs.sr[SR_S] then Privilege else if sp % 2 == 1 then AddressError
                        else if sp + 6 <= |v.mem| then Okay else Unmapped)
            && (r.rc != Okay ==> r.vm == v)
            && (r.rc == Okay ==>
                  && BeBytes(r.vm.regs.pc, 4) == v.mem[sp + 2..sp + 6] && ToBits(Get(v.mem, sp, 2), 16) == r.vm.regs.sr
                  && r.vm.regs.d == v.regs.d && r.vm.regs.a[..7] == v.regs.a[..7])
  {
    hide Get, ToBits, BeBytes, BeNumber;
    var sp := v.regs.a[7];
    UpTwo(sp);
    if sp + 6 <= |v.mem| {
      NumberBack(v.mem[sp + 2..sp + 6]);
      GetIs(v.mem, sp + 2, 4);
    }
  }

  lemma RteSsp(w: Vm)
    requires VmOk(w) && Rte(w).rc == Okay
    ensures Ssp(Rte(w).vm.regs) == Up(w.regs.a[7], 6)
  {
    hide Get, ToBits;
  }

  lemma EightTooFew(a: word32)
    ensures Up(Down(Down(a, 6), 8), 6) != a
  {
  }

  /** RTE straight after delivery restores the program exactly if the frame was a
      short one: of an extended frame it takes eight bytes too few. */
  lemma RestoredIffShort(v: Vm, e: Exc)
    requires VmOk(v) && ExcOk(e) && Deliver(v, e).rc == Okay && Rte(Deliver(v, e).vm).rc == Okay
    ensures Restored(v, Rte(Deliver(v, e).vm).vm) <==> e.vector > M68KVEC_ADDR_ERROR
  {
    hide StoreAll, Frame, Rte, Up, Down, Get;
    var h := Deliver(v, e).vm;
    if e.vector > M68KVEC_ADDR_ERROR {
      DeliverShort(v, e);
      DeliverThenRte(v, e, h);
    } else {
      RteSsp(h);
      EightTooFew(Ssp(v.regs));
      assert h.regs.a[7] == Down(Down(Ssp(v.regs), 6), 8);
    }
  }

  // ----- nested handlers

  /** What happens inside a handler: any amount of work, which leads to some other
      state, and further exceptions with their own handlers, each ended by RTE. */
  datatype Acts = End | Work(to: Vm, rest: Acts) | Trap(e: Exc, body: Acts, rest: Acts)

  ghost predicate ActsOk(acts: Acts)
  {
    match acts
    case End => true
    case Work(to, rest) => VmOk(to) && ActsOk(rest)
    case Trap(e, body, rest) => ExcOk(e) && ActsOk(body) && ActsOk(rest)
  }

  ghost function Run(v: Vm, acts: Acts): (r: Ran)
    requires VmOk(v) && ActsOk(acts)
    ensures VmOk(r.vm)
    decreases acts
  {
    match acts
    case End => Ran(Okay, v)
    case Work(to, rest) => Run(to, rest)
    case Trap(e, body, rest) =>
      var d := Deliver(v, e);
      if d.rc != Okay then d
      else
        var b := Run(d.vm, body);
        if b.rc != Okay then b
        else
          var u := Rte(b.vm);
          if u.rc != Okay then u else Run(u.vm, rest)
  }

  /** Work inside a handler leaves the frames on the stack alone, stays in supervisor
      mode and does not touch the user's stack pointer; it may use the stack below. */
  ghost predicate Quiet(v: Vm, to: Vm, floor: nat, top: nat)
  {
    && |to.mem| == |v.mem| && VmOk(to) && to.regs.sr[SR_S] && to.regs.xsp == v.regs.xsp
    && (floor <= top <= |v.mem| ==> to.mem[floor..top] == v.mem[floor..top])
  }

  /** A handler entered with its stack pointer at floor, with frames in floor..top:
      its work is quiet, its exceptions are delivered with short frames at or below
      floor and handled the same way, and it ends with its stack pointer at floor. */
  ghost predicate Tidy(v: Vm, acts: Acts, floor: nat, top: nat)
    requires VmOk(v) && ActsOk(acts)
    decreases acts
  {
    match acts
    case End => v.regs.a[7] == floor
    case Work(to, rest) => Quiet(v, to, floor, top) && Tidy(to, rest, floor, top)
    case Trap(e, body, rest) =>
      && e.vector > M68KVEC_ADDR_ERROR && v.regs.a[7] <= floor
      && var d := Deliver(v, e);
         && d.rc == Okay && Tidy(d.vm, body, d.vm.regs.a[7], top)
         && Tidy(Rte(Run(d.vm, body).vm).vm, rest, floor, top)
  }

  lemma {:induction false} TidyRuns(v: Vm, acts: Acts, floor: nat, top: nat)
    requires VmOk(v) && ActsOk(acts) && v.regs.sr[SR_S] && floor <= top <= |v.mem|
    requires Tidy(v, acts, floor, top)
    ensures var r := Run(v, acts);
            && r.rc == Okay && r.vm.regs.a[7] == floor && Quiet(v, r.vm, floor, top)
    decreases acts, 0
  {
    hide Deliver, Rte, Framed;
    match acts {
      case End =>
      case Work(to, rest) => TidyRuns(to, rest, floor, top);
      case Trap(e, body, rest) =>
        TrapIsQuiet(v, e, body, floor, top);
        var u := Rte(Run(Deliver(v, e).vm, body).vm).vm;
        TidyRuns(u, rest, floor, top);
    }
  }

  lemma {:induction false} TrapIsQuiet(v: Vm, e: Exc, body: Acts, floor: nat, top: nat)
    requires VmOk(v) && ExcOk(e) && ActsOk(body) && e.vector > M68KVEC_ADDR_ERROR && Deliver(v, e).rc == Okay
    requires v.regs.sr[SR_S] && v.regs.a[7] <= floor <= top <= |v.mem|
    requires Tidy(Deliver(v, e).vm, body, Deliver(v, e).vm.regs.a[7], top)
    ensures var b := Run(Deliver(v, e).vm, body);
            && b.rc == Okay && Rte(b.vm).rc == Okay && Restored(v, Rte(b.vm).vm) && Quiet(v, Rte(b.vm).vm, floor, top)
    decreases body, 2
  {
    hide Deliver, Rte, Framed, Run, Tidy;
    HandledBody(v, e, body, top);
    var h := Deliver(v, e).vm;
    var sp, b := h.regs.a[7], Run(h, body).vm;
    DeliverShort(v, e);
    DeliverThenRte(v, e, b);
    FrameReads(v.mem, sp, v.regs.pc, v.regs.sr);
    Outside(v.mem, h.mem, sp, sp + 6, floor, top);
    Within(b.mem, h.mem, sp, top, floor, top);
  }

  lemma {:induction false} HandledBody(v: Vm, e: Exc, body: Acts, top: nat)
    requires VmOk(v) && ExcOk(e) && ActsOk(body) && e.vector > M68KVEC_ADDR_ERROR && Deliver(v, e).rc == Okay
    requires Ssp(v.regs) <= top <= |v.mem|
    requires Tidy(Deliver(v, e).vm, body, Deliver(v, e).vm.regs.a[7], top)
    ensures var h := Deliver(v, e).vm;
            var b := Run(h, body);
            && b.rc == Okay && Handled(h, b.vm) && Quiet(h, b.vm, h.regs.a[7], top)
    decreases body, 1
  {
    hide Deliver, Rte, Framed, Run, Tidy;
    var h := Deliver(v, e).vm;
    DeliverShort(v, e);
    var sp := h.regs.a[7];
    TidyRuns(h, body, sp, top);
    var b := Run(h, body).vm;
    Within(b.mem, h.mem, sp, top, sp, sp + 6);
  }

  /** An exception out of any program, in either mode, with any properly nested
      exceptions inside its handler: the program gets back its program counter,
      status register and both stack pointers, and finds its stack untouched. */
  lemma NestedTraps(v: Vm, e: Exc, body: Acts, top: nat)
    requires VmOk(v) && ExcOk(e) && ActsOk(body) && e.vector > M68KVEC_ADDR_ERROR && Deliver(v, e).rc == Okay
    requires Ssp(v.regs) <= top <= |v.mem|
    requires Tidy(Deliver(v, e).vm, body, Deliver(v, e).vm.regs.a[7], top)
    ensures var r := Run(v, Trap(e, body, End));
            && r.rc == Okay && Restored(v, r.vm)
            && |r.vm.mem| == |v.mem| && r.vm.mem[Ssp(v.regs)..top] == v.mem[Ssp(v.regs)..top]
  {
    hide Deliver, Rte, Framed, Tidy;
    HandledBody(v, e, body, top);
    var h := Deliver(v, e).vm;
    var sp, b := h.regs.a[7], Run(h, body).vm;
    DeliverShort(v, e);
    DeliverThenRte(v, e, b);
    FrameReads(v.mem, sp, v.regs.pc, v.regs.sr);
    Outside(v.mem, h.mem, sp, sp + 6, sp + 6, top);
    Within(b.mem, h.mem, sp, top, sp + 6, top);
  }
}
