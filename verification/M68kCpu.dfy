/** The emulator's instructions on shadow registers and memory: multi-precision
    arithmetic, exceptions and RTE. */
module M68kCpu {
  import opened Bits
  import opened M68kArith
  import opened M68kMemory
  import opened M68kChain
  import opened M68kMemoryChain
  import opened M68kException

  function CcrOf(sr: Sr): Ccr
  {
    Ccr(sr[CC_X], sr[CC_N], sr[CC_Z], sr[CC_V], sr[CC_C])
  }

  function WithCcr(sr: Sr, f: Ccr): Sr
  {
    sr[CC_X := f.x][CC_N := f.n][CC_Z := f.z][CC_V := f.v][CC_C := f.c]
  }

  /** A register with its low part replaced. */
  function Merge(sz: Size, old_: word32, v: word32): (r: word32)
    ensures Low(sz, r) == Low(sz, v)
    ensures r / Modulus(sz) == old_ / Modulus(sz)
  {
    var m := Modulus(sz);
    LowFits(sz, old_, v);
    m * (old_ / m) + Low(sz, v)
  }

  lemma LowFits(sz: Size, w: word32, v: word32)
    ensures var m := Modulus(sz);
            var r := m * (w / m) + Low(sz, v);
            r < TWO32 && r % m == Low(sz, v) && r / m == w / m
  {
    var m := Modulus(sz);
    ModUnique(m * (w / m) + Low(sz, v), m, w / m, Low(sz, v));
    assert w == m * (w / m) + w % m;
  }

  function OpSize(op: Op): Size
  {
    if op.Binary? then op.sz else Byte
  }

  // ----- what the instructions do

  /** The register form. */
  function RegisterForm(op: Op, r: Regs, ry: nat, rx: nat): (t: Regs)
    requires RegsOk(r) && ry < 8 && rx < 8
    ensures RegsOk(t)
  {
    var o := Step(op, r.d[ry], r.d[rx], CcrOf(r.sr));
    r.(d := r.d[rx := Merge(OpSize(op), r.d[rx], o.val)], sr := WithCcr(r.sr, o.ccr))
  }

  lemma PlaceMerged(op: Op, w: word32, v: word32)
    ensures Place(op, Merge(OpSize(op), w, v)) == Place(op, v)
  {
    hide Merge, Dec;
  }

  /** Dy is added to Dx or taken away from it, with the extend flag; the flag says what
      is carried or borrowed.  Nothing changes but the low part of Dx and the flags. */
  lemma RegisterFormMeans(op: Op, r: Regs, ry: nat, rx: nat)
    requires RegsOk(r) && ry < 8 && rx < 8 && M68kChain.Operand(op, r.d[ry]) && M68kChain.Operand(op, r.d[rx])
    ensures var t := RegisterForm(op, r, ry, rx);
            var before, after, other := Place(op, r.d[rx]), Place(op, t.d[rx]), Place(op, r.d[ry]);
            && (op.sub ==> after + other + Int(r.sr[CC_X]) == before + Radix(op) * Int(t.sr[CC_X]))
            && (!op.sub ==> after + Radix(op) * Int(t.sr[CC_X]) == before + other + Int(r.sr[CC_X]))
            && t.d[rx] / Modulus(OpSize(op)) == r.d[rx] / Modulus(OpSize(op))
            && (t.sr[CC_C] <==> t.sr[CC_X]) && (t.sr[CC_Z] <==> r.sr[CC_Z] && after == 0)
            && (forall i | 0 <= i < 8 && i != rx :: t.d[i] == r.d[i])
            && t.a == r.a && t.pc == r.pc && t.xsp == r.xsp && t.sr[..CC_X] == r.sr[..CC_X]
  {
    hide Place, Radix, Step, Merge, M68kChain.Operand;
    StepPlace(op, r.d[ry], r.d[rx], CcrOf(r.sr));
    PlaceMerged(op, r.d[rx], Step(op, r.d[ry], r.d[rx], CcrOf(r.sr)).val);
  }

  /** The predecrementing form: source first, then destination. */
  function MemoryForm(op: Op, v: Vm, ry: nat, rx: nat): (r: Ran)
    requires VmOk(v) && ry < 8 && rx < 8
    ensures VmOk(r.vm) && |r.vm.mem| == |v.mem|
  {
    var b := OpBytes(op);
    var r1 := v.regs.(a := v.regs.a[ry := Down(v.regs.a[ry], b)]);
    var rc := Access(|v.mem|, r1.a[ry], b);
    if rc != Okay then Ran(rc, v)
    else
      var at := r1.a[ry];
      var r2 := r1.(a := r1.a[rx := Down(r1.a[rx], b)]);
      var rc := Access(|v.mem|, r2.a[rx], b);
      if rc != Okay then Ran(rc, v)
      else
        WordFits(v.mem, at, b);
        WordFits(v.mem, r2.a[rx], b);
        var o := Step(op, Get(v.mem, at, b), Get(v.mem, r2.a[rx], b), CcrOf(v.regs.sr));
        Ran(Okay, Vm(Put(v.mem, r2.a[rx], b, o.val), r2.(sr := WithCcr(v.regs.sr, o.ccr))))
  }

  /** With two different address registers this is one step of a chain in memory. */
  lemma MemoryFormIsStep(op: Op, v: Vm, ry: nat, rx: nat)
    requires VmOk(v) && ry < 8 && rx < 8 && ry != rx
    requires Reachable(Machine(v.mem, v.regs.a[ry], v.regs.a[rx], CcrOf(v.regs.sr)), OpBytes(op))
    ensures var r := MemoryForm(op, v, ry, rx);
            && r.rc == Okay
            && Machine(r.vm.mem, r.vm.regs.a[ry], r.vm.regs.a[rx], CcrOf(r.vm.regs.sr))
               == MemStep(op, Machine(v.mem, v.regs.a[ry], v.regs.a[rx], CcrOf(v.regs.sr)))
  {
    hide Step, Get, Put;
  }

  datatype Operand = Register(i: nat) | Memory(at: word32)

  /** Setting the flags and writing the result back to the operand it came from. */
  function WriteBack(v: Vm, dst: Operand, sz: Size, o: Outcome): (r: Ran)
    requires RegsOk(v.regs) && (dst.Register? ==> dst.i < 8)
    ensures RegsOk(r.vm.regs) && |r.vm.mem| == |v.mem|
  {
    var r := v.regs.(sr := WithCcr(v.regs.sr, o.ccr));
    match dst
    case Register(i) => Ran(Okay, Vm(v.mem, r.(d := r.d[i := Merge(sz, r.d[i], o.val)])))
    case Memory(at) =>
      var rc := Access(|v.mem|, at, Bytes(sz));
      Ran(rc, Vm(if rc == Okay then Put(v.mem, at, Bytes(sz), o.val) else v.mem, r))
  }

  /** What is written back and where: the low part of the register, or those bytes of
      memory, most significant first; and nothing else but the flags. */
  lemma WriteBackIs(v: Vm, dst: Operand, sz: Size, o: Outcome)
    requires RegsOk(v.regs) && (dst.Register? ==> dst.i < 8)
    ensures var r := WriteBack(v, dst, sz, o);
            && CcrOf(r.vm.regs.sr) == o.ccr && r.vm.regs.sr[..CC_X] == v.regs.sr[..CC_X]
            && r.vm.regs.a == v.regs.a && r.vm.regs.pc == v.regs.pc && r.vm.regs.xsp == v.regs.xsp
            && match dst
               case Register(i) =>
                 && r.rc == Okay && r.vm.mem == v.mem
                 && Low(sz, r.vm.regs.d[i]) == Low(sz, o.val)
                 && r.vm.regs.d[i] / Modulus(sz) == v.regs.d[i] / Modulus(sz)
                 && forall j | 0 <= j < 8 && j != i :: r.vm.regs.d[j] == v.regs.d[j]
               case Memory(at) =>
                 && r.vm.regs.d == v.regs.d && r.rc == Access(|v.mem|, at, Bytes(sz))
                 && (r.rc != Okay ==> r.vm.mem == v.mem)
                 && (r.rc == Okay ==> r.vm.mem[at..at + Bytes(sz)] == BeBytes(o.val, Bytes(sz))
                                      && SameOutside(v.mem, r.vm.mem, at, at + Bytes(sz)))
  {
    hide BeBytes, Low, Merge, Put;
    if dst.Memory? && Access(|v.mem|, dst.at, Bytes(sz)) == Okay {
      GetPut(v.mem, dst.at, Bytes(sz), o.val);
    }
  }

  /** Written back twice, the second outcome remains. */
  lemma WriteBackTwice(v: Vm, dst: Operand, sz: Size, o1: Outcome, o2: Outcome)
    requires RegsOk(v.regs) && (dst.Register? ==> dst.i < 8)
    ensures WriteBack(WriteBack(v, dst, sz, o1).vm, dst, sz, o2) == WriteBack(v, dst, sz, o2)
  {
    hide BeBytes, Low;
    if dst.Memory? && Access(|v.mem|, dst.at, Bytes(sz)) == Okay {
      PutTwice(v.mem, dst.at, Bytes(sz), o1.val, o2.val);
    }
    if dst.Register? {
      assert Merge(sz, Merge(sz, v.regs.d[dst.i], o1.val), o2.val) == Merge(sz, v.regs.d[dst.i], o2.val);
    }
  }

  /** Carry, overflow and extend of an earlier step kept. */
  function Accumulated(sr: Sr, sr2: Sr): Sr
  {
    sr[CC_X := sr[CC_X] || sr2[CC_X]][CC_V := sr[CC_V] || sr2[CC_V]][CC_C := sr[CC_C] || sr2[CC_C]]
  }

  /** The status register after the two steps and the last correction of Z. */
  lemma ExtendedSr(sub: bool, sz: Size, s: word32, d: word32, sr: Sr)
    ensures var a := AddOrSub(sub, sz, s, d);
            var t := AddOrSub(sub, sz, 1, a.val);
            var sr1 := WithCcr(sr, a.ccr);
            var sr2 := if sr[CC_X] then Accumulated(WithCcr(sr, t.ccr), sr1) else sr1;
            var x := Extended(sub, sz, s, d, CcrOf(sr));
            && WithCcr(sr, x.ccr) == (if sr2[CC_Z] && !sr[CC_Z] then sr2[CC_Z := false] else sr2)
            && x.val == if sr[CC_X] then t.val else a.val
  {
    hide AddOrSub;
  }

  /** Flags and value of an outcome are stored independently. */
  lemma FlagsApart(v: Vm, dst: Operand, sz: Size, o: Outcome, x: Outcome)
    requires RegsOk(v.regs) && (dst.Register? ==> dst.i < 8)
    ensures var r := WriteBack(v, dst, sz, o);
            && r.vm.regs.sr == WithCcr(v.regs.sr, o.ccr)
            && WriteBack(v, dst, sz, x).rc == r.rc && (r.rc != Okay ==> r.vm.mem == v.mem)
            && (x.val == o.val ==> WriteBack(v, dst, sz, x).vm == Vm(r.vm.mem, r.vm.regs.(sr := WithCcr(v.regs.sr, x.ccr))))
  {
    hide WithCcr, Merge, Put;
  }

  lemma PutTwice(mem: seq<byte>, at: nat, b: nat, v: nat, w: nat)
    requires at + b <= |mem|
    ensures Put(Put(mem, at, b, v), at, b, w) == Put(mem, at, b, w)
  {
    hide BeBytes;
  }

  class Cpu {
    const mem: array<byte>
    /** The registers, and the copy an instruction works on. */
    var regs: Regs
    var sh: Regs
    var opSz: Size
    var operand: Operand
    var val: word32

    ghost predicate Valid()
      reads this
    {
      mem.Length < TWO32 && RegsOk(regs) && RegsOk(sh) && (operand.Register? ==> operand.i < 8)
    }

    /** Memory with the registers written back, and with those an instruction works on. */
    ghost function State(): Vm
      reads this, mem
    {
      Vm(mem[..], regs)
    }

    ghost function Shadow(): Vm
      reads this, mem
    {
      Vm(mem[..], sh)
    }

    method Read(at: word32, b: nat) returns (rc: Rc, v: word32)
      requires Valid() && (b == 1 || b == 2 || b == 4)
      ensures rc == Access(mem.Length, at, b)
      ensures rc == Okay ==> v == Get(mem[..], at, b)
    {
      rc, v := Access(mem.Length, at, b), 0;
      if rc == Okay {
        if b == 1 {
          v := mem[at];
        } else if b == 2 {
          v := mem[at] as nat * 0x100 + mem[at + 1];
        } else {
          v := mem[at] as nat * 0x100_0000 + mem[at + 1] as nat * 0x1_0000 + mem[at + 2] as nat * 0x100 + mem[at + 3];
        }
        Assembled(mem[..], at, b);
      }
    }

    method Write(at: word32, v: word32, b: nat) returns (rc: Rc)
      requires Valid() && (b == 1 || b == 2 || b == 4)
      modifies mem
      ensures rc == Access(mem.Length, at, b)
      ensures mem[..] == if rc == Okay then Put(old(mem[..]), at, b, v) else old(mem[..])
    {
      rc := Access(mem.Length, at, b);
      if rc == Okay {
        Taken(mem[..], at, b, v);
        if b == 1 {
          mem[at] := v % 0x100;
        } else if b == 2 {
          mem[at], mem[at + 1] := v / 0x100 % 0x100, v % 0x100;
        } else {
          mem[at], mem[at + 1] := v / 0x100_0000, v / 0x1_0000 % 0x100;
          mem[at + 2], mem[at + 3] := v / 0x100 % 0x100, v % 0x100;
        }
      }
    }

    method ReadEa() returns (rc: Rc)
      requires Valid()
      modifies this`val
      ensures match operand
              case Register(i) => rc == Okay && val == Low(opSz, sh.d[i])
              case Memory(at) => rc == Access(mem.Length, at, Bytes(opSz)) && (rc == Okay ==> val == Get(mem[..], at, Bytes(opSz)))
    {
      match operand {
        case Register(i) =>
          rc, val := Okay, sh.d[i] % Modulus(opSz);
        case Memory(at) =>
          var v;
          rc, v := Read(at, Bytes(opSz));
          val := v;
      }
    }

    method WriteEa() returns (rc: Rc)
      requires Valid()
      modifies this`sh, mem
      ensures Valid()
      ensures match operand
              case Register(i) => rc == Okay && mem[..] == old(mem[..])
                                  && sh == old(sh).(d := old(sh).d[i := Merge(opSz, old(sh).d[i], val)])
              case Memory(at) => rc == Access(mem.Length, at, Bytes(opSz)) && sh == old(sh)
                                 && mem[..] == if rc == Okay then Put(old(mem[..]), at, Bytes(opSz), val) else old(mem[..])
    {
      match operand {
        case Register(i) =>
          rc := Okay;
          sh := sh.(d := sh.d[i := Merge(opSz, sh.d[i], val)]);
        case Memory(at) =>
          rc := Write(at, val, Bytes(opSz));
      }
    }

    /** _op_sub: all flags but X. */
    method SubFlags(s: word32, d: word32) returns (r: word32)
      requires Valid()
      modifies this`sh
      ensures Valid() && r == Sub(opSz, s, d).val
      ensures sh == old(sh).(sr := WithCcr(old(sh).sr, Sub(opSz, s, d).ccr.(x := old(sh).sr[CC_X])))
    {
      hide Msb, Low;
      r := (d - s) % TWO32;
      var sr := sh.sr[CC_N := false][CC_Z := false][CC_V := false][CC_C := false];
      if Msb(opSz, r) {
        sr := sr[CC_N := true];
      }
      if Low(opSz, r) == 0 {
        sr := sr[CC_Z := true];
      }
      if Msb(opSz, s) != Msb(opSz, d) && Msb(opSz, d) != Msb(opSz, r) {
        sr := sr[CC_V := true];
      }
      if (Msb(opSz, s) && !Msb(opSz, d)) || (Msb(opSz, r) && !Msb(opSz, d)) || (Msb(opSz, s) && Msb(opSz, r)) {
        sr := sr[CC_C := true];
      }
      sh := sh.(sr := sr);
    }

    /** op_cmp: flags as after a subtraction, X and all operands left alone. */
    method OpCmp(s: word32, d: word32)
      requires Valid()
      modifies this`sh
      ensures Valid()
      ensures sh == old(sh).(sr := WithCcr(old(sh).sr, Sub(opSz, s, d).ccr.(x := old(sh).sr[CC_X])))
    {
      var _ := SubFlags(s, d);
    }

    method OpSub(s: word32) returns (rc: Rc)
      requires Valid()
      modifies this`sh, this`val, mem
      ensures Valid() && val == Sub(opSz, s, old(val)).val
      ensures Ran(rc, Shadow()) == WriteBack(old(Shadow()), operand, opSz, Sub(opSz, s, old(val)))
    {
      hide Msb, Low;
      var r := SubFlags(s, val);
      val := r;
      sh := sh.(sr := sh.sr[CC_X := false]);
      if sh.sr[CC_C] {
        sh := sh.(sr := sh.sr[CC_X := true]);
      }
      rc := WriteEa();
    }

    method OpAdd(s: word32) returns (rc: Rc)
      requires Valid()
      modifies this`sh, this`val, mem
      ensures Valid() && val == Add(opSz, s, old(val)).val
      ensures Ran(rc, Shadow()) == WriteBack(old(Shadow()), operand, opSz, Add(opSz, s, old(val)))
    {
      hide Msb, Low;
      var d := val;
      var r := (d + s) % TWO32;
      var sr := sh.sr[CC_X := false][CC_N := false][CC_Z := false][CC_V := false][CC_C := false];
      if Msb(opSz, r) {
        sr := sr[CC_N := true];
      }
      if Low(opSz, r) == 0 {
        sr := sr[CC_Z := true];
      }
      if Msb(opSz, s) == Msb(opSz, d) && Msb(opSz, d) != Msb(opSz, r) {
        sr := sr[CC_V := true];
      }
      if (Msb(opSz, s) && Msb(opSz, d)) || (Msb(opSz, s) && !Msb(opSz, r)) || (Msb(opSz, d) && !Msb(opSz, r)) {
        sr := sr[CC_C := true][CC_X := true];
      }
      sh := sh.(sr := sr);
      val := r;
      rc := WriteEa();
    }

    /** The second half of ADDX and SUBX: the operand and the value are set up. */
    method Extend(sub: bool, op1: word32) returns (rc: Rc)
      requires Valid()
      modifies this`sh, this`val, mem
      ensures Valid()
      ensures rc == WriteBack(old(Shadow()), operand, opSz, Extended(sub, opSz, op1, old(val), CcrOf(old(sh).sr))).rc
      ensures rc == Okay ==>
              Shadow() == WriteBack(old(Shadow()), operand, opSz, Extended(sub, opSz, op1, old(val), CcrOf(old(sh).sr))).vm
      ensures rc != Okay ==> mem[..] == old(mem[..])
    {
      hide AddOrSub, Extended, WriteBack, WithCcr, CcrOf, Accumulated;
      ghost var v, d := Shadow(), val;
      ghost var a := AddOrSub(sub, opSz, op1, d);
      ghost var x := Extended(sub, opSz, op1, d, CcrOf(sh.sr));
      var sr := sh.sr;
      rc := AddSub(sub, op1);
      FlagsApart(v, operand, opSz, a, x);
      if rc != Okay {
        return;
      }
      if sr[CC_X] {
        var sr2 := sh.sr;
        rc := AddSub(sub, 1);
        WriteBackTwice(v, operand, opSz, a, AddOrSub(sub, opSz, 1, a.val));
        FlagsApart(v, operand, opSz, AddOrSub(sub, opSz, 1, a.val), x);
        sh := sh.(sr := Accumulated(sh.sr, sr2));
      }
      if sh.sr[CC_Z] && !sr[CC_Z] {
        sh := sh.(sr := sh.sr[CC_Z := false]);
      }
      ExtendedSr(sub, opSz, op1, d, sr);
    }

    method AddSub(sub: bool, s: word32) returns (rc: Rc)
      requires Valid()
      modifies this`sh, this`val, mem
      ensures Valid() && val == AddOrSub(sub, opSz, s, old(val)).val
      ensures Ran(rc, Shadow()) == WriteBack(old(Shadow()), operand, opSz, AddOrSub(sub, opSz, s, old(val)))
    {
      if sub {
        rc := OpSub(s);
      } else {
        rc := OpAdd(s);
      }
    }

    /** One predecremented operand. */
    method Predecrement(r: nat) returns (rc: Rc)
      requires Valid() && r < 8
      modifies this`sh, this`operand, this`val
      ensures Valid() && sh == old(sh).(a := old(sh).a[r := Down(old(sh).a[r], Bytes(opSz))])
      ensures operand == Memory(sh.a[r]) && rc == Access(mem.Length, sh.a[r], Bytes(opSz))
      ensures rc == Okay ==> val == Get(mem[..], sh.a[r], Bytes(opSz))
    {
      sh := sh.(a := sh.a[r := Down(sh.a[r], Bytes(opSz))]);
      operand := Memory(sh.a[r]);
      rc := ReadEa();
    }

    /** ADDX and SUBX. */
    method AddxSubx(sub: bool, sz: Size, memory: bool, ry: nat, rx: nat) returns (rc: Rc)
      requires Valid() && ry < 8 && rx < 8
      modifies this`sh, this`opSz, this`operand, this`val, mem
      ensures Valid()
      ensures !memory ==> rc == Okay && Shadow() == Vm(old(mem[..]), RegisterForm(Binary(sub, sz), old(sh), ry, rx))
      ensures memory ==> rc == MemoryForm(Binary(sub, sz), old(Shadow()), ry, rx).rc
      ensures memory && rc == Okay ==> Shadow() == MemoryForm(Binary(sub, sz), old(Shadow()), ry, rx).vm
      ensures rc != Okay ==> mem[..] == old(mem[..])
    {
      hide Extended, Get, Put, Merge;
      opSz := sz;
      var op1;
      if memory {
        rc := Predecrement(ry);
        if rc != Okay {
          return;
        }
        op1 := val;
        rc := Predecrement(rx);
        if rc != Okay {
          return;
        }
      } else {
        op1 := sh.d[ry];
        operand, val := Register(rx), sh.d[rx];
      }
      rc := Extend(sub, op1);
    }

    /** ABCD and SBCD. */
    method AbcdSbcd(sub: bool, memory: bool, ry: nat, rx: nat) returns (rc: Rc)
      requires Valid() && ry < 8 && rx < 8
      modifies this`sh, this`opSz, this`operand, this`val, mem
      ensures Valid()
      ensures !memory ==> rc == Okay && Shadow() == Vm(old(mem[..]), RegisterForm(Packed(sub), old(sh), ry, rx))
      ensures memory ==> rc == MemoryForm(Packed(sub), old(Shadow()), ry, rx).rc
      ensures memory && rc == Okay ==> Shadow() == MemoryForm(Packed(sub), old(Shadow()), ry, rx).vm
      ensures rc != Okay ==> mem[..] == old(mem[..])
    {
      hide Get, Put, Merge, Or;
      opSz := Byte;
      var op1;
      if memory {
        rc := Predecrement(ry);
        if rc != Okay {
          return;
        }
        op1 := val % 0x100;
        rc := Predecrement(rx);
        if rc != Okay {
          return;
        }
      } else {
        op1 := sh.d[ry] % 0x100;
        operand, val := Register(rx), sh.d[rx];
      }
      rc := DigitByDigit(sub, op1);
    }

    /** One digit, in a byte that wraps around; a borrow shows in its sign bit. */
    static method OneDigit(sub: bool, a: nat, b: nat, x: bool) returns (digit: nat, out: bool)
      requires a < 16 && b < 16
      ensures (digit, out) == Digit(sub, a, b, x)
    {
      WrapsAround(Total(sub, b, a + Int(x)));
      if !sub {
        digit := (b + a + Int(x)) % 0x100;
        out := digit > 9;
        if out {
          digit := (digit - 10) % 0x100;
        }
      } else {
        digit := (b - a - Int(x)) % 0x100;
        out := digit >= 0x80;
        if out {
          digit := (digit + 10) % 0x100;
        }
      }
    }

    /** The second half of ABCD and SBCD. */
    method DigitByDigit(sub: bool, op1: nat) returns (rc: Rc)
      requires Valid() && op1 < 0x100
      modifies this`sh, this`val, mem
      ensures Valid()
      ensures rc == WriteBack(old(Shadow()), operand, opSz, Decimal(sub, op1, old(val) % 0x100, CcrOf(old(sh).sr))).rc
      ensures rc == Okay ==>
              Shadow() == WriteBack(old(Shadow()), operand, opSz, Decimal(sub, op1, old(val) % 0x100, CcrOf(old(sh).sr))).vm
      ensures rc != Okay ==> mem[..] == old(mem[..])
    {
      hide Get, Put, Merge, Or, Digit, Decimal, WithCcr, CcrOf;
      DecimalSr(sub, op1, val % 0x100, sh.sr);
      var op2 := val % 0x100;
      var digit0, x := OneDigit(sub, op1 % 16, op2 % 16, sh.sr[CC_X]);
      var digit1;
      digit1, x := OneDigit(sub, op1 / 16, op2 / 16, x);
      val := Or(16 * digit1, digit0) % 0x100;
      rc := WriteEa();
      if rc != Okay {
        return;
      }
      sh := sh.(sr := sh.sr[CC_X := false][CC_C := false]);
      if x {
        sh := sh.(sr := sh.sr[CC_X := true][CC_C := true]);
      }
      if val != 0 {
        sh := sh.(sr := sh.sr[CC_Z := false]);
      }
    }

    /** update_sr. */
    method ChangeSr(sr: Sr)
      requires Valid()
      modifies this`sh
      ensures Valid() && sh == UpdateSr(old(sh), sr)
    {
      if sh.sr[SR_S] != sr[SR_S] {
        var xsp := sh.a[7];
        sh := sh.(a := sh.a[7 := sh.xsp]);
        sh := sh.(xsp := xsp);
      }
      sh := sh.(sr := sr);
    }

    /** One store below the stack pointer; what is left to store is ws. */
    method StoreNext(at: word32, v: word32, b: nat, ghost ws: seq<Store>, ghost goal: Stored) returns (rc: Rc)
      requires Valid() && (b == 1 || b == 2 || b == 4)
      requires StoreAll(mem[..], [Store(at, b, v)] + ws) == goal
      modifies mem
      ensures rc == Okay ==> StoreAll(mem[..], ws) == goal
      ensures rc != Okay ==> goal == Stored(rc, mem[..])
    {
      hide StoreAll, Put;
      StoreFirst(mem[..], Store(at, b, v), ws);
      rc := Write(at, v, b);
    }

    /** m68k_deliver_exception: works on a copy of the registers, which is written
        back only once the whole frame is on the stack. */
    method DeliverException(e: Exc) returns (rc: Rc)
      requires Valid() && ExcOk(e)
      modifies this`sh, this`regs, mem
      ensures Valid() && Ran(rc, State()) == Deliver(old(State()), e)
    {
      hide StoreAll, Get, Put, Val;
      ghost var v := State();
      var oldSr, oldPc := regs.sr, regs.pc;
      sh := regs;
      ChangeSr(oldSr[SR_S := true][SR_T := false]);
      ghost var sp := Down(sh.a[7], 6);
      ghost var goal := StoreAll(mem[..], Frame(sp, oldPc, oldSr, e));
      var pc;
      rc, pc := Read(4 * e.vector, 4);
      if rc != Okay {
        return;
      }
      sh := sh.(pc := pc);
      sh := sh.(a := sh.a[7 := Down(sh.a[7], 6)]);
      FrameStores(sp, oldPc, oldSr, e);
      ghost var long := LongStores(sp, e);
      WordBound(oldSr);
      rc := StoreNext(Up(sh.a[7], 2), oldPc, 4, [Store(sp, 2, Val(oldSr))] + long, goal);
      if rc != Okay {
        return;
      }
      rc := StoreNext(sh.a[7], Val(oldSr), 2, long, goal);
      if rc != Okay {
        return;
      }
      if e.vector <= M68KVEC_ADDR_ERROR {
        sh := sh.(a := sh.a[7 := Down(sh.a[7], 8)]);
        ghost var lo := Down(sp, 8);
        rc := StoreNext(sh.a[7], e.status, 2, [Store(Up(lo, 2), 4, e.fault)] + ([Store(Up(lo, 6), 2, e.opcode)] + []), goal);
        if rc != Okay {
          return;
        }
        rc := StoreNext(Up(sh.a[7], 2), e.fault, 4, [Store(Up(lo, 6), 2, e.opcode)] + [], goal);
        if rc != Okay {
          return;
        }
        rc := StoreNext(Up(sh.a[7], 6), e.opcode, 2, [], goal);
        if rc != Okay {
          return;
        }
      }
      StoreNone(mem[..]);
      regs := sh;
    }

    /** RTE. */
    method ReturnFromException() returns (rc: Rc)
      requires Valid()
      modifies this`sh
      ensures Valid() && rc == Rte(old(Shadow())).rc
      ensures rc == Okay ==> Shadow() == Rte(old(Shadow())).vm
    {
      hide Get, ToBits;
      if !sh.sr[SR_S] {
        return Privilege;
      }
      var pc, sr;
      rc, pc := Read(Up(sh.a[7], 2), 4);
      if rc != Okay {
        return;
      }
      rc, sr := Read(sh.a[7], 2);
      if rc != Okay {
        return;
      }
      sh := sh.(a := sh.a[7 := Up(sh.a[7], 6)]);
      ChangeSr(ToBits(sr, 16));
      sh := sh.(pc := pc);
    }
  }

  /** The status register after ABCD or SBCD. */
  lemma DecimalSr(sub: bool, op1: nat, op2: nat, sr: Sr)
    requires op1 < 0x100 && op2 < 0x100
    ensures var o := Decimal(sub, op1, op2, CcrOf(sr));
            var (digit0, x0) := Digit(sub, op1 % 16, op2 % 16, sr[CC_X]);
            var (digit1, x1) := Digit(sub, op1 / 16, op2 / 16, x0);
            var s0 := sr[CC_X := false][CC_C := false];
            var s1 := if x1 then s0[CC_X := true][CC_C := true] else s0;
            && o.val == Or(16 * digit1, digit0) % 0x100
            && WithCcr(sr, o.ccr) == if o.val != 0 then s1[CC_Z := false] else s1
  {
    hide Or, Digit;
  }

  lemma WrapsAround(t: int)
    requires -16 <= t < 0x80
    ensures t % 0x100 == if t < 0 then t + 0x100 else t
    ensures (t % 0x100 + 10) % 0x100 == (t + 10) % 0x100
  {
  }

  lemma Assembled(mem: seq<byte>, at: nat, b: nat)
    requires at + b <= |mem| && (b == 1 || b == 2 || b == 4)
    ensures Get(mem, at, b) == if b == 1 then mem[at] else if b == 2 then mem[at] as nat * 0x100 + mem[at + 1]
                               else mem[at] as nat * 0x100_0000 + mem[at + 1] as nat * 0x1_0000 + mem[at + 2] as nat * 0x100 + mem[at + 3]
  {
    hide BeNumber;
    var s := mem[at..at + b];
    LastByte(s);
    if b > 1 {
      LastByte(s[..b - 1]);
    }
    if b > 2 {
      assert s[..3][..2] == s[..2] && s[..2][..1] == s[..1];
      LastByte(s[..2]);
      LastByte(s[..1]);
    }
    NoBytes();
  }

  lemma LastByte(bs: seq<byte>)
    requires bs != []
    ensures BeNumber(bs) == 256 * BeNumber(bs[..|bs| - 1]) + bs[|bs| - 1]
  {
  }

  lemma NoBytes()
    ensures BeNumber([]) == 0
  {
  }

  lemma Taken(mem: seq<byte>, at: nat, b: nat, v: word32)
    requires at + b <= |mem| && (b == 1 || b == 2 || b == 4)
    ensures Put(mem, at, b, v)
         == if b == 1 then mem[at := v % 0x100]
            else if b == 2 then mem[at := v / 0x100 % 0x100][at + 1 := v % 0x100]
            else mem[at := v / 0x100_0000][at + 1 := v / 0x1_0000 % 0x100][at + 2 := v / 0x100 % 0x100][at + 3 := v % 0x100]
  {
    hide BeBytes;
    TakenBytes(v);
  }

  lemma TakenBytes(v: word32)
    ensures BeBytes(v, 1) == [v % 0x100]
    ensures BeBytes(v, 2) == [v / 0x100 % 0x100, v % 0x100]
    ensures BeBytes(v, 4) == [v / 0x100_0000, v / 0x1_0000 % 0x100, v / 0x100 % 0x100, v % 0x100]
  {
    hide BeBytes;
    OneByte(v);
    TwoBytes(v);
    TwoBytes(v / 256 / 256);
    LowByte(v, 4);
    LowByte(v / 256, 3);
    DivTwice(v, 256);
    DivTwice(v, 0x1_0000);
    DivTwice(v / 256, 256);
    TopByte(v);
  }

  lemma TopByte(v: word32)
    ensures v / 0x100_0000 % 0x100 == v / 0x100_0000
  {
  }

  lemma OneByte(v: nat)
    ensures BeBytes(v, 1) == [v % 0x100]
  {
    LowByte(v, 1);
    NoneTaken(v / 256);
  }

  lemma TwoBytes(v: nat)
    ensures BeBytes(v, 2) == [v / 0x100 % 0x100, v % 0x100]
  {
    LowByte(v, 2);
    OneByte(v / 256);
  }

  lemma DivTwice(v: nat, m: nat)
    requires m > 0
    ensures v / 256 / m == v / (256 * m)
  {
    var q, r := v / 256, v % 256;
    var a, c := q / m, q % m;
    assert v == 256 * (a * m + c) + r;
    Worthy(a, m);
    ModUnique(v, 256 * m, a, 256 * c + r);
  }

  lemma LowByte(v: nat, b: nat)
    requires b > 0
    ensures BeBytes(v, b) == BeBytes(v / 256, b - 1) + [v % 256]
  {
  }

  lemma NoneTaken(v: nat)
    ensures BeBytes(v, 0) == []
  {
  }
}
