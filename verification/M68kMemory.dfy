/** Memory as the processor sees it: numbers stored most significant byte first. */
module M68kMemory {
  import opened Bits
  import opened M68kArith

  function Power(r: nat, n: nat): (p: nat)
    ensures r > 0 ==> p > 0
  {
    if n == 0 then 1 else Power(r, n - 1) * r
  }

  /** A limb, or a carry, worth p. */
  function Worth(v: nat, p: nat): nat
  {
    v * p
  }

  function BeBytes(v: nat, b: nat): (bs: seq<byte>)
    ensures |bs| == b
  {
    if b == 0 then [] else BeBytes(v / 256, b - 1) + [v % 256]
  }

  function BeNumber(bs: seq<byte>): nat
  {
    if bs == [] then 0 else 256 * BeNumber(bs[..|bs| - 1]) + bs[|bs| - 1]
  }

  function Get(mem: seq<byte>, at: nat, b: nat): nat
    requires at + b <= |mem|
  {
    BeNumber(mem[at..at + b])
  }

  function Put(mem: seq<byte>, at: nat, b: nat, v: nat): (r: seq<byte>)
    requires at + b <= |mem|
    ensures |r| == |mem|
  {
    mem[..at] + BeBytes(v, b) + mem[at + b..]
  }

  lemma BeBack(v: nat, b: nat)
    requires b == 1 || b == 2 || b == 4
    ensures BeNumber(BeBytes(v, b)) == v % (if b == 1 then 0x100 else if b == 2 then 0x1_0000 else TWO32)
  {
    hide BeNumber, BeBytes;
    var v1, v2, v3 := v / 256, v / 256 / 256, v / 256 / 256 / 256;
    BeStep(v, b);
    if b > 1 {
      BeStep(v1, b - 1);
    }
    if b == 4 {
      BeStep(v2, 2);
      BeStep(v3, 1);
    }
    BeNone(v1);
    BeNone(v2);
    BeNone(v3 / 256);
    ModStep(v, if b == 4 then 0x100_0000 else 0x100);
    ModStep(v1, 0x1_0000);
    ModStep(v2, 0x100);
  }

  lemma ModStep(v: nat, m: nat)
    requires m > 0
    ensures v % (256 * m) == 256 * (v / 256 % m) + v % 256
  {
    var q, r := v / 256, v % 256;
    var a, c := q / m, q % m;
    assert v == 256 * (a * m + c) + r;
    Worthy(a, m);
    ModUnique(v, 256 * m, a, 256 * c + r);
  }

  lemma Worthy(a: nat, m: nat)
    ensures 256 * (a * m) == a * (256 * m)
  {
  }

  lemma BeNone(v: nat)
    ensures BeNumber(BeBytes(v, 0)) == 0
  {
  }

  lemma BeStep(v: nat, b: nat)
    requires b > 0
    ensures BeNumber(BeBytes(v, b)) == 256 * BeNumber(BeBytes(v / 256, b - 1)) + v % 256
  {
  }

  lemma {:induction false} BeBound(bs: seq<byte>)
    ensures BeNumber(bs) < Power(256, |bs|)
  {
    if bs != [] {
      BeBound(bs[..|bs| - 1]);
    }
  }

  lemma GetPut(mem: seq<byte>, at: nat, b: nat, v: nat)
    requires at + b <= |mem|
    ensures Put(mem, at, b, v)[at..at + b] == BeBytes(v, b)
    ensures forall k | 0 <= k < |mem| && !(at <= k < at + b) :: Put(mem, at, b, v)[k] == mem[k]
  {
  }

  lemma LimbIsWord(bs: seq<byte>, b: nat)
    requires |bs| == b && b <= 4
    ensures BeNumber(bs) < TWO32
  {
    BeBound(bs);
    assert Power(256, 4) == TWO32 && Power(256, 3) == 0x100_0000 && Power(256, 2) == 0x1_0000 && Power(256, 1) == 0x100;
  }

  lemma SameGet(mem: seq<byte>, mem': seq<byte>, at: nat, b: nat)
    requires at + b <= |mem| == |mem'| && mem[at..at + b] == mem'[at..at + b]
    ensures Get(mem, at, b) == Get(mem', at, b)
  {
  }

  lemma GetIs(mem: seq<byte>, at: nat, b: nat)
    requires at + b <= |mem|
    ensures Get(mem, at, b) == BeNumber(mem[at..at + b])
  {
  }

  /** Nothing differs outside lo..hi. */
  ghost predicate SameOutside(mem: seq<byte>, mem': seq<byte>, lo: int, hi: int)
  {
    |mem| == |mem'| && forall k | 0 <= k < |mem| && !(lo <= k < hi) :: mem'[k] == mem[k]
  }

  lemma GetOutside(mem: seq<byte>, mem': seq<byte>, lo: nat, hi: nat, at: nat, b: nat)
    requires SameOutside(mem, mem', lo, hi) && at + b <= |mem| && (at + b <= lo || hi <= at)
    ensures Get(mem, at, b) == Get(mem', at, b)
  {
    assert mem[at..at + b] == mem'[at..at + b];
  }

  lemma PutOutside(mem: seq<byte>, q: seq<byte>, lo: nat, b: nat, hi: nat, v: nat)
    requires SameOutside(mem, q, lo + b, hi) && lo + b <= hi <= |mem|
    ensures SameOutside(mem, Put(q, lo, b, v), lo, hi)
    ensures Put(q, lo, b, v)[lo + b..hi] == q[lo + b..hi]
  {
    hide BeBytes;
  }

  lemma {:induction false} BeAppend(hi: seq<byte>, lo: seq<byte>)
    ensures BeNumber(hi + lo) == Worth(BeNumber(hi), Power(256, |lo|)) + BeNumber(lo)
  {
    if lo == [] {
      assert hi + lo == hi;
    } else {
      var n := |lo| - 1;
      assert (hi + lo)[..|hi + lo| - 1] == hi + lo[..n];
      BeAppend(hi, lo[..n]);
      var p := Power(256, n);
      assert 256 * (BeNumber(hi) * p) == BeNumber(hi) * (p * 256);
    }
  }

  lemma FourMore(k: nat)
    ensures Power(256, k + 1) == Power(256, k) * 0x100
    ensures Power(256, k + 2) == Power(256, k) * 0x1_0000
    ensures Power(256, k + 4) == Power(256, k) * TWO32
  {
    assert Power(256, k + 2) == Power(256, k + 1) * 256;
    assert Power(256, k + 3) == Power(256, k + 2) * 256;
  }
}
