/** The classic BPF machine, cut down to the instructions that scamper's
    datalink filter uses: absolute and indexed loads, the IPv4 header length
    load, a right shift, four conditional jumps and the return instruction. */
module BpfMachine {
  import opened Wrappers

  type byte = b: int | 0 <= b < 256

  datatype Size = Byte | Half | Word

  datatype Code =
    | LdAbs(size: Size)
    | LdInd(size: Size)
    | LdxMsh
    | Rsh
    | Jeq
    | Jge
    | Jgt
    | Jset
    | Ret

  datatype Insn = Insn(code: Code, jt: nat, jf: nat, k: nat)

  // What the kernel hands to the filter: the bytes of the frame, and beside
  // them the hardware type and protocol of a Linux cooked socket.
  datatype Frame = Frame(bytes: seq<byte>, hatype: nat, protocol: nat)

  // Linux answers loads at these negative offsets from the frame's metadata.
  const SKF_AD_OFF: nat := 0x1_0000_0000 - 0x1000
  const SKF_AD_PROTOCOL: nat := 0
  const SKF_AD_HATYPE: nat := 28

  function Half16(s: seq<byte>, i: nat): nat
    requires i + 2 <= |s|
  {
    256 * (s[i] as nat) + s[i + 1] as nat
  }

  function Word32(s: seq<byte>, i: nat): nat
    requires i + 4 <= |s|
  {
    0x1_0000 * Half16(s, i) + Half16(s, i + 2)
  }

  /** A load of the given width; a load that leaves the frame gives None. */
  function Load(f: Frame, at: nat, size: Size): Option<nat> {
    if at == SKF_AD_OFF + SKF_AD_PROTOCOL then Some(f.protocol)
    else if at == SKF_AD_OFF + SKF_AD_HATYPE then Some(f.hatype)
    else
      match size
      case Byte => if at < |f.bytes| then Some(f.bytes[at]) else None
      case Half => if at + 2 <= |f.bytes| then Some(Half16(f.bytes, at)) else None
      case Word => if at + 4 <= |f.bytes| then Some(Word32(f.bytes, at)) else None
  }

  function ShiftRight(a: nat, n: nat): nat {
    if n == 0 then a else ShiftRight(a / 2, n - 1)
  }

  function BitAnd(a: nat, b: nat): nat
    decreases a
  {
    if a == 0 || b == 0 then 0
    else (if a % 2 == 1 && b % 2 == 1 then 1 else 0) + 2 * BitAnd(a / 2, b / 2)
  }

  /** Whether a conditional jump takes its jt branch. */
  predicate Taken(i: Insn, a: nat) {
    match i.code
    case Jeq => a == i.k
    case Jge => a >= i.k
    case Jgt => a > i.k
    case Jset => BitAnd(a, i.k) != 0
    case _ => false
  }

  /** Runs the program from pc with accumulator a and index register x, and
      gives the number of bytes to keep: zero rejects the frame. A load
      outside the frame, or a pc outside the program, rejects it. */
  function Run(prog: seq<Insn>, pc: nat, a: nat, x: nat, f: Frame): nat
    decreases |prog| - pc
  {
    if pc >= |prog| then 0 else
    match prog[pc].code
    case LdAbs(size) => Continue(prog, pc, Load(f, prog[pc].k, size), x, f)
    case LdInd(size) => Continue(prog, pc, Load(f, x + prog[pc].k, size), x, f)
    case LdxMsh =>
      if prog[pc].k < |f.bytes| then Run(prog, pc + 1, a, 4 * (f.bytes[prog[pc].k] % 16), f) else 0
    case Rsh => Run(prog, pc + 1, ShiftRight(a, prog[pc].k), x, f)
    case Ret => prog[pc].k
    case _ => Run(prog, pc + 1 + (if Taken(prog[pc], a) then prog[pc].jt else prog[pc].jf), a, x, f)
  }

  function Continue(prog: seq<Insn>, pc: nat, loaded: Option<nat>, x: nat, f: Frame): nat
    requires pc < |prog|
    decreases |prog| - pc, 0
  {
    match loaded
    case None => 0
    case Some(v) => Run(prog, pc + 1, v, x, f)
  }

  predicate IsJump(c: Code) {
    c.Jeq? || c.Jge? || c.Jgt? || c.Jset?
  }

  /** The code occurs in the program at pc. */
  ghost predicate Holds(prog: seq<Insn>, pc: nat, code: seq<Insn>) {
    pc + |code| <= |prog| && forall i :: 0 <= i < |code| ==> prog[pc + i] == code[i]
  }

  lemma HoldsSplit(prog: seq<Insn>, pc: nat, first: seq<Insn>, second: seq<Insn>)
    requires Holds(prog, pc, first + second)
    ensures Holds(prog, pc, first)
    ensures Holds(prog, pc + |first|, second)
  {
    forall i | 0 <= i < |first|
      ensures prog[pc + i] == first[i]
    {
      assert (first + second)[i] == first[i];
    }
    forall i | 0 <= i < |second|
      ensures prog[pc + |first| + i] == second[i]
    {
      assert (first + second)[|first| + i] == second[i];
      assert prog[pc + (|first| + i)] == second[i];
    }
  }

  /** Masking with the low n bits is the remainder by their power of two. */
  lemma {:induction false} MaskIsRemainder(a: nat, n: nat)
    ensures BitAnd(a, Pow2(n) - 1) == a % Pow2(n)
    decreases n
  {
    if n == 0 {
      assert a % 1 == 0;
    } else if a == 0 {
      RemainderIs(0, Pow2(n), 0, 0);
    } else {
      var m := Pow2(n - 1);
      calc {
        BitAnd(a, 2 * m - 1);
        { MaskStep(a, m); }
        a % 2 + 2 * BitAnd(a / 2, m - 1);
        { MaskIsRemainder(a / 2, n - 1); }
        a % 2 + 2 * ((a / 2) % m);
        { HalveRemainder(a, m); }
        a % (2 * m);
      }
    }
  }

  lemma MaskStep(a: nat, m: nat)
    requires a > 0 && m > 0
    ensures BitAnd(a, 2 * m - 1) == a % 2 + 2 * BitAnd(a / 2, m - 1)
  {
    assert (2 * m - 1) / 2 == m - 1 && (2 * m - 1) % 2 == 1;
  }

  lemma HalveRemainder(a: nat, m: nat)
    requires m > 0
    ensures a % (2 * m) == a % 2 + 2 * ((a / 2) % m)
  {
    var q, r := (a / 2) / m, (a / 2) % m;
    assert a == (2 * m) * q + (2 * r + a % 2) by {
      assert a / 2 == m * q + r;
      assert (2 * m) * q == 2 * (m * q);
    }
    RemainderIs(a, 2 * m, q, 2 * r + a % 2);
  }

  lemma RemainderIs(a: int, d: int, q: int, r: int)
    requires a == d * q + r && 0 <= r < d
    ensures a % d == r && a / d == q
  {
    var p := a / d;
    assert a == d * p + a % d;
    assert d * (q - p) == a % d - r;
    if q != p {
      MulAtLeast(d, if q > p then q - p else p - q);
    }
  }

  lemma MulAtLeast(d: int, n: int)
    requires d > 0 && n >= 1
    ensures d * n >= d
  {
  }
}
