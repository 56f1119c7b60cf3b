/** The packet filter machine: its programs, the check they pass before they are run, and what running them can do. */
module BpfFilter {
  import opened Prelude
  import opened Bytes

  const WORD: nat := 0x1_0000_0000
  const MEMWORDS: nat := 16

  /** An instruction; `k` is a signed 32-bit number. */
  datatype Insn = Insn(code: nat, jt: Byte, jf: Byte, k: int)

  predicate IsInsn(i: Insn) { i.code < 0x1_0000 && -0x8000_0000 <= i.k < 0x8000_0000 }

  type Program = seq<Insn>

  predicate IsProgram(f: Program) {
    0 < |f| < 0x1_0000 && forall i :: 0 <= i < |f| ==> IsInsn(f[i])
  }

  // ----- what the codes stand for

  datatype Test = Gt | Ge | Eq | Set
  datatype Arith = Add | Sub | Mul | Div | And | Or | Lsh | Rsh

  datatype Op =
    | RetK | RetA
    | LdAbs(size: nat) | LdInd(size: nat) | LdLen | LdxLen | LdxMsh
    | LdImm | LdxImm | LdMem | LdxMem | St | Stx
    | Ja | Jump(test: Test, withX: bool)
    | Alu(arith: Arith, withX: bool) | Neg | Tax | Txa
    | Illegal

  function Decode(code: nat): (op: Op)
    ensures op.LdAbs? || op.LdInd? ==> op.size in {1, 2, 4}
  {
    if code == 0x06 then RetK else if code == 0x16 then RetA
    else if code == 0x20 then LdAbs(4) else if code == 0x28 then LdAbs(2) else if code == 0x30 then LdAbs(1)
    else if code == 0x40 then LdInd(4) else if code == 0x48 then LdInd(2) else if code == 0x50 then LdInd(1)
    else if code == 0x80 then LdLen else if code == 0x81 then LdxLen else if code == 0xb1 then LdxMsh
    else if code == 0x00 then LdImm else if code == 0x01 then LdxImm
    else if code == 0x60 then LdMem else if code == 0x61 then LdxMem else if code == 0x02 then St
    else if code == 0x03 then Stx
    else if code == 0x05 then Ja
    else if code == 0x25 then Jump(Gt, false) else if code == 0x35 then Jump(Ge, false)
    else if code == 0x15 then Jump(Eq, false) else if code == 0x45 then Jump(Set, false)
    else if code == 0x2d then Jump(Gt, true) else if code == 0x3d then Jump(Ge, true)
    else if code == 0x1d then Jump(Eq, true) else if code == 0x4d then Jump(Set, true)
    else DecodeRest(code)
  }

  function DecodeRest(code: nat): Op {
    if code == 0x0c then Alu(Add, true) else if code == 0x1c then Alu(Sub, true)
    else if code == 0x2c then Alu(Mul, true)
    else if code == 0x3c then Alu(Div, true) else if code == 0x4c then Alu(Or, true)
    else if code == 0x5c then Alu(And, true)
    else if code == 0x6c then Alu(Lsh, true) else if code == 0x7c then Alu(Rsh, true)
    else if code == 0x04 then Alu(Add, false) else if code == 0x14 then Alu(Sub, false)
    else if code == 0x24 then Alu(Mul, false)
    else if code == 0x34 then Alu(Div, false) else if code == 0x44 then Alu(Or, false)
    else if code == 0x54 then Alu(And, false)
    else if code == 0x64 then Alu(Lsh, false) else if code == 0x74 then Alu(Rsh, false)
    else if code == 0x84 then Neg else if code == 0x07 then Tax else if code == 0x87 then Txa
    else Illegal
  }

  // ----- one instruction

  datatype State = State(pc: nat, a: Long, x: Long, mem: seq<Long>)

  /** A state of the machine in the middle of a program. */
  predicate InProgram(f: Program, st: State) { st.pc < |f| && |st.mem| == MEMWORDS }

  /** The filter returns, goes on, or does something that has no meaning. */
  datatype Outcome = Return(v: Long) | Go(st: State) | Fault

  function Unsigned(k: int): Long { k % WORD }

  /** The bits that both numbers have, and those that one of them has. */
  function BitAnd(a: nat, b: nat): (r: nat)
    ensures r <= a
  {
    if a == 0 || b == 0 then 0 else 2 * BitAnd(a / 2, b / 2) + if a % 2 == 1 && b % 2 == 1 then 1 else 0
  }

  function BitOr(a: nat, b: nat): nat {
    if a == 0 then b
    else if b == 0 then a
    else 2 * BitOr(a / 2, b / 2) + if a % 2 == 1 || b % 2 == 1 then 1 else 0
  }

  lemma {:induction false} OrBound(a: nat, b: nat, k: nat)
    requires a < Pow2(k) && b < Pow2(k)
    ensures BitOr(a, b) < Pow2(k)
    decreases k
  {
    if a != 0 && b != 0 {
      OrBound(a / 2, b / 2, k - 1);
    }
  }

  lemma {:induction false} Pow2Sum(i: nat, j: nat)
    ensures Pow2(i + j) == Pow2(i) * Pow2(j)
  {
    if i == 0 {
      assert Pow2(0) == 1;
    } else {
      hide Pow2;
      Pow2Sum(i - 1, j);
      Pow2Next(i);
      Pow2Next(i + j);
      Doubled(Pow2(i - 1), Pow2(j));
    }
  }

  lemma Pow2Next(i: nat)
    requires i > 0
    ensures Pow2(i) == 2 * Pow2(i - 1)
  {
  }

  lemma Doubled(x: nat, y: nat)
    ensures (2 * x) * y == 2 * (x * y)
  {
  }

  lemma Pow2Word()
    ensures Pow2(32) == WORD
  {
    assert Pow2(2) == 4;
    Pow2Sum(2, 2);
    Pow2Sum(4, 4);
    Pow2Sum(8, 8);
    Pow2Sum(16, 16);
  }

  function WordOr(a: Long, b: Long): Long {
    Pow2Word();
    OrBound(a, b, 32);
    BitOr(a, b)
  }

  function Holds(t: Test, a: Long, b: Long): bool {
    match t
    case Gt => a > b
    case Ge => a >= b
    case Eq => a == b
    case Set => BitAnd(a, b) != 0
  }

  function Compute(op: Arith, a: Long, b: Long): Long
    requires op == Div ==> b != 0
  {
    match op
    case Add => (a + b) % WORD
    case Sub => (a - b) % WORD
    case Mul => a * b % WORD
    case Div => Quotient(a, b)
    case And => BitAnd(a, b)
    case Or => WordOr(a, b)
    case Lsh => a * Pow2(b) % WORD
    case Rsh => Quotient(a, Pow2(b))
  }

  function Quotient(a: Long, b: nat): Long
    requires b > 0
  {
    Smaller(a, b);
    a / b
  }

  lemma Smaller(a: nat, b: nat)
    requires b > 0
    ensures 0 <= a / b <= a
  {
    Parts(a / b, b, a % b);
  }

  lemma Parts(q: nat, b: nat, r: nat)
    requires b > 0
    ensures q <= q * b + r
  {
    assert q * (b - 1) >= 0;
  }

  /** The octets of a number in a packet, most significant first. */
  function Extract(p: seq<Byte>, k: nat, size: nat): Long
    requires size in {1, 2, 4} && k + size <= |p|
  {
    if size == 1 then p[k] else if size == 2 then W16(p, k) else W32(p, k)
  }

  function To(st: State, pc: nat): State { State(pc, st.a, st.x, st.mem) }
  function SetA(st: State, a: Long): Outcome { Go(State(st.pc + 1, a, st.x, st.mem)) }
  function SetX(st: State, x: Long): Outcome { Go(State(st.pc + 1, st.a, x, st.mem)) }

  /** A packet in memory, with the octets that happen to be in front of it. */
  datatype Capture = Capture(before: seq<Byte>, p: seq<Byte>)

  predicate IsCapture(c: Capture) { |c.before| == 4 && |c.p| < 0x8000_0000 }

  /**
   Whether a load passes the test of its bounds: the sum of offset and size is unsigned, so that an offset just below
   zero passes and the load begins in front of the packet. For a single octet the offset itself is compared.
   */
  predicate InBounds(k: int, size: nat, len: nat) {
    (0 <= k || (size > 1 && k + size >= 0)) && k + size <= len
  }

  /** A load from the packet; out of bounds the packet is rejected. */
  function Load(st: State, c: Capture, k: int, size: nat): Outcome
    requires size in {1, 2, 4} && IsCapture(c)
  {
    if InBounds(k, size, |c.p|) then SetA(st, Extract(c.before + c.p, k + 4, size)) else Return(0)
  }

  /** The test as it is made, on 32-bit numbers. */
  lemma BoundsTest(k: int, size: nat, len: nat)
    requires -0x8000_0000 <= k < 0x8000_0000 && size in {1, 2, 4} && len < 0x8000_0000
    ensures InBounds(k, size, len) <==> if size == 1 then Unsigned(k) < len else (Unsigned(k) + size) % WORD <= len
  {
  }

  /** What one instruction does to a packet whose original length is `wirelen`. */
  function Step(i: Insn, st: State, c: Capture, wirelen: Long): Outcome
    requires |st.mem| == MEMWORDS && IsCapture(c)
  {
    match Decode(i.code)
    case RetK => Return(Unsigned(i.k))
    case RetA => Return(st.a)
    case LdAbs(size) => Load(st, c, i.k, size)
    case LdInd(size) => Load(st, c, Index(st.x, i.k), size)
    case LdLen => SetA(st, wirelen)
    case LdxLen => SetX(st, wirelen)
    case LdxMsh => if InBounds(i.k, 1, |c.p|) then SetX(st, c.p[i.k] % 16 * 4) else Return(0)
    case LdImm => SetA(st, Unsigned(i.k))
    case LdxImm => SetX(st, Unsigned(i.k))
    case LdMem => if 0 <= i.k < MEMWORDS then SetA(st, st.mem[i.k]) else Fault
    case LdxMem => if 0 <= i.k < MEMWORDS then SetX(st, st.mem[i.k]) else Fault
    case St => if 0 <= i.k < MEMWORDS then Go(State(st.pc + 1, st.a, st.x, st.mem[i.k := st.a])) else Fault
    case Stx => if 0 <= i.k < MEMWORDS then Go(State(st.pc + 1, st.a, st.x, st.mem[i.k := st.x])) else Fault
    case Ja => if st.pc + 1 + i.k < 0 then Fault else Go(To(st, st.pc + 1 + i.k))
    case Jump(t, withX) =>
      Go(To(st, st.pc + 1 + if Holds(t, st.a, if withX then st.x else Unsigned(i.k)) then i.jt else i.jf))
    case Alu(op, withX) =>
      if withX then (if op == Div && st.x == 0 then Return(0) else SetA(st, Compute(op, st.a, st.x)))
      else if op == Div && Unsigned(i.k) == 0 then Fault
      else SetA(st, Compute(op, st.a, Unsigned(i.k)))
    case Neg => SetA(st, (0 - st.a) % WORD)
    case Tax => SetX(st, st.a)
    case Txa => SetA(st, st.x)
    case Illegal => Return(0)
  }

  /** The sum of index register and offset, as a signed number. */
  function Index(x: Long, k: int): int {
    var s := (x + k) % WORD;
    if s < WORD / 2 then s else s - WORD
  }

  // ----- the check

  function Class(code: nat): nat { code % 8 }
  function OpBits(code: nat): nat { code / 16 % 16 }
  function ModeBits(code: nat): nat { code / 32 % 8 }

  /** A signed 32-bit sum. */
  function Sum(a: int, b: int): int {
    var s := (a + b) % WORD;
    if s < WORD / 2 then s else s - WORD
  }

  /**
   What is required of each instruction: jumps stay within the program, stores and loads within the scratch memory.
   */
  predicate Passes(i: Insn, at: nat, len: nat) {
    && (Class(i.code) == 5 ==>
          if OpBits(i.code) == 0 then Sum(at + 1, i.k) < len else at + 1 + i.jt < len && at + 1 + i.jf < len)
    && (Class(i.code) == 2 || (Class(i.code) == 0 && ModeBits(i.code) == 3) ==> 0 <= i.k < MEMWORDS)
    && (i.code == 0x34 ==> i.k != 0)
  }

  predicate Accepted(f: Program) {
    0 < |f| && (forall i :: 0 <= i < |f| ==> Passes(f[i], i, |f|)) && Class(f[|f| - 1].code) == 6
  }

  /** The check decides exactly that. */
  method Validate(f: Program) returns (ok: bool)
    requires 0 < |f|
    ensures ok <==> Accepted(f)
  {
    var i := 0;
    while i < |f|
      invariant 0 <= i <= |f| && forall j :: 0 <= j < i ==> Passes(f[j], j, |f|)
    {
      var p := f[i];
      if Class(p.code) == 5 {
        var from := i + 1;
        if OpBits(p.code) == 0 {
          if Sum(from, p.k) >= |f| {
            return false;
          }
        } else if from + p.jt >= |f| || from + p.jf >= |f| {
          return false;
        }
      }
      if (Class(p.code) == 2 || (Class(p.code) == 0 && ModeBits(p.code) == 3)) && (p.k >= MEMWORDS || p.k < 0) {
        return false;
      }
      if p.code == 0x34 && p.k == 0 {
        return false;
      }
      i := i + 1;
    }
    return Class(f[|f| - 1].code) == 6;
  }

  // ----- what the check is worth

  /**
   What it leaves out: unconditional jumps must lead forward, and the index register has loads and stores of its own.
   */
  predicate AlsoFine(i: Insn, at: nat) {
    && (Decode(i.code) == Ja ==> 0 <= i.k && at + 1 + i.k < WORD / 2)
    && (Decode(i.code) == LdxMem || Decode(i.code) == Stx ==> 0 <= i.k < MEMWORDS)
  }

  /** The instruction ended the run or moved on, forward and within the program. */
  predicate Good(f: Program, at: nat, o: Outcome) {
    match o
    case Return(_) => true
    case Go(st) => at < st.pc < |f| && |st.mem| == MEMWORDS
    case Fault => false
  }

  /**
   Whatever the state of the machine, and whatever the packet: control stays in the program, accesses to the scratch
   memory are in range and nothing is divided by zero. Where loads from the packet begin is a different matter.
   */
  ghost predicate Safe(f: Program, at: nat)
    requires at < |f|
  {
    forall st: State, c: Capture, w: Long :: st.pc == at && |st.mem| == MEMWORDS && IsCapture(c) ==>
      Good(f, at, Step(f[at], st, c, w))
  }

  lemma CodeClasses(code: nat)
    ensures var op := Decode(code);
            && (op.Ja? ==> Class(code) == 5 && OpBits(code) == 0)
            && (op.Jump? ==> Class(code) == 5 && OpBits(code) != 0)
            && (op.St? ==> Class(code) == 2) && (op.LdMem? ==> Class(code) == 0 && ModeBits(code) == 3)
            && (op == Alu(Div, false) ==> code == 0x34)
            && (Class(code) == 6 ==> op.RetK? || op.RetA? || op.Illegal?)
  {
    RestClasses(code);
    hide DecodeRest, OpBits, ModeBits, Class;
    KnownCodes();
  }

  lemma RestClasses(code: nat)
    ensures var op := DecodeRest(code);
            && (op.Alu? || op.Neg? || op.Tax? || op.Txa? || op.Illegal?)
            && (op == Alu(Div, false) ==> code == 0x34) && (Class(code) == 6 ==> op.Illegal?)
  {
  }

  lemma KnownCodes()
    ensures Class(0x05) == 5 && OpBits(0x05) == 0 && Class(0x02) == 2 && Class(0x60) == 0 && ModeBits(0x60) == 3
    ensures forall code :: code in {0x25, 0x35, 0x15, 0x45, 0x2d, 0x3d, 0x1d, 0x4d}
              ==> Class(code) == 5 && OpBits(code) != 0
    ensures forall code :: code in {0x20, 0x28, 0x30, 0x40, 0x48, 0x50, 0x80, 0x81, 0xb1, 0x00, 0x01, 0x60, 0x61, 0x02,
                                    0x03, 0x05}
              ==> Class(code) != 6
  {
  }

  lemma NonZero(k: int)
    requires -0x8000_0000 <= k < 0x8000_0000 && k != 0
    ensures Unsigned(k) != 0
  {
  }

  lemma SafeStep(f: Program, st: State, c: Capture, w: Long)
    requires IsProgram(f) && Accepted(f) && InProgram(f, st) && AlsoFine(f[st.pc], st.pc) && IsCapture(c)
    ensures Good(f, st.pc, Step(f[st.pc], st, c, w))
  {
    var i := f[st.pc];
    assert Passes(i, st.pc, |f|) && IsInsn(i);
    CodeClasses(i.code);
    if i.code == 0x34 {
      NonZero(i.k);
    }
    if st.pc == |f| - 1 {
      assert Class(i.code) == 6;
    }
    hide Decode, Class, OpBits, ModeBits, Compute, Extract, Holds, Unsigned;
  }

  /** An accepted program is safe exactly where these two kinds of instruction are in order. */
  lemma SafeIff(f: Program, at: nat)
    requires IsProgram(f) && Accepted(f) && at < |f|
    ensures Safe(f, at) <==> AlsoFine(f[at], at)
  {
    if AlsoFine(f[at], at) {
      forall st: State, c: Capture, w: Long | st.pc == at && |st.mem| == MEMWORDS && IsCapture(c)
        ensures Good(f, at, Step(f[at], st, c, w)) {
        SafeStep(f, st, c, w);
      }
    } else {
      var st := State(at, 0, 0, seq(MEMWORDS, _ => 0));
      assert Passes(f[at], at, |f|) && IsInsn(f[at]);
      CodeClasses(f[at].code);
      var c := Capture([0, 0, 0, 0], []);
      assert IsCapture(c);
      assert !Good(f, at, Step(f[at], st, c, 0)) by {
        hide Decode, Class, OpBits, ModeBits, Compute, Extract, Holds;
      }
    }
  }

  // ----- loads from the packet

  /** The instruction loads, and the load begins in front of the packet. */
  predicate ReadsBefore(i: Insn, x: Long, len: nat) {
    match Decode(i.code)
    case LdAbs(size) => i.k < 0 && InBounds(i.k, size, len)
    case LdInd(size) => Index(x, i.k) < 0 && InBounds(Index(x, i.k), size, len)
    case _ => false
  }

  /** Otherwise what is in front of the packet does not matter. */
  lemma ReadsInside(i: Insn, st: State, c: Capture, d: Capture, w: Long)
    requires IsCapture(c) && IsCapture(d) && c.p == d.p && |st.mem| == MEMWORDS && !ReadsBefore(i, st.x, |c.p|)
    ensures Step(i, st, c, w) == Step(i, st, d, w)
  {
    hide Decode, Index, Compute, Holds, Unsigned;
    match Decode(i.code)
    case LdAbs(size) => SameInside(c, d, i.k, size);
    case LdInd(size) => SameInside(c, d, Index(st.x, i.k), size);
    case _ =>
  }

  lemma SameInside(c: Capture, d: Capture, k: int, size: nat)
    requires IsCapture(c) && IsCapture(d) && c.p == d.p && size in {1, 2, 4}
    ensures 0 <= k && k + size <= |c.p| ==> Extract(c.before + c.p, k + 4, size) == Extract(d.before + d.p, k + 4, size)
                                            == Extract(c.p, k, size)
  {
  }

  /** Not a load of two or four octets at an offset just below zero, nor one at an offset from the index register. */
  predicate StaysInside(i: Insn) {
    match Decode(i.code)
    case LdAbs(size) => size == 1 || !(0 <= i.k + size < size)
    case LdInd(size) => size == 1
    case _ => true
  }

  /**
   Exactly then no state and no packet make it read in front of the packet. The check does not look at this either.
   */
  lemma ReadsInsideIff(i: Insn)
    requires IsInsn(i)
    ensures (forall x: Long, len: nat :: !ReadsBefore(i, x, len)) <==> StaysInside(i)
  {
    hide Decode;
    match Decode(i.code)
    case LdAbs(size) =>
      if size > 1 && 0 <= i.k + size < size {
        assert ReadsBefore(i, 0, 4);
      }
    case LdInd(size) =>
      if size > 1 {
        var x := (-1 - i.k) % WORD;
        assert Index(x, i.k) == -1;
        assert ReadsBefore(i, x, 4);
      }
    case _ =>
  }

  predicate Trustworthy(f: Program) {
    IsProgram(f) && Accepted(f) && forall i :: 0 <= i < |f| ==> AlsoFine(f[i], i)
  }

  // ----- whole runs

  /** The value a run from `st` returns, and the number of instructions it takes; none if it goes astray. */
  function Exec(f: Program, st: State, c: Capture, w: Long): Option<(Long, nat)>
    requires InProgram(f, st) && IsCapture(c)
    decreases |f| - st.pc
  {
    match Step(f[st.pc], st, c, w)
    case Return(v) => Some((v, 1))
    case Fault => None
    case Go(next) =>
      if st.pc < next.pc && InProgram(f, next) then
        match Exec(f, next, c, w)
        case None => None
        case Some((v, n)) => Some((v, n + 1))
      else None
  }

  /** A run of a trustworthy program never goes astray, and returns within as many instructions as are left. */
  lemma {:induction false} RunReturns(f: Program, st: State, c: Capture, w: Long)
    requires Trustworthy(f) && InProgram(f, st) && IsCapture(c)
    ensures Exec(f, st, c, w).Some? && 1 <= Exec(f, st, c, w).value.1 <= |f| - st.pc
    decreases |f| - st.pc
  {
    SafeStep(f, st, c, w);
    hide Step, Accepted, AlsoFine, IsProgram;
    match Step(f[st.pc], st, c, w)
    case Return(_) =>
    case Fault =>
    case Go(next) => RunReturns(f, next, c, w);
  }

  /** A program that is accepted and yet stores outside the scratch memory. */
  lemma StxSlips()
    ensures var f := [Insn(0x03, 0, 0, 16), Insn(0x06, 0, 0, 0)];
            IsProgram(f) && Accepted(f) && !Safe(f, 0)
  {
    var f := [Insn(0x03, 0, 0, 16), Insn(0x06, 0, 0, 0)];
    assert Class(f[1].code) == 6;
    assert Passes(f[0], 0, 2) && Passes(f[1], 1, 2);
    SafeIff(f, 0);
  }

  /**
   In a program that is accepted and in order, a word load whose outcome depends on the octets in front of any packet.
   */
  lemma LoadSlips(p: seq<Byte>, st: State, w: Long)
    requires |p| < 0x8000_0000 && |st.mem| == MEMWORDS
    ensures var f := [Insn(0x20, 0, 0, -4), Insn(0x16, 0, 0, 0)];
            Trustworthy(f) && Step(f[0], st, Capture([0, 0, 0, 0], p), w) != Step(f[0], st, Capture([0, 0, 0, 1], p), w)
  {
    var f := [Insn(0x20, 0, 0, -4), Insn(0x16, 0, 0, 0)];
    assert Decode(0x20) == LdAbs(4) && Class(f[1].code) == 6;
    assert Passes(f[0], 0, 2) && Passes(f[1], 1, 2);
    assert W32([0, 0, 0, 0] + p, 0) == 0 && W32([0, 0, 0, 1] + p, 0) == 1;
  }

  // ----- the machine

  /** Registers and scratch memory, updated in place. */
  class Machine {
    var a: Long
    var x: Long
    const mem: array<Long>

    ghost predicate Valid() { mem.Length == MEMWORDS }

    ghost function At(pc: nat): State
      reads this, mem
    {
      State(pc, a, x, mem[..])
    }

    /** Registers and memory are not initialised: the filter starts from whatever they hold. */
    constructor (a: Long, x: Long, scratch: Long)
      ensures Valid() && fresh(mem) && this.a == a && this.x == x
    {
      this.a, this.x := a, x;
      mem := new Long[MEMWORDS](_ => scratch);
    }

    /** A load into the accumulator, or rejection. */
    method LoadA(c: Capture, k: int, size: nat, ghost pc: nat) returns (reject: bool)
      requires size in {1, 2, 4} && IsCapture(c) && -0x8000_0000 <= k < 0x8000_0000
      modifies this`a
      ensures if reject then Load(old(At(pc)), c, k, size) == Return(0) && a == old(a)
              else Load(old(At(pc)), c, k, size) == Go(At(pc + 1))
    {
      BoundsTest(k, size, |c.p|);
      hide Unsigned, InBounds;
      if (if size == 1 then Unsigned(k) >= |c.p| else (Unsigned(k) + size) % WORD > |c.p|) {
        return true;
      }
      InMemory(c, k, size);
      a := Extract(c.before + c.p, k + 4, size);
      return false;
    }

    /** One arithmetic instruction. */
    method Arithmetic(op: Arith, b: Long, ghost pc: nat)
      requires op == Div ==> b != 0
      modifies this`a
      ensures SetA(old(At(pc)), Compute(op, old(a), b)) == Go(At(pc + 1))
    {
      a := Compute(op, a, b);
    }

    /** The length of an IP header in the packet, into the index register, or rejection. */
    method LoadMsh(c: Capture, k: int, ghost pc: nat) returns (reject: bool)
      requires IsCapture(c) && -0x8000_0000 <= k < 0x8000_0000
      modifies this`x
      ensures if reject then !InBounds(k, 1, |c.p|)
              else InBounds(k, 1, |c.p|) && SetX(old(At(pc)), c.p[k] % 16 * 4) == Go(At(pc + 1))
    {
      BoundsTest(k, 1, |c.p|);
      reject := Unsigned(k) >= |c.p|;
      if !reject {
        x := c.p[k] % 16 * 4;
      }
    }

    /** A store into the scratch memory. */
    method Put(k: nat, v: Long, ghost pc: nat)
      requires Valid() && k < MEMWORDS
      modifies mem
      ensures At(pc + 1) == State(pc + 1, a, x, old(mem[..])[k := v])
    {
      mem[k] := v;
    }

    /** One instruction that has a meaning: the value if it returns, otherwise the new program counter. */
    method Do(i: Insn, pc: nat, c: Capture, wirelen: Long) returns (done: Option<Long>, pc': nat)
      requires Valid() && IsInsn(i) && IsCapture(c) && Step(i, At(pc), c, wirelen) != Fault
      modifies this, mem
      ensures if done.Some? then Step(i, old(At(pc)), c, wirelen) == Return(done.value)
              else Step(i, old(At(pc)), c, wirelen) == Go(At(pc'))
    {
      hide Decode, Compute, Extract, Holds, Index, Unsigned, BitAnd, Load, InBounds;
      IndexRange(x, i.k);
      done, pc' := None, pc + 1;
      var reject := false;
      match Decode(i.code) {
        case RetK => done := Some(Unsigned(i.k));
        case RetA => done := Some(a);
        case LdAbs(size) => reject := LoadA(c, i.k, size, pc);
        case LdInd(size) => reject := LoadA(c, Index(x, i.k), size, pc);
        case LdLen => a := wirelen;
        case LdxLen => x := wirelen;
        case LdxMsh => reject := LoadMsh(c, i.k, pc);
        case LdImm => a := Unsigned(i.k);
        case LdxImm => x := Unsigned(i.k);
        case LdMem => a := mem[i.k];
        case LdxMem => x := mem[i.k];
        case St => Put(i.k, a, pc);
        case Stx => Put(i.k, x, pc);
        case Ja => pc' := pc + 1 + i.k;
        case Jump(t, withX) =>
          pc' := pc + 1 + if Holds(t, a, if withX then x else Unsigned(i.k)) then i.jt else i.jf;
        case Alu(op, withX) =>
          if withX && op == Div && x == 0 {
            reject := true;
          } else {
            Arithmetic(op, if withX then x else Unsigned(i.k), pc);
          }
        case Neg => a := (0 - a) % WORD;
        case Tax => x := a;
        case Txa => a := x;
        case Illegal => reject := true;
      }
      if reject {
        done := Some(0);
      }
    }

    /**
     Run a program on a packet, if the run does not go astray: what is returned is what the instructions amount to.
     */
    method Filter(f: Program, c: Capture, wirelen: Long) returns (v: Long)
      requires Valid() && IsProgram(f) && IsCapture(c) && InProgram(f, At(0)) && Exec(f, At(0), c, wirelen).Some?
      modifies this, mem
      ensures v == Exec(f, old(At(0)), c, wirelen).value.0
    {
      hide Step, IsInsn;
      var pc := 0;
      ghost var start := At(0);
      while true
        invariant 0 <= pc < |f| && Valid() && InProgram(f, At(pc))
        invariant Exec(f, At(pc), c, wirelen).Some?
                  && Exec(f, At(pc), c, wirelen).value.0 == Exec(f, start, c, wirelen).value.0
        decreases |f| - pc
      {
        var done;
        done, pc := Do(f[pc], pc, c, wirelen);
        if done.Some? {
          return done.value;
        }
      }
    }

    /** A trustworthy program never goes astray. */
    method FilterTrusted(f: Program, c: Capture, wirelen: Long) returns (v: Long)
      requires Valid() && Trustworthy(f) && IsCapture(c)
      modifies this, mem
      ensures InProgram(f, old(At(0))) && Exec(f, old(At(0)), c, wirelen).Some?
              && v == Exec(f, old(At(0)), c, wirelen).value.0
    {
      hide Step, IsInsn;
      RunReturns(f, At(0), c, wirelen);
      v := Filter(f, c, wirelen);
    }
  }

  lemma InMemory(c: Capture, k: int, size: nat)
    requires IsCapture(c) && size in {1, 2, 4} && InBounds(k, size, |c.p|)
    ensures 0 <= k + 4 && k + 4 + size <= |c.before + c.p|
  {
  }

  lemma IndexRange(x: Long, k: int)
    ensures -0x8000_0000 <= Index(x, k) < 0x8000_0000
  {
  }
}
