/**
 What filter programs mean, in terms of the octets of packets and of arithmetic: the codes by their fields, the law of
 every instruction, and programs that accept exactly the packets in which given octets have given values.
 */
module BpfMeaning {
  import opened Prelude
  import opened Bytes
  import opened BpfFilter

  // ----- the codes, by class and by the fields of each class

  /** Loads: bits 3 and 4 tell the size, bits 5 to 7 the mode. */
  function LoadByFields(size: nat, mode: nat): Op {
    if mode == 1 && size < 3 then LdAbs(if size == 0 then 4 else if size == 1 then 2 else 1)
    else if mode == 2 && size < 3 then LdInd(if size == 0 then 4 else if size == 1 then 2 else 1)
    else if mode == 0 && size == 0 then LdImm
    else if mode == 3 && size == 0 then LdMem
    else if mode == 4 && size == 0 then LdLen
    else Illegal
  }

  /** Loads of the index register. */
  function LoadXByFields(size: nat, mode: nat): Op {
    if mode == 0 && size == 0 then LdxImm
    else if mode == 3 && size == 0 then LdxMem
    else if mode == 4 && size == 0 then LdxLen
    else if mode == 5 && size == 2 then LdxMsh
    else Illegal
  }

  /** Arithmetic and jumps: bit 3 tells the source of the second operand, bits 4 to 7 the operation. */
  function ArithByFields(source: nat, op: nat): Op {
    if op == 0 then Alu(Add, source == 1)
    else if op == 1 then Alu(Sub, source == 1)
    else if op == 2 then Alu(Mul, source == 1)
    else if op == 3 then Alu(Div, source == 1)
    else if op == 4 then Alu(Or, source == 1)
    else if op == 5 then Alu(And, source == 1)
    else if op == 6 then Alu(Lsh, source == 1)
    else if op == 7 then Alu(Rsh, source == 1)
    else if op == 8 && source == 0 then Neg
    else Illegal
  }

  function JumpByFields(source: nat, op: nat): Op {
    if op == 0 && source == 0 then Ja
    else if op == 1 then Jump(Eq, source == 1)
    else if op == 2 then Jump(Gt, source == 1)
    else if op == 3 then Jump(Ge, source == 1)
    else if op == 4 then Jump(Set, source == 1)
    else Illegal
  }

  /** The other classes have one or two codes each. */
  function OtherByFields(group: nat, rest: nat): Op {
    if group == 2 && rest == 0 then St
    else if group == 3 && rest == 0 then Stx
    else if group == 6 && rest == 0 then RetK
    else if group == 6 && rest == 2 then RetA
    else if group == 7 && rest == 0 then Tax
    else if group == 7 && rest == 16 then Txa
    else Illegal
  }

  function ByFields(code: nat): Op {
    if code >= 0x100 then Illegal
    else if code % 8 == 0 then LoadByFields(code / 8 % 4, code / 32)
    else if code % 8 == 1 then LoadXByFields(code / 8 % 4, code / 32)
    else if code % 8 == 4 then ArithByFields(code / 8 % 2, code / 16)
    else if code % 8 == 5 then JumpByFields(code / 8 % 2, code / 16)
    else OtherByFields(code % 8, code / 8)
  }

  /** The interpreter knows exactly the codes that the fields allow, and takes them for what the fields say. */
  lemma DecodeByFields(code: nat)
    ensures Decode(code) == ByFields(code)
  {
    hide Decode, LoadByFields, LoadXByFields, ArithByFields, JumpByFields, OtherByFields;
    if code >= 0x100 {
      DecodeLarge(code);
    } else {
      var rest, kind := code / 8, code % 8;
      Widths(code);
      if kind == 0 {
        DecodeLoad(code, rest % 4, rest / 4);
      } else if kind == 1 {
        DecodeLoadX(code, rest % 4, rest / 4);
      } else if kind == 4 {
        DecodeArith(code, rest % 2, rest / 2);
      } else if kind == 5 {
        DecodeJump(code, rest % 2, rest / 2);
      } else if kind == 2 {
        DecodeStore(code);
      } else if kind == 3 {
        DecodeStoreX(code);
      } else if kind == 6 {
        DecodeReturn(code);
      } else {
        DecodeMisc(code);
      }
    }
  }

  lemma Widths(code: nat)
    ensures code / 32 == code / 8 / 4 && code / 16 == code / 8 / 2
  {
  }

  lemma DecodeLarge(code: nat)
    requires code >= 0x100
    ensures Decode(code) == Illegal
  {
  }

  lemma DecodeLoad(code: nat, size: nat, mode: nat)
    requires code % 8 == 0 && code == 32 * mode + 8 * size && size < 4
    ensures Decode(code) == LoadByFields(size, mode)
  {
    RestAlone(code);
    hide DecodeRest;
  }

  lemma DecodeLoadX(code: nat, size: nat, mode: nat)
    requires code % 8 == 1 && code == 32 * mode + 8 * size + 1 && size < 4
    ensures Decode(code) == LoadXByFields(size, mode)
  {
    RestAlone(code);
    hide DecodeRest;
  }

  lemma RestAlone(code: nat)
    requires code % 8 != 4 && code % 8 != 7
    ensures DecodeRest(code) == Illegal
  {
  }

  lemma OnlyRest(code: nat)
    requires code % 8 == 4 || code % 8 == 7
    ensures Decode(code) == DecodeRest(code)
  {
    hide DecodeRest;
  }

  lemma DecodeArith(code: nat, source: nat, op: nat)
    requires code % 8 == 4 && code == 16 * op + 8 * source + 4 && source < 2
    ensures Decode(code) == ArithByFields(source, op)
  {
    hide Decode;
    OnlyRest(code);
  }

  lemma DecodeJump(code: nat, source: nat, op: nat)
    requires code % 8 == 5 && code == 16 * op + 8 * source + 5 && source < 2
    ensures Decode(code) == JumpByFields(source, op)
  {
    RestAlone(code);
    hide DecodeRest;
  }

  lemma DecodeStore(code: nat)
    requires code % 8 == 2
    ensures Decode(code) == OtherByFields(2, code / 8)
  {
    RestAlone(code);
    hide DecodeRest;
  }

  lemma DecodeStoreX(code: nat)
    requires code % 8 == 3
    ensures Decode(code) == OtherByFields(3, code / 8)
  {
    RestAlone(code);
    hide DecodeRest;
  }

  lemma DecodeReturn(code: nat)
    requires code % 8 == 6
    ensures Decode(code) == OtherByFields(6, code / 8)
  {
    RestAlone(code);
    hide DecodeRest;
  }

  lemma DecodeMisc(code: nat)
    requires code % 8 == 7
    ensures Decode(code) == OtherByFields(7, code / 8)
  {
    hide Decode;
    OnlyRest(code);
  }

  // ----- bits

  /** Bit `j` of a number. */
  predicate BitOf(a: nat, j: nat) { a / Pow2(j) % 2 == 1 }

  lemma HalfBit(a: nat, j: nat)
    requires j > 0
    ensures BitOf(a, j) <==> BitOf(a / 2, j - 1)
  {
    HalfThen(a, Pow2(j - 1));
  }

  /** Halving, then dividing. */
  lemma HalfThen(a: nat, c: nat)
    requires c > 0
    ensures a / 2 / c == a / (2 * c)
  {
    var q := a / 2;
    var q2, r2 := q / c, q % c;
    Divided(q, c);
    TwiceTimes(c, q2);
    QuotientIs(a, 2 * c, q2, 2 * r2 + a % 2);
  }

  lemma Divided(a: nat, d: nat)
    requires d > 0
    ensures a == d * (a / d) + a % d && 0 <= a % d < d
  {
  }

  lemma TwiceTimes(c: nat, q: nat)
    ensures (2 * c) * q == 2 * (c * q)
  {
  }

  lemma {:induction false} Gap(d: nat, x: nat, y: nat)
    requires x < y
    ensures d * x + d <= d * y
    decreases y
  {
    assert d * y == d * (y - 1) + d;
    if x < y - 1 {
      Gap(d, x, y - 1);
    }
  }

  lemma QuotientIs(a: nat, d: nat, q: nat, r: nat)
    requires d > 0 && a == d * q + r && r < d
    ensures a / d == q
  {
    Divided(a, d);
    if a / d < q {
      Gap(d, a / d, q);
    } else if a / d > q {
      Gap(d, q, a / d);
    }
  }

  lemma {:induction false} NoBits(j: nat)
    ensures !BitOf(0, j)
  {
  }

  lemma AndParts(a: nat, b: nat)
    ensures BitAnd(a, b) / 2 == BitAnd(a / 2, b / 2)
    ensures BitAnd(a, b) % 2 == if a % 2 == 1 && b % 2 == 1 then 1 else 0
  {
  }

  lemma OrParts(a: nat, b: nat)
    ensures BitOr(a, b) / 2 == BitOr(a / 2, b / 2)
    ensures BitOr(a, b) % 2 == if a % 2 == 1 || b % 2 == 1 then 1 else 0
  {
  }

  lemma {:induction false} AndBits(a: nat, b: nat, j: nat)
    ensures BitOf(BitAnd(a, b), j) <==> BitOf(a, j) && BitOf(b, j)
    decreases j
  {
    hide BitOf, BitAnd;
    var r := BitAnd(a, b);
    AndParts(a, b);
    if j == 0 {
      FirstBit(a);
      FirstBit(b);
      FirstBit(r);
    } else {
      HalfBit(a, j);
      HalfBit(b, j);
      HalfBit(r, j);
      AndBits(a / 2, b / 2, j - 1);
    }
  }

  lemma {:induction false} OrBits(a: nat, b: nat, j: nat)
    ensures BitOf(BitOr(a, b), j) <==> BitOf(a, j) || BitOf(b, j)
    decreases j
  {
    hide BitOf, BitOr;
    var r := BitOr(a, b);
    OrParts(a, b);
    if j == 0 {
      FirstBit(a);
      FirstBit(b);
      FirstBit(r);
    } else {
      HalfBit(a, j);
      HalfBit(b, j);
      HalfBit(r, j);
      OrBits(a / 2, b / 2, j - 1);
    }
  }

  lemma FirstBit(a: nat)
    ensures BitOf(a, 0) <==> a % 2 == 1
  {
  }

  /** A number other than zero has a bit. */
  lemma {:induction false} SomeBit(a: nat) returns (j: nat)
    requires a > 0
    ensures BitOf(a, j)
    decreases a
  {
    j := 0;
    FirstBit(a);
    if a % 2 == 0 {
      var k := SomeBit(a / 2);
      j := k + 1;
      HalfBit(a, j);
    }
  }

  lemma CommonBit(a: nat, b: nat)
    ensures BitAnd(a, b) != 0 <==> exists j :: BitOf(a, j) && BitOf(b, j)
  {
    hide BitOf, BitAnd;
    if BitAnd(a, b) != 0 {
      var j := SomeBit(BitAnd(a, b));
      AndBits(a, b, j);
    }
    forall j | BitOf(a, j) && BitOf(b, j) ensures BitAnd(a, b) != 0 {
      AndBits(a, b, j);
      NoBits(j);
    }
  }

  // ----- the instructions

  /** Equal, greater, at least, a bit in common: by the number of the operation. */
  ghost predicate Related(op: nat, a: nat, b: nat) {
    if op == 1 then a == b
    else if op == 2 then a > b
    else if op == 3 then a >= b
    else op == 4 && exists j :: BitOf(a, j) && BitOf(b, j)
  }

  /** The second operand: the index register if bit 3 of the code is set, otherwise the constant, as 32 bits. */
  function Operand(i: Insn, st: State): Long {
    if i.code / 8 % 2 == 1 then st.x else i.k % 0x1_0000_0000
  }

  /** A conditional jump goes to `jt` exactly if the operands are related as the code says, and changes nothing else. */
  lemma JumpLaw(i: Insn, st: State, c: Capture, w: Long)
    requires IsCapture(c) && |st.mem| == MEMWORDS && i.code % 8 == 5 && 0x10 <= i.code < 0x50
    ensures Step(i, st, c, w)
            == Go(State(st.pc + 1 + (if Related(i.code / 16, st.a, Operand(i, st)) then i.jt else i.jf),
                        st.a, st.x, st.mem))
  {
    DecodeByFields(i.code);
    CommonBit(st.a, Operand(i, st));
    hide Decode, BitAnd, BitOf;
  }

  /** An arithmetic instruction: the new accumulator, by the number of the operation. */
  ghost predicate Computes(op: nat, a: nat, b: nat, r: nat) {
    if op == 0 then r == (a + b) % 0x1_0000_0000
    else if op == 1 then r == (a - b) % 0x1_0000_0000
    else if op == 2 then r == a * b % 0x1_0000_0000
    else if op == 3 then r * b <= a < r * b + b
    else if op == 4 then forall j :: BitOf(r, j) <==> BitOf(a, j) || BitOf(b, j)
    else if op == 5 then forall j :: BitOf(r, j) <==> BitOf(a, j) && BitOf(b, j)
    else if op == 6 then r == a * Pow2(b) % 0x1_0000_0000
    else op == 7 && r * Pow2(b) <= a < r * Pow2(b) + Pow2(b)
  }

  /**
   Arithmetic leaves all but the accumulator alone. Division by an index register of zero rejects the packet; division
   by a constant zero, which the check does not let pass, has no meaning.
   */
  lemma ArithLaw(i: Insn, st: State, c: Capture, w: Long)
    requires IsCapture(c) && |st.mem| == MEMWORDS && i.code % 8 == 4 && i.code < 0x80
    ensures var o, op, b := Step(i, st, c, w), i.code / 16, Operand(i, st);
            if op == 3 && b == 0 then o == if i.code / 8 % 2 == 1 then Return(0) else Fault
            else o.Go? && o.st.pc == st.pc + 1 && o.st.x == st.x && o.st.mem == st.mem && Computes(op, st.a, b, o.st.a)
  {
    hide Step, Compute;
    var op, b := i.code / 16, Operand(i, st);
    AluCode(i.code);
    AluStep(i, st, c, w);
    if op != 3 || b != 0 {
      ComputeLaw(op, st.a, b);
    }
  }

  /** The operation with a number. */
  function OpOf(op: nat): Arith {
    if op == 0 then Add
    else if op == 1 then Sub
    else if op == 2 then Mul
    else if op == 3 then Div
    else if op == 4 then Or
    else if op == 5 then And
    else if op == 6 then Lsh
    else Rsh
  }

  lemma AluCode(code: nat)
    requires code % 8 == 4 && code < 0x80
    ensures Decode(code) == Alu(OpOf(code / 16), code / 8 % 2 == 1)
  {
    hide Decode;
    DecodeByFields(code);
  }

  lemma AluStep(i: Insn, st: State, c: Capture, w: Long)
    requires IsCapture(c) && |st.mem| == MEMWORDS
    requires Decode(i.code).Alu? && Decode(i.code).withX == (i.code / 8 % 2 == 1)
    ensures var op, b := Decode(i.code).arith, Operand(i, st);
            Step(i, st, c, w)
            == if op == Div && b == 0 then (if i.code / 8 % 2 == 1 then Return(0) else Fault)
               else Go(State(st.pc + 1, Compute(op, st.a, b), st.x, st.mem))
  {
    hide Decode, Compute, Load, Holds, Index, InBounds;
  }

  lemma ComputeLaw(op: nat, a: Long, b: Long)
    requires op < 8 && (op == 3 ==> b != 0)
    ensures Computes(op, a, b, Compute(OpOf(op), a, b))
  {
    if op == 3 {
      QuotientLaw(a, b);
    } else if op == 4 {
      forall j ensures BitOf(BitOr(a, b), j) <==> BitOf(a, j) || BitOf(b, j) {
        OrBits(a, b, j);
      }
    } else if op == 5 {
      forall j ensures BitOf(BitAnd(a, b), j) <==> BitOf(a, j) && BitOf(b, j) {
        AndBits(a, b, j);
      }
    } else if op == 7 {
      QuotientLaw(a, Pow2(b));
    }
    hide BitAnd, BitOr, BitOf, Pow2, Quotient;
  }

  lemma QuotientLaw(a: Long, b: nat)
    requires b > 0
    ensures Quotient(a, b) * b <= a < Quotient(a, b) * b + b
  {
    assert a == a / b * b + a % b;
  }

  /** Subtraction undoes addition. */
  lemma SubtractionUndoes(a: Long, b: Long, s: Long, d: Long)
    requires Computes(0, a, b, s) && Computes(1, s, b, d)
    ensures d == a
  {
    hide BitOf, Pow2;
  }

  /** The number that `size` octets at `k` are, the most significant one first. */
  function NumberAt(p: seq<Byte>, k: nat, size: nat): Long
    requires size in {1, 2, 4} && k + size <= |p|
  {
    if size == 1 then p[k]
    else if size == 2 then 0x100 * (p[k] as int) + p[k + 1]
    else 0x100_0000 * (p[k] as int) + 0x1_0000 * (p[k + 1] as int) + 0x100 * (p[k + 2] as int) + p[k + 3]
  }

  /** The offset of a load: the constant, or its sum with the index register as a signed 32-bit number. */
  function OffsetOf(i: Insn, st: State): int {
    if i.code / 32 == 1 then i.k
    else
      var s := (st.x + i.k) % 0x1_0000_0000;
      if s < 0x8000_0000 then s else s - 0x1_0000_0000
  }

  /** A load inside the packet takes the number found there; one beyond its end rejects the packet. */
  lemma LoadLaw(i: Insn, st: State, c: Capture, w: Long)
    requires IsCapture(c) && |st.mem| == MEMWORDS && i.code in {0x20, 0x28, 0x30, 0x40, 0x48, 0x50}
    ensures var k, size := OffsetOf(i, st), if i.code / 8 % 4 == 0 then 4 else if i.code / 8 % 4 == 1 then 2 else 1;
            && (k >= 0 && k + size <= |c.p| ==>
                  Step(i, st, c, w) == Go(State(st.pc + 1, NumberAt(c.p, k, size), st.x, st.mem)))
            && (k >= 0 && k + size > |c.p| ==> Step(i, st, c, w) == Return(0))
  {
    LoadCode(i.code);
    hide Decode, Compute, Holds;
  }

  lemma LoadCode(code: nat)
    requires code in {0x20, 0x28, 0x30, 0x40, 0x48, 0x50}
    ensures var size := if code / 8 % 4 == 0 then 4 else if code / 8 % 4 == 1 then 2 else 1;
            Decode(code) == if code / 32 == 1 then LdAbs(size) else LdInd(size)
  {
  }

  /** The other instructions. */
  lemma RegisterLaw(i: Insn, st: State, c: Capture, w: Long)
    requires IsCapture(c) && |st.mem| == MEMWORDS && IsInsn(i)
    ensures var o, k := Step(i, st, c, w), i.k % 0x1_0000_0000;
            && (i.code == 0x06 ==> o == Return(k)) && (i.code == 0x16 ==> o == Return(st.a))
            && (i.code == 0x00 ==> o == Go(State(st.pc + 1, k, st.x, st.mem)))
            && (i.code == 0x01 ==> o == Go(State(st.pc + 1, st.a, k, st.mem)))
            && (i.code == 0x80 ==> o == Go(State(st.pc + 1, w, st.x, st.mem)))
            && (i.code == 0x81 ==> o == Go(State(st.pc + 1, st.a, w, st.mem)))
            && (i.code == 0x84 ==> o.Go? && (o.st.a + st.a) % 0x1_0000_0000 == 0
                                   && o == Go(State(st.pc + 1, o.st.a, st.x, st.mem)))
            && (i.code == 0x07 ==> o == Go(State(st.pc + 1, st.a, st.a, st.mem)))
            && (i.code == 0x87 ==> o == Go(State(st.pc + 1, st.x, st.x, st.mem)))
            && (i.code == 0x05 && st.pc + 1 + i.k >= 0 ==> o == Go(State(st.pc + 1 + i.k, st.a, st.x, st.mem)))
            && (i.code == 0xb1 ==>
                  o == if 0 <= i.k < |c.p| then Go(State(st.pc + 1, st.a, 4 * (c.p[i.k] % 16), st.mem)) else Return(0))
  {
    RegisterCodes();
    hide Decode, Compute, Holds, Load, Index;
  }

  lemma RegisterCodes()
    ensures Decode(0x06) == RetK && Decode(0x16) == RetA && Decode(0x00) == LdImm && Decode(0x01) == LdxImm
    ensures Decode(0x80) == LdLen && Decode(0x81) == LdxLen && Decode(0xb1) == LdxMsh && Decode(0x05) == Ja
    ensures Decode(0x02) == St && Decode(0x03) == Stx && Decode(0x60) == LdMem && Decode(0x61) == LdxMem
    ensures Decode(0x84) == Neg && Decode(0x07) == Tax && Decode(0x87) == Txa
  {
    OnlyRest(0x84);
    OnlyRest(0x07);
    OnlyRest(0x87);
    RestCodes();
    FirstCodes();
    hide Decode, DecodeRest;
  }

  lemma FirstCodes()
    ensures Decode(0x06) == RetK && Decode(0x16) == RetA && Decode(0x00) == LdImm && Decode(0x01) == LdxImm
    ensures Decode(0x80) == LdLen && Decode(0x81) == LdxLen && Decode(0xb1) == LdxMsh && Decode(0x05) == Ja
    ensures Decode(0x02) == St && Decode(0x03) == Stx && Decode(0x60) == LdMem && Decode(0x61) == LdxMem
  {
    hide DecodeRest;
  }

  lemma RestCodes()
    ensures DecodeRest(0x84) == Neg && DecodeRest(0x07) == Tax && DecodeRest(0x87) == Txa
  {
  }

  /** What is stored in a word of the scratch memory is loaded from it, whatever is stored elsewhere. */
  lemma MemoryLaw(put: Insn, get: Insn, st: State, c: Capture, w: Long)
    requires IsCapture(c) && |st.mem| == MEMWORDS && 0 <= put.k < MEMWORDS && 0 <= get.k < MEMWORDS
    requires put.code in {0x02, 0x03} && get.code in {0x60, 0x61}
    ensures var o := Step(put, st, c, w);
            && o.Go? && o.st.pc == st.pc + 1 && o.st.a == st.a && o.st.x == st.x && |o.st.mem| == MEMWORDS
            && var v := if put.k != get.k then st.mem[get.k] else if put.code == 0x02 then st.a else st.x;
               Step(get, o.st, c, w) == Go(if get.code == 0x60 then State(st.pc + 2, v, st.x, o.st.mem)
                                           else State(st.pc + 2, st.a, v, o.st.mem))
  {
    RegisterCodes();
    hide Decode, Compute, Holds, Load, Index, InBounds;
  }

  // ----- what the check lets pass

  /** For programs of known codes: exactly these requirements, by what the instructions do. */
  lemma AcceptedIff(f: Program)
    requires IsProgram(f) && forall i :: 0 <= i < |f| ==> Decode(f[i].code) != Illegal
    ensures Accepted(f)
            <==> Decode(f[|f| - 1].code) in {RetK, RetA} && forall i :: 0 <= i < |f| ==> InOrder(f[i], i, |f|)
  {
    forall i | 0 <= i < |f| ensures Passes(f[i], i, |f|) <==> InOrder(f[i], i, |f|) {
      assert IsInsn(f[i]);
      PassesIff(f[i], i, |f|);
    }
    DecodeByFields(f[|f| - 1].code);
    hide Decode, Passes, InOrder;
  }

  predicate InOrder(i: Insn, at: nat, len: nat) {
    match Decode(i.code)
    case Ja => at + 1 + i.k < len || at + 1 + i.k >= 0x8000_0000
    case Jump(_, _) => at + 1 + i.jt < len && at + 1 + i.jf < len
    case St => 0 <= i.k < 16
    case LdMem => 0 <= i.k < 16
    case Alu(Div, false) => i.k != 0
    case _ => true
  }

  lemma PassesIff(i: Insn, at: nat, len: nat)
    requires IsInsn(i) && at < len < 0x1_0000 && Decode(i.code) != Illegal
    ensures Passes(i, at, len) <==> InOrder(i, at, len)
  {
    CodeClasses(i.code);
    ClassCodes(i.code);
    hide Decode, Class, OpBits, ModeBits;
  }

  /** What a code of a class that the check looks at can be. */
  lemma ClassCodes(code: nat)
    requires Decode(code) != Illegal
    ensures var op := Decode(code);
            && (Class(code) == 5 ==> op.Ja? || op.Jump?) && (Class(code) == 2 ==> op.St?)
            && (Class(code) == 0 && ModeBits(code) == 3 ==> op.LdMem?) && (code == 0x34 ==> op == Alu(Div, false))
  {
    DecodeByFields(code);
    hide Decode;
  }

  // ----- programs that look at octets

  /** The number at an offset is to be related to a value. */
  datatype Probe = Probe(off: nat, size: nat, op: nat, value: Long)

  predicate ProperProbe(t: Probe) { t.size in {1, 2, 4} && 1 <= t.op <= 4 && t.off < 0x8000_0000 }

  /** The packet has that number, and it is so related. */
  ghost predicate Found(t: Probe, p: seq<Byte>)
    requires ProperProbe(t)
  {
    t.off + t.size <= |p| && Related(t.op, NumberAt(p, t.off, t.size), t.value)
  }

  predicate ProperProbes(ts: seq<Probe>) { |ts| <= 128 && forall i :: 0 <= i < |ts| ==> ProperProbe(ts[i]) }

  /** As a signed number of 32 bits. */
  function Constant(v: Long): int { if v < 0x8000_0000 then v else v - 0x1_0000_0000 }

  function SizeCode(size: nat): nat { if size == 4 then 0 else if size == 2 then 8 else 16 }

  /** Load and test the numbers in turn; whatever is not as wanted leads to the last instruction, which rejects. */
  function Matcher(ts: seq<Probe>, accept: Long): (f: Program)
    requires ProperProbes(ts)
    ensures |f| == 2 * |ts| + 2
  {
    seq(2 * |ts|, n requires 0 <= n < 2 * |ts| => Line(ts, n))
    + [Insn(0x06, 0, 0, Constant(accept)), Insn(0x06, 0, 0, 0)]
  }

  function Line(ts: seq<Probe>, n: nat): Insn
    requires ProperProbes(ts) && n < 2 * |ts|
  {
    var t := ts[n / 2];
    if n % 2 == 0 then Insn(0x20 + SizeCode(t.size), 0, 0, t.off)
    else Insn(16 * t.op + 5, 0, 2 * |ts| - n, Constant(t.value))
  }

  /** All probes from `i` on are found. */
  ghost predicate FoundFrom(ts: seq<Probe>, i: nat, p: seq<Byte>)
    requires ProperProbes(ts)
  {
    forall j :: i <= j < |ts| ==> Found(ts[j], p)
  }

  lemma MatcherLines(ts: seq<Probe>, accept: Long, i: nat)
    requires ProperProbes(ts) && i < |ts|
    ensures var f, t := Matcher(ts, accept), ts[i];
            && f[2 * i] == Insn(0x20 + SizeCode(t.size), 0, 0, t.off)
            && f[2 * i + 1] == Insn(16 * t.op + 5, 0, 2 * |ts| - 2 * i - 1, Constant(t.value))
  {
    assert (2 * i) / 2 == i && (2 * i + 1) / 2 == i;
  }

  lemma MatcherEnd(ts: seq<Probe>, accept: Long)
    requires ProperProbes(ts)
    ensures var f := Matcher(ts, accept);
            f[2 * |ts|] == Insn(0x06, 0, 0, Constant(accept)) && f[2 * |ts| + 1] == Insn(0x06, 0, 0, 0)
  {
  }

  /** Such a program passes the check and is in order. */
  lemma MatcherTrustworthy(ts: seq<Probe>, accept: Long)
    requires ProperProbes(ts)
    ensures Trustworthy(Matcher(ts, accept))
  {
    var f := Matcher(ts, accept);
    MatcherEnd(ts, accept);
    forall n | 0 <= n < |f| ensures IsInsn(f[n]) && Passes(f[n], n, |f|) && AlsoFine(f[n], n) {
      if n < 2 * |ts| {
        MatcherLines(ts, accept, n / 2);
        LineFine(ts, n);
      } else {
        EndFine(f[n], n, |f|);
      }
    }
    hide Matcher, Passes, AlsoFine;
  }

  lemma EndFine(i: Insn, n: nat, len: nat)
    requires i == Insn(0x06, 0, 0, i.k)
    ensures Passes(i, n, len) && AlsoFine(i, n)
  {
  }

  lemma LineFine(ts: seq<Probe>, n: nat)
    requires ProperProbes(ts) && n < 2 * |ts|
    ensures var i := Line(ts, n);
            IsInsn(i) && Passes(i, n, 2 * |ts| + 2) && AlsoFine(i, n)
  {
    var i := Line(ts, n);
    assert ProperProbe(ts[n / 2]);
    if n % 2 == 0 {
      assert i.code in {0x20, 0x28, 0x30};
      LoadFine(i, n, 2 * |ts| + 2);
    } else {
      assert i.code in {0x15, 0x25, 0x35, 0x45};
      JumpFine(i, n, 2 * |ts| + 2);
    }
  }

  lemma LoadFine(i: Insn, n: nat, len: nat)
    requires i.code in {0x20, 0x28, 0x30}
    ensures Passes(i, n, len) && AlsoFine(i, n)
  {
  }

  lemma JumpFine(i: Insn, n: nat, len: nat)
    requires i.code in {0x15, 0x25, 0x35, 0x45} && n + 1 + i.jt < len && n + 1 + i.jf < len
    ensures Passes(i, n, len) && AlsoFine(i, n)
  {
  }

  lemma ExecGoes(f: Program, st: State, next: State, c: Capture, w: Long)
    requires InProgram(f, st) && IsCapture(c) && Step(f[st.pc], st, c, w) == Go(next)
    requires st.pc < next.pc && InProgram(f, next) && Exec(f, next, c, w).Some?
    ensures Exec(f, st, c, w).Some? && Exec(f, st, c, w).value.0 == Exec(f, next, c, w).value.0
  {
    hide Step;
  }

  lemma ExecReturns(f: Program, st: State, v: Long, c: Capture, w: Long)
    requires InProgram(f, st) && IsCapture(c) && Step(f[st.pc], st, c, w) == Return(v)
    ensures Exec(f, st, c, w).Some? && Exec(f, st, c, w).value.0 == v
  {
    hide Step;
  }

  lemma ConstantIs(v: Long)
    ensures Constant(v) % 0x1_0000_0000 == v
  {
  }

  /**
   Whatever the machine holds, and for every packet: from the i-th test on the program returns `accept` if all numbers
   from there on are as wanted, and otherwise zero.
   */
  lemma {:induction false} MatchesFrom(ts: seq<Probe>, accept: Long, i: nat, st: State, c: Capture, w: Long)
    requires ProperProbes(ts) && i <= |ts| && IsCapture(c) && st.pc == 2 * i && |st.mem| == MEMWORDS
    ensures var r := Exec(Matcher(ts, accept), st, c, w);
            r.Some? && r.value.0 == if FoundFrom(ts, i, c.p) then accept else 0
    decreases |ts| - i
  {
    hide Step, Exec, Matcher, Found;
    var f := Matcher(ts, accept);
    MatcherEnd(ts, accept);
    ConstantIs(accept);
    if i == |ts| {
      RegisterLaw(f[st.pc], st, c, w);
      ExecReturns(f, st, accept, c, w);
    } else {
      var t := ts[i];
      MatcherLines(ts, accept, i);
      LoadProbe(f[2 * i], t, st, c, w);
      if t.off + t.size <= |c.p| {
        var v := NumberAt(c.p, t.off, t.size);
        var loaded := State(2 * i + 1, v, st.x, st.mem);
        TestProbe(f[2 * i + 1], t, loaded, c, w);
        if Related(t.op, v, t.value) {
          var next := State(2 * i + 2, v, st.x, st.mem);
          MatchesFrom(ts, accept, i + 1, next, c, w);
          ExecGoes(f, loaded, next, c, w);
        } else {
          var last := State(2 * |ts| + 1, v, st.x, st.mem);
          RegisterLaw(f[last.pc], last, c, w);
          ExecReturns(f, last, 0, c, w);
          ExecGoes(f, loaded, last, c, w);
        }
        ExecGoes(f, st, loaded, c, w);
      } else {
        ExecReturns(f, st, 0, c, w);
      }
      FoundNext(ts, i, c.p);
    }
  }

  lemma FoundNext(ts: seq<Probe>, i: nat, p: seq<Byte>)
    requires ProperProbes(ts) && i < |ts|
    ensures FoundFrom(ts, i, p) <==> Found(ts[i], p) && FoundFrom(ts, i + 1, p)
    ensures Found(ts[i], p) <==> ts[i].off + ts[i].size <= |p|
                                 && Related(ts[i].op, NumberAt(p, ts[i].off, ts[i].size), ts[i].value)
  {
  }

  lemma LoadProbe(i: Insn, t: Probe, st: State, c: Capture, w: Long)
    requires ProperProbe(t) && IsCapture(c) && |st.mem| == MEMWORDS && i == Insn(0x20 + SizeCode(t.size), 0, 0, t.off)
    ensures Step(i, st, c, w)
            == if t.off + t.size <= |c.p| then Go(State(st.pc + 1, NumberAt(c.p, t.off, t.size), st.x, st.mem))
               else Return(0)
  {
    hide Step;
    LoadLaw(i, st, c, w);
  }

  lemma TestProbe(i: Insn, t: Probe, st: State, c: Capture, w: Long)
    requires ProperProbe(t) && IsCapture(c) && |st.mem| == MEMWORDS
    requires i == Insn(16 * t.op + 5, 0, i.jf, Constant(t.value))
    ensures Step(i, st, c, w)
            == Go(State(st.pc + 1 + (if Related(t.op, st.a, t.value) then 0 else i.jf), st.a, st.x, st.mem))
  {
    hide Step, Related;
    ConstantIs(t.value);
    assert i.code / 16 == t.op && i.code / 8 % 2 == 0 && i.code % 8 == 5;
    JumpLaw(i, st, c, w);
  }

  /**
   The filter accepts exactly the packets in which every number is as wanted: for every list of tests, every packet and
   whatever registers and memory hold at first.
   */
  method FilterMatches(m: Machine, ts: seq<Probe>, accept: Long, c: Capture, wirelen: Long) returns (v: Long)
    requires m.Valid() && ProperProbes(ts) && IsCapture(c)
    modifies m, m.mem
    ensures v == if forall i :: 0 <= i < |ts| ==> Found(ts[i], c.p) then accept else 0
  {
    hide Matcher, Found, Exec;
    MatcherTrustworthy(ts, accept);
    MatchesFrom(ts, accept, 0, m.At(0), c, wirelen);
    v := m.FilterTrusted(Matcher(ts, accept), c, wirelen);
  }

  /** For instance IP packets in Ethernet frames, told by the two octets at 12. */
  method FilterIp(m: Machine, accept: Long, c: Capture, wirelen: Long) returns (v: Long)
    requires m.Valid() && IsCapture(c)
    modifies m, m.mem
    ensures Matcher([Probe(12, 2, 1, 0x800)], accept)
            == [Insn(0x28, 0, 0, 12), Insn(0x15, 0, 1, 0x800), Insn(0x06, 0, 0, Constant(accept)), Insn(0x06, 0, 0, 0)]
    ensures v == if |c.p| >= 14 && c.p[12] == 8 && c.p[13] == 0 then accept else 0
  {
    var ts := [Probe(12, 2, 1, 0x800)];
    v := FilterMatches(m, ts, accept, c, wirelen);
    IpFound(ts, c.p);
    MatcherLines(ts, accept, 0);
    MatcherEnd(ts, accept);
  }

  lemma IpFound(ts: seq<Probe>, p: seq<Byte>)
    requires ts == [Probe(12, 2, 1, 0x800)]
    ensures ProperProbes(ts) && (FoundFrom(ts, 0, p) <==> |p| >= 14 && p[12] == 8 && p[13] == 0)
  {
    assert ts[0] == Probe(12, 2, 1, 0x800);
    if |p| >= 14 {
      assert NumberAt(p, 12, 2) == 0x100 * (p[12] as int) + p[13];
    }
  }
}
