/** The instruction set: the generated opcode table, its arities, and the fact that the VM's
    split of an opcode byte inverts the generator's encoding. */
module Opcodes {
  import opened Words

  // In the order of the opcode table; an operation's index is its position here.
  datatype Op =
    | ADD | SUB | MULU | MULS | DIVU | DIVS | AND | OR
    | XOR | NOT | LSL | LSR | ASR | CMP_LT | CMP_GT | CMP_B
    | CMP_A | CMP_EQ | LDC_0 | LDC_1 | LDC_2 | LDC_UB | LDC_SB | LDC_W
    | LEA | LDM_UB | LDM_SB | LDM_UH | LDM_SH | LDM_W | STM_B | STM_H
    | STM_W | LOCALS | LDLOC | STLOC | DUP | SWAP | POP | BR
    | BR_T | BR_F | CALL | RET | ICALL | IJMP | NCALL

  /** The generated table of opcode bytes, as shipped. */
  function OpcodeByte(op: Op): u8 {
    match op
    case ADD => 0x80
    case SUB => 0x81
    case MULU => 0x82
    case MULS => 0x83
    case DIVU => 0x84
    case DIVS => 0x85
    case AND => 0x86
    case OR => 0x87
    case XOR => 0x88
    case NOT => 0x89
    case LSL => 0x8A
    case LSR => 0x8B
    case ASR => 0x8C
    case CMP_LT => 0x8D
    case CMP_GT => 0x8E
    case CMP_B => 0x8F
    case CMP_A => 0x90
    case CMP_EQ => 0x91
    case LDC_0 => 0x12
    case LDC_1 => 0x13
    case LDC_2 => 0x14
    case LDC_UB => 0x15
    case LDC_SB => 0x16
    case LDC_W => 0x17
    case LEA => 0x18
    case LDM_UB => 0x59
    case LDM_SB => 0x5A
    case LDM_UH => 0x5B
    case LDM_SH => 0x5C
    case LDM_W => 0x5D
    case STM_B => 0x9E
    case STM_H => 0x9F
    case STM_W => 0xA0
    case LOCALS => 0x21
    case LDLOC => 0x22
    case STLOC => 0x63
    case DUP => 0x64
    case SWAP => 0xA5
    case POP => 0x66
    case BR => 0x27
    case BR_T => 0x68
    case BR_F => 0x69
    case CALL => 0x2A
    case RET => 0x2B
    case ICALL => 0x6C
    case IJMP => 0x6D
    case NCALL => 0x2E
  }

  /** The 64-slot jump table. Slots 47 to 63 hold the offset of op_invalid. */
  function SlotOp(slot: int): Option<Op> {
    if slot < 16 then LowSlot(slot) else if slot < 32 then MiddleSlot(slot) else HighSlot(slot)
  }

  function LowSlot(slot: int): Option<Op> {
    match slot
    case 0 => Some(ADD)
    case 1 => Some(SUB)
    case 2 => Some(MULU)
    case 3 => Some(MULS)
    case 4 => Some(DIVU)
    case 5 => Some(DIVS)
    case 6 => Some(AND)
    case 7 => Some(OR)
    case 8 => Some(XOR)
    case 9 => Some(NOT)
    case 10 => Some(LSL)
    case 11 => Some(LSR)
    case 12 => Some(ASR)
    case 13 => Some(CMP_LT)
    case 14 => Some(CMP_GT)
    case 15 => Some(CMP_B)
    case _ => None
  }

  function MiddleSlot(slot: int): Option<Op> {
    match slot
    case 16 => Some(CMP_A)
    case 17 => Some(CMP_EQ)
    case 18 => Some(LDC_0)
    case 19 => Some(LDC_1)
    case 20 => Some(LDC_2)
    case 21 => Some(LDC_UB)
    case 22 => Some(LDC_SB)
    case 23 => Some(LDC_W)
    case 24 => Some(LEA)
    case 25 => Some(LDM_UB)
    case 26 => Some(LDM_SB)
    case 27 => Some(LDM_UH)
    case 28 => Some(LDM_SH)
    case 29 => Some(LDM_W)
    case 30 => Some(STM_B)
    case 31 => Some(STM_H)
    case _ => None
  }

  function HighSlot(slot: int): Option<Op> {
    match slot
    case 32 => Some(STM_W)
    case 33 => Some(LOCALS)
    case 34 => Some(LDLOC)
    case 35 => Some(STLOC)
    case 36 => Some(DUP)
    case 37 => Some(SWAP)
    case 38 => Some(POP)
    case 39 => Some(BR)
    case 40 => Some(BR_T)
    case 41 => Some(BR_F)
    case 42 => Some(CALL)
    case 43 => Some(RET)
    case 44 => Some(ICALL)
    case 45 => Some(IJMP)
    case 46 => Some(NCALL)
    case _ => None
  }

  /** Operands popped before the operation runs, as the table says. NOT takes two. */
  function StackIn(op: Op): nat {
    match op
    case LDC_0 | LDC_1 | LDC_2 | LDC_UB | LDC_SB | LDC_W | LEA | LOCALS |
       LDLOC | BR | CALL | RET | NCALL => 0
    case LDM_UB | LDM_SB | LDM_UH | LDM_SH | LDM_W | STLOC | DUP | POP |
       BR_T | BR_F | ICALL | IJMP => 1
    case _ => 2
  }

  /** Results pushed by the operation. NCALL pushes through its thunk instead. */
  function StackOut(op: Op): nat {
    match op
    case STM_B | STM_H | STM_W | LOCALS | STLOC | POP | BR | BR_T |
       BR_F | CALL | RET | ICALL | IJMP | NCALL => 0
    case MULU | MULS | DIVU | DIVS | DUP | SWAP => 2
    case _ => 1
  }

  /** Bytes of inline operand following the opcode byte. */
  function OperandBytes(op: Op): nat {
    match op
    case LDC_UB | LDC_SB | LOCALS | LDLOC | STLOC | BR | BR_T | BR_F => 1
    case NCALL => 2
    case LDC_W | LEA | CALL => 4
    case _ => 0
  }

  /** What the VM reads off an opcode byte: the low six bits select the jump-table slot. */
  function DecodeOp(byte: u8): Option<Op> {
    SlotOp(byte % 0x40)
  }

  /** The operand count is the two highest bits. */
  function DecodeCount(byte: u8): nat {
    byte / 0x40
  }

  /** The operation's position in the opcode table. */
  function Index(op: Op): nat {
    match op
    case ADD => 0
    case SUB => 1
    case MULU => 2
    case MULS => 3
    case DIVU => 4
    case DIVS => 5
    case AND => 6
    case OR => 7
    case XOR => 8
    case NOT => 9
    case LSL => 10
    case LSR => 11
    case ASR => 12
    case CMP_LT => 13
    case CMP_GT => 14
    case CMP_B => 15
    case CMP_A => 16
    case CMP_EQ => 17
    case LDC_0 => 18
    case LDC_1 => 19
    case LDC_2 => 20
    case LDC_UB => 21
    case LDC_SB => 22
    case LDC_W => 23
    case LEA => 24
    case LDM_UB => 25
    case LDM_SB => 26
    case LDM_UH => 27
    case LDM_SH => 28
    case LDM_W => 29
    case STM_B => 30
    case STM_H => 31
    case STM_W => 32
    case LOCALS => 33
    case LDLOC => 34
    case STLOC => 35
    case DUP => 36
    case SWAP => 37
    case POP => 38
    case BR => 39
    case BR_T => 40
    case BR_F => 41
    case CALL => 42
    case RET => 43
    case ICALL => 44
    case IJMP => 45
    case NCALL => 46
  }

  lemma IndexBound(op: Op)
    ensures Index(op) < 47
  {
  }

  lemma LowIndex(op: Op)
    requires Index(op) < 16
    ensures LowSlot(Index(op)) == Some(op)
  {
  }

  lemma MiddleIndex(op: Op)
    requires 16 <= Index(op) < 32
    ensures MiddleSlot(Index(op)) == Some(op)
  {
  }

  lemma HighIndex(op: Op)
    requires 32 <= Index(op)
    ensures HighSlot(Index(op)) == Some(op)
  {
  }

  lemma SlotOfIndex(op: Op)
    ensures Index(op) < 47 && SlotOp(Index(op)) == Some(op)
  {
    hide Index, LowSlot, MiddleSlot, HighSlot;
    IndexBound(op);
    if Index(op) < 16 {
      LowIndex(op);
    } else if Index(op) < 32 {
      MiddleIndex(op);
    } else {
      HighIndex(op);
    }
  }

  /** The shipped bytes are what the generator computes: the index with the arity above it. */
  lemma OpcodeValue(op: Op)
    ensures OpcodeByte(op) == Index(op) + 0x40 * StackIn(op)
  {
  }

  /** Decoding an emitted opcode byte recovers the operation and its table arity. */
  lemma DecodeInvertsTable(op: Op)
    ensures DecodeOp(OpcodeByte(op)) == Some(op)
    ensures DecodeCount(OpcodeByte(op)) == StackIn(op)
  {
    hide SlotOp, Index, OpcodeByte, StackIn;
    SlotOfIndex(op);
    OpcodeValue(op);
  }

  /** No two operations share an opcode byte. */
  lemma OpcodeBytesDistinct(op: Op, other: Op)
    requires OpcodeByte(op) == OpcodeByte(other)
    ensures op == other
  {
    hide SlotOp, OpcodeByte;
    DecodeInvertsTable(op);
    DecodeInvertsTable(other);
  }
}
