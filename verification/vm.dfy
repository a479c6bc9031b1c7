/**
 How kernel/vm/vm_core.c reads the words that asm/vm_asm.c writes: the fields `vm_step` extracts,
 the operands each instruction then uses, and where the program counter goes. Each theorem says
 exactly when the machine does what the source line named.
 */
module VmDecode {
  import opened Words
  import opened AsmModel
  import opened AsmProofs
  import opened Image

  // ----- decoding -----

  datatype Decoded = Decoded(opcode: byte, rd: byte, rs: byte, rt: byte, imm: int)

  /** The shifts and masks at the head of `vm_step`. */
  function Decode(word: uint32): Decoded {
    ByteMasks(Shr(word, 24));
    ByteMasks(Shr(word, 16));
    ByteMasks(Shr(word, 8));
    ByteMasks(word);
    Decoded(And(Shr(word, 24), 0xFF), And(Shr(word, 16), 0xFF), And(Shr(word, 8), 0xFF), And(word, 0xFF),
            Signed16(And(word, 0xFFFF)))
  }

  lemma ByteOf(high: nat, low: byte)
    ensures (0x100 * high + low) / 0x100 == high && (0x100 * high + low) % 0x100 == low
  {
  }

  lemma DecodeBytes(op: byte, rd: byte, rs: byte, rt: byte)
    ensures Decode(0x100_0000 * op + 0x1_0000 * rd + 0x100 * rs + rt)
         == Decoded(op, rd, rs, rt, Signed16(0x100 * rs + rt))
  {
    hide Shr, And;
    var top := 0x100 * op + rd;
    var high := 0x100 * top + rs;
    var word := 0x100 * high + rt;
    ByteOf(op, rd);
    ByteOf(top, rs);
    ByteOf(high, rt);
    WordDivisions(word);
    RightShifts(word);
    ByteMasks(op);
    ByteMasks(top);
    ByteMasks(high);
    ByteMasks(word);
    assert word % 0x1_0000 == 0x100 * rs + rt;
    assert word == 0x100_0000 * op + 0x1_0000 * rd + 0x100 * rs + rt;
  }

  lemma WordDivisions(word: nat)
    ensures word / 0x1_0000 == word / 0x100 / 0x100
    ensures word / 0x100_0000 == word / 0x100 / 0x100 / 0x100
    ensures word % 0x1_0000 == word / 0x100 % 0x100 * 0x100 + word % 0x100
  {
  }

  /** A byte read as a signed number, as `ADDI` reads its last byte. */
  function Signed8(x: byte): int {
    if x < 0x80 then x else x - 0x100
  }

  // ----- operands -----

  /** The register forms decode to the registers that were named. */
  lemma RegisterOperandsAgree(f: Fields)
    requires Small(f) && !Immediate(f.opcode)
    ensures var d := Decode(Pack(f));
      d.opcode == f.opcode && d.rd == f.rd && d.rs == f.rs && d.rt == f.rt
  {
    RegisterForm(f);
    DecodeBytes(f.opcode, f.rd, f.rs, f.rt);
  }

  /** The immediate forms keep opcode and `rd`; the third byte mixes `rs` and the immediate. */
  lemma ImmediateDecodes(f: Fields)
    requires Small(f) && Immediate(f.opcode)
    ensures Or(f.rs, f.imm / 0x100) < 0x100
    ensures var third := Or(f.rs, f.imm / 0x100);
      Decode(Pack(f)) == Decoded(f.opcode, f.rd, third, f.imm % 0x100, Signed16(0x100 * third + f.imm % 0x100))
  {
    ImmediateForm(f);
    DecodeBytes(f.opcode, f.rd, Or(f.rs, f.imm / 0x100), f.imm % 0x100);
  }

  /** `ADDI` uses the register and adds the number that were written exactly for immediates 0..127. */
  lemma AddImmediateAgreesIff(rd: byte, rs: byte, value: int)
    requires rs < 32 && -0x8000 <= value < 0x8000
    ensures var d := Decode(Pack(Fields(0x03, rd, rs, 0, Half(value))));
      (d.rs == rs && Signed8(d.rt) == value) <==> 0 <= value < 0x80
  {
    hide Decode, Pack, Or;
    var imm := Half(value);
    ImmediateDecodes(Fields(0x03, rd, rs, 0, imm));
    OrZero(rs);
    OrOnes(rs);
    assert imm == if value < 0 then value + 0x1_0000 else value;
  }

  /**
   `LOAD` and `STORE` use the base and the offset that were written exactly when the high byte of the
   offset is the number of the base.
   */
  lemma LoadStoreAgreeIff(opcode: byte, rd: byte, rs: byte, value: int)
    requires opcode == 0x20 || opcode == 0x21
    requires rs < 32 && -0x8000 <= value < 0x8000
    ensures var d := Decode(Pack(Fields(opcode, rd, rs, 0, Half(value))));
      (d.rs == rs && d.imm == value) <==> Half(value) / 0x100 == rs
  {
    hide Decode, Pack, Or;
    var imm := Half(value);
    ImmediateDecodes(Fields(opcode, rd, rs, 0, imm));
    OrSame(rs);
    assert imm == if value < 0 then value + 0x1_0000 else value;
  }

  lemma {:induction false} OrSame(x: nat)
    ensures Or(x, x) == x
  {
    if x != 0 {
      OrSame(x / 2);
    }
  }

  /** `r` and a digit. */
  predicate Numbered(base: string) {
    |base| > 1 && base[0] == 'r' && IsDigit(base[1])
  }

  /** `atoi` stops at the parenthesis behind the register's number. */
  ghost predicate NumberEnds(c: Libc, base: string) {
    Numbered(base) ==> c.atoi(base[1..] + ")") == c.atoi(base[1..])
  }

  lemma WholeOperand(s: string)
    requires ',' !in s
    ensures UpTo(s, {','}) == s
  {
  }

  /** No register is called like a base with the parenthesis behind it, or by `r` and a number. */
  lemma NoSuchName(base: string)
    ensures base + ")" !in REGISTERS
    ensures Numbered(base) ==> base !in REGISTERS
  {
    assert (base + ")")[|base|] == ')';
    assert forall k :: 0 <= k < |REGISTERS| ==>
      2 <= |REGISTERS[k]| && REGISTERS[k][|REGISTERS[k]| - 1] != ')' && !Numbered(REGISTERS[k]);
  }

  /**
   The base of `off(base)` is read with the parenthesis behind it: a number survives, any other name becomes
   register 0.
   */
  lemma BaseSurvivesIff(c: Libc, base: string)
    requires ',' !in base && NumberEnds(c, base)
    ensures !Numbered(base) ==> Register(c, base + ")") == 0
    ensures Register(c, base + ")") == Register(c, base) <==> Numbered(base) || Register(c, base) == 0
  {
    WholeOperand(base);
    WholeOperand(base + ")");
    NoSuchName(base);
    hide UpTo;
    assert |base| > 1 ==> (base + ")")[1..] == base[1..] + ")" && (base + ")")[0] == base[0] && (base + ")")[1] == base[1];
  }

  /** `LOAD rd, off(base)`. */
  ghost predicate LoadLine(text: string, base: string) {
    var operand := TokenAt(text, 2);
    && TokenAt(text, 0) == "LOAD" && '(' in operand && |UpTo(operand, {'('})| < |operand|
    && operand[|UpTo(operand, {'('})| + 1..] == base + ")" && ',' !in base
  }

  lemma LoadWord(env: Env, text: string, base: string, pc: uint32)
    requires LoadLine(text, base)
    ensures Encode(env, text, pc) ==
      Pack(Fields(0x20, Register(env.libc, TokenAt(text, 1)), Register(env.libc, base + ")"), 0,
                  Half(env.libc.atoi(TokenAt(text, 2)))))
  {
    hide TokenAt, Register, Pack, Half;
  }

  /**
   A line `LOAD rd, off(base)` loads from the named base and offset exactly when the high byte of the offset is
   the number of the base; a base that is not written as `r` and a number has no part in the word.
   */
  lemma LoadLineAgreesIff(env: Env, text: string, base: string, pc: uint32)
    requires LoadLine(text, base) && NumberEnds(env.libc, base)
    requires Register(env.libc, base) < 32 && -0x8000 <= env.libc.atoi(TokenAt(text, 2)) < 0x8000
    ensures var d := Decode(Encode(env, text, pc));
            var named, offset := Register(env.libc, base), env.libc.atoi(TokenAt(text, 2));
      && d.opcode == 0x20 && d.rd == Register(env.libc, TokenAt(text, 1))
      && (d.rs == named && d.imm == offset <==> Half(offset) / 0x100 == named)
      && (!Numbered(base) ==> d.rs == Half(offset) / 0x100 && d.imm == offset)
  {
    hide Decode, Pack, Or, Register, TokenAt, Encode, LoadLine, NumberEnds;
    var rd, used := Register(env.libc, TokenAt(text, 1)), Register(env.libc, base + ")");
    var offset := env.libc.atoi(TokenAt(text, 2));
    LoadWord(env, text, base, pc);
    assert ',' !in base by { LineBase(text, base); }
    BaseSurvivesIff(env.libc, base);
    ImmediateDecodes(Fields(0x20, rd, used, 0, Half(offset)));
    if Numbered(base) {
      LoadStoreAgreeIff(0x20, rd, used, offset);
    } else {
      OrZero(Half(offset) / 0x100);
    }
  }

  lemma LineBase(text: string, base: string)
    requires LoadLine(text, base)
    ensures ',' !in base
  {
  }

  /** `(uint32_t)imm << 16`. */
  function UpperHalf(imm: int): uint32 {
    Wrap32(imm * 0x1_0000)
  }

  lemma UpperDecodes(r: byte, value: uint32)
    requires r < 32
    ensures var upper := Decode(Pack(Fields(0x13, r, 0, 0, Half(Shr(value, 16)))));
      upper.rd == r && upper.imm == Signed16(value / 0x1_0000)
  {
    hide Decode, Pack, Or, Shr;
    var hi := value / 0x1_0000;
    RightShifts(value);
    ImmediateDecodes(Fields(0x13, r, 0, 0, hi));
    OrZero(hi / 0x100);
  }

  lemma LowerDecodes(r: byte, value: uint32)
    requires r < 32
    ensures var lower := Decode(Pack(Fields(0x03, r, r, 0, Half(And(value, 0xFFFF)))));
            var lo := value % 0x1_0000;
      && lower.rd == r && lower.rt == lo % 0x100 && (lo < 0x100 ==> lower.rs == r)
  {
    hide Decode, Pack, Or, And;
    var lo := value % 0x1_0000;
    ByteMasks(value);
    ImmediateDecodes(Fields(0x03, r, r, 0, lo));
    OrZero(r);
  }

  /**
   `LUI` loads the upper half of the operand, and `ADDI` with its lower half completes it exactly when
   that half is below 128.
   */
  lemma LoadAddressAgreesIff(r: byte, value: uint32)
    requires r < 32
    ensures var upper := Decode(Pack(Fields(0x13, r, 0, 0, Half(Shr(value, 16)))));
            var lower := Decode(Pack(Fields(0x03, r, r, 0, Half(And(value, 0xFFFF)))));
      && upper.rd == lower.rd == r
      && UpperHalf(upper.imm) == value / 0x1_0000 * 0x1_0000
      && (lower.rs == r && Wrap32(UpperHalf(upper.imm) + Signed8(lower.rt)) == value <==> value % 0x1_0000 < 0x80)
  {
    hide Decode, Pack, Shr, And, UpperHalf, Wrap32, Signed8, Signed16, Half;
    UpperDecodes(r, value);
    LowerDecodes(r, value);
    UpperAgrees(value / 0x1_0000);
    LowerAgreesIff(value / 0x1_0000, value % 0x1_0000);
  }

  lemma UpperAgrees(hi: nat)
    requires hi < 0x1_0000
    ensures UpperHalf(Signed16(hi)) == hi * 0x1_0000
  {
  }

  lemma LowerAgreesIff(hi: nat, lo: nat)
    requires hi < 0x1_0000 && lo < 0x1_0000
    ensures Wrap32(hi * 0x1_0000 + Signed8(lo % 0x100)) == hi * 0x1_0000 + lo <==> lo < 0x80
  {
  }

  // ----- control flow -----

  /** Where `vm_step` leaves the program counter when the instruction does not stop the machine. */
  function NextPc(word: uint32, pc: nat, taken: bool, ra: uint32): uint32 {
    AndBelow(word, 0xFF_FFFF);
    var d := Decode(word);
    if (d.opcode == 0x30 || d.opcode == 0x31) && taken then Wrap32(pc + 4 * d.imm)
    else if d.opcode == 0x33 || d.opcode == 0x34 then And(word, 0xFF_FFFF)
    else if d.opcode == 0x35 then ra
    else Wrap32(pc + 4)
  }

  /** RET goes where the return address says; all other words, and a branch that is not taken, go on to the next one. */
  lemma OthersGoOn(word: uint32, pc: uint32, taken: bool, ra: uint32)
    ensures var op := word / 0x100_0000;
      && (op == 0x35 ==> NextPc(word, pc, taken, ra) == ra)
      && (op != 0x30 && op != 0x31 && op != 0x33 && op != 0x34 && op != 0x35 ==>
            NextPc(word, pc, taken, ra) == Wrap32(pc + 4))
      && ((op == 0x30 || op == 0x31) && !taken ==> NextPc(word, pc, taken, ra) == Wrap32(pc + 4))
  {
    DecodedOpcode(word);
    hide Decode, And, Wrap32;
  }

  lemma DecodedOpcode(word: uint32)
    ensures Decode(word).opcode == word / 0x100_0000
  {
    BytesAddUp(word);
    var b := Bytes32(word);
    hide Decode;
    DecodeBytes(b[3], b[2], b[1], b[0]);
  }

  lemma JumpLands(opcode: byte, target: uint32, pc: uint32, taken: bool, ra: uint32)
    requires opcode == 0x33 || opcode == 0x34
    ensures NextPc(Jump(opcode, target), pc, taken, ra) == target % 0x100_0000
  {
    hide Jump, Shr, And;
    var word := Jump(opcode, target);
    JumpFields(opcode, target);
    ByteMasks(Shr(word, 24));
  }

  /**
   A branch that is taken never lands on its label. It lands on the instruction before it when the
   high byte of the offset already contains the bits of `rs`, and elsewhere otherwise.
   */
  lemma BranchLands(opcode: byte, rd: byte, rs: byte, target: uint32, pc: uint32, ra: uint32)
    requires opcode == 0x30 || opcode == 0x31
    requires target <= MAX_CODE && pc < MAX_CODE && target % 4 == 0 && pc % 4 == 0
    ensures var imm := BranchImm(target, pc);
            var next := NextPc(Pack(Fields(opcode, rd, rs, 0, imm)), pc, true, ra);
      && next != target
      && (next == Wrap32(target - 4) <==> Or(rs, imm / 0x100) == imm / 0x100)
  {
    hide Decode, Pack, Or, BranchImm, Wrap32, Shr, And;
    var imm := BranchImm(target, pc);
    BranchIsExact(target, pc);
    WrapSmall(target);
    ImmediateDecodes(Fields(opcode, rd, rs, 0, imm));
    BranchOffset(pc, imm, 0x100 * Or(rs, imm / 0x100) + imm % 0x100);
  }

  /** Two 16-bit offsets with the same low byte lead from `pc` to the same place only if they are equal. */
  lemma BranchOffset(pc: uint32, imm: nat, used: nat)
    requires imm < 0x1_0000 && used < 0x1_0000 && used % 0x100 == imm % 0x100
    ensures Wrap32(pc + 4 * Signed16(used)) != Wrap32(pc + 4 + 4 * Signed16(imm))
    ensures Wrap32(pc + 4 * Signed16(used)) == Wrap32(pc + 4 * Signed16(imm)) <==> used == imm
  {
    if Wrap32(pc + 4 * Signed16(used)) == Wrap32(pc + 4 + 4 * Signed16(imm)) {
      SameWrap(pc + 4 * Signed16(used), pc + 4 + 4 * Signed16(imm));
    }
    if Wrap32(pc + 4 * Signed16(used)) == Wrap32(pc + 4 * Signed16(imm)) {
      SameWrap(pc + 4 * Signed16(used), pc + 4 * Signed16(imm));
    }
  }

  lemma SameWrap(x: int, y: int)
    requires Wrap32(x) == Wrap32(y) && 0 - TWO32 < x - y < TWO32
    ensures x == y
  {
  }

  // ----- a loaded program jumps to its labels -----

  /** The word `vm_step` fetches, if the program counter is inside the code. */
  function Fetch(image: seq<byte>, codeSize: uint32, pc: nat): Option<uint32>
    requires HEADER_SIZE + codeSize <= |image|
  {
    if pc + 4 > codeSize then None else Some(Word32(image[HEADER_SIZE..], pc))
  }

  /** What is fetched once the image of `lines` has been loaded. */
  ghost function LoadedWord(c: Libc, lines: seq<string>, pc: nat): Option<uint32>
    requires Fits(c, lines)
  {
    Fetch(ImageOf(c, lines), 4 * Instructions(lines, |lines|), pc)
  }

  /**
   A JMP or CALL of a loaded image, executed from the offset of its own line, goes to the offset of
   its label, and the word fetched there is that of the first instruction line after the label.
   */
  lemma LoadedJumpReachesLabel(c: Libc, lines: seq<string>, i: nat, name: string, j: nat, k: nat, ra: uint32)
    requires Fits(c, lines) && FirstDefines(c, lines, i, name)
    requires JumpLine(c, lines, j, name)
    requires i <= k < |lines| && Assembled(lines[k]) && forall m :: i <= m < k ==> !Assembled(lines[m])
    ensures var next := 4 * Instructions(lines, k);
            var word := LoadedWord(c, lines, 4 * Instructions(lines, j));
      && word.Some? && NextPc(word.value, 4 * Instructions(lines, j), true, ra) == next
      && LoadedWord(c, lines, next) == Some(Encode(EnvOf(c, lines), SkipSpace(lines[k]), Wrap32(next)))
  {
    hide Instructions, Code, MeansLabel, Encode, EnvOf, Wrap32, Gather, Assembled, SkipSpace, FirstDefines, TokenAt;
    hide NextPc, Word32, ImageOf, And, Shr;
    var env := EnvOf(c, lines);
    PassesAgree(c, env, lines, |lines|);
    JumpReachesLabel(c, lines, i, name, j);
    FirstInstructionAfter(lines, i, k);
    WordAtLine(env, lines, j);
    WordAtLine(env, lines, k);
    WrapSmall(4 * Instructions(lines, k));
    JumpGoes(Word32(Code(env, lines, |lines|), 4 * Instructions(lines, j)), 4 * Instructions(lines, j), ra);
  }

  lemma JumpGoes(word: uint32, pc: nat, ra: uint32)
    requires Shr(word, 24) == 0x33 || Shr(word, 24) == 0x34
    ensures NextPc(word, pc, true, ra) == And(word, 0xFF_FFFF)
  {
    hide And, Shr;
    ByteMasks(Shr(word, 24));
  }

  ghost predicate BranchLine(c: Libc, lines: seq<string>, j: nat, name: string) {
    && j < |lines| && Assembled(lines[j])
    && var text := SkipSpace(lines[j]);
    && (TokenAt(text, 0) == "BEQ" || TokenAt(text, 0) == "BNE")
    && MeansLabel(c, lines, TokenAt(text, 3), name)
  }

  /** What a branch line becomes. */
  lemma BranchWord(env: Env, text: string, pc: uint32)
    requires TokenAt(text, 0) == "BEQ" || TokenAt(text, 0) == "BNE"
    ensures Encode(env, text, pc) ==
      Pack(Fields(if TokenAt(text, 0) == "BEQ" then 0x30 else 0x31, Register(env.libc, TokenAt(text, 1)),
                  Register(env.libc, TokenAt(text, 2)), 0, BranchImm(Resolve(env, TokenAt(text, 3)), pc)))
  {
    hide TokenAt, Resolve, Register, BranchImm, Pack;
  }

  /** Where the next instruction after the first `n` lines is assembled. */
  ghost function Offset(c: Libc, lines: seq<string>, n: nat): (r: uint32)
    requires Fits(c, lines) && n <= |lines|
    ensures r == 4 * Instructions(lines, n) <= MAX_CODE && r % 4 == 0
  {
    InstructionsGrow(lines, n, |lines|);
    4 * Instructions(lines, n)
  }

  /**
   A BEQ or BNE line to a label, in a loaded image and taken from the offset of its own line, never goes to
   the offset of its label. It goes to the instruction before exactly when the high byte of the distance
   contains the bits of the second register's number.
   */
  lemma LoadedBranchMissesLabel(c: Libc, lines: seq<string>, i: nat, name: string, j: nat, ra: uint32)
    requires Fits(c, lines) && FirstDefines(c, lines, i, name)
    requires BranchLine(c, lines, j, name)
    ensures var pc, target := Offset(c, lines, j), Offset(c, lines, i);
            var rs := Register(c, TokenAt(SkipSpace(lines[j]), 2));
            var high := BranchImm(target, pc) / 0x100;
            var word := LoadedWord(c, lines, pc);
      && word.Some? && NextPc(word.value, pc, true, ra) != target
      && (NextPc(word.value, pc, true, ra) == Wrap32(target - 4) <==> Or(rs, high) == high)
  {
    hide Instructions, Code, MeansLabel, Encode, EnvOf, Gather, Assembled, SkipSpace, TokenAt, Resolve;
    hide NextPc, Word32, ImageOf, Register, BranchImm, Or, Pack, Offset, Wrap32;
    var env := EnvOf(c, lines);
    var text := SkipSpace(lines[j]);
    var pc, target := Offset(c, lines, j), Offset(c, lines, i);
    PassesAgree(c, env, lines, |lines|);
    WordAtLine(env, lines, j);
    OperandIsLabel(c, lines, i, name, TokenAt(text, 3));
    WrapSmall(pc);
    WrapSmall(target);
    EnvKeepsLibc(c, lines);
    BranchWord(env, text, pc);
    BranchLands(if TokenAt(text, 0) == "BEQ" then 0x30 else 0x31, Register(c, TokenAt(text, 1)),
                Register(c, TokenAt(text, 2)), target, pc, ra);
  }

  lemma EnvKeepsLibc(c: Libc, lines: seq<string>)
    ensures EnvOf(c, lines).libc == c
  {
  }

  /** Within 256 instructions: forwards only with register 0 as second register, backwards always. */
  lemma ShortBranchHighByte(rs: byte, target: uint32, pc: uint32)
    requires target <= MAX_CODE && pc < MAX_CODE && target % 4 == 0 && pc % 4 == 0
    ensures var high := BranchImm(target, pc) / 0x100;
      && (pc < target <= pc + 0x400 ==> (Or(rs, high) == high <==> rs == 0))
      && (pc - 0x400 < target <= pc ==> Or(rs, high) == high)
  {
    hide Or, BranchImm;
    BranchIsExact(target, pc);
    OrZero(rs);
    OrOnes(rs);
  }
}
