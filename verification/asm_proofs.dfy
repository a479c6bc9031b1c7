/** What the two passes of the assembler guarantee about labels, offsets and encodings. */
module AsmProofs {
  import opened Words
  import opened AsmModel

  // ----- the passes agree -----

  /** At every line the first pass's `pc`, the second pass's `pc` and the length of the code are equal. */
  lemma {:induction false} PassesAgree(c: Libc, env: Env, lines: seq<string>, n: nat)
    requires n <= |lines|
    ensures Gather(c, lines, n).pc == 4 * Instructions(lines, n) == |Code(env, lines, n)|
  {
    hide Classify, Assembled, Encode, SkipSpace;
    if n > 0 {
      PassesAgree(c, env, lines, n - 1);
      PassesPickSameLines(c, lines[n - 1]);
    }
  }

  lemma {:induction false} InstructionsGrow(lines: seq<string>, m: nat, n: nat)
    requires m <= n <= |lines|
    ensures Instructions(lines, m) <= Instructions(lines, n)
  {
    if m < n {
      InstructionsGrow(lines, m, n - 1);
    }
  }

  lemma {:induction false} CodePrefix(env: Env, lines: seq<string>, m: nat, n: nat)
    requires m <= n <= |lines|
    ensures Code(env, lines, m) <= Code(env, lines, n)
  {
    hide Encode, SkipSpace, Assembled, Bytes32;
    if m < n {
      CodePrefix(env, lines, m, n - 1);
    }
  }

  lemma NextWord(env: Env, lines: seq<string>, j: nat)
    requires j < |lines| && Assembled(lines[j])
    ensures Code(env, lines, j + 1) ==
      Code(env, lines, j) + Bytes32(Encode(env, SkipSpace(lines[j]), Wrap32(4 * Instructions(lines, j))))
  {
    hide Encode, SkipSpace, Assembled, Wrap32, Bytes32;
  }

  /** The word of an instruction line stands at four times the number of instruction lines before it. */
  lemma WordAtLine(env: Env, lines: seq<string>, j: nat)
    requires j < |lines| && Assembled(lines[j])
    ensures var at := 4 * Instructions(lines, j);
            var code := Code(env, lines, |lines|);
      && at + 4 <= |code|
      && Word32(code, at) == Encode(env, SkipSpace(lines[j]), Wrap32(at))
  {
    var at := 4 * Instructions(lines, j);
    NextWord(env, lines, j);
    hide Encode, SkipSpace, Assembled, Wrap32, Bytes32, Word32, Code, Instructions;
    PassesAgree(env.libc, env, lines, j);
    CodePrefix(env, lines, j + 1, |lines|);
    var code := Code(env, lines, |lines|);
    var word := Encode(env, SkipSpace(lines[j]), Wrap32(at));
    assert code[at..at + 4] == Code(env, lines, j + 1)[at..at + 4] == Bytes32(word);
    WordOfBytes(word, code, at);
  }

  // ----- labels -----

  /** The line defines this label, and no earlier line does. */
  ghost predicate FirstDefines(c: Libc, lines: seq<string>, i: nat, name: string) {
    && i < |lines| && Classify(c, lines[i]) == Label(name)
    && forall k :: 0 <= k < i ==> Classify(c, lines[k]) != Label(name)
  }

  lemma {:induction false} LookupAppend(table: Table, name: string, value: uint32, other: string)
    ensures Lookup(table + [(name, value)], other) ==
      if Lookup(table, other).Some? then Lookup(table, other)
      else if other == name then Some(value) else None
    decreases |table|
  {
    if |table| > 0 {
      assert (table + [(name, value)])[1..] == table[1..] + [(name, value)];
      LookupAppend(table[1..], name, value, other);
    }
  }

  /** The label table binds a name to the offset of its first definition. */
  lemma {:induction false} LabelValue(c: Libc, lines: seq<string>, i: nat, name: string, n: nat)
    requires FirstDefines(c, lines, i, name) && n <= |lines|
    ensures Lookup(Gather(c, lines, n).labels, name) ==
      if n <= i then None else Some(Wrap32(4 * Instructions(lines, i)))
  {
    hide Classify, Assembled, Wrap32, Lookup;
    if n > 0 {
      LabelValue(c, lines, i, name, n - 1);
      PassesAgree(c, Env(c, [], []), lines, n - 1);
      var g := Gather(c, lines, n - 1);
      match Classify(c, lines[n - 1]) {
        case Label(other) => LookupAppend(g.labels, other, Wrap32(g.pc), name);
        case _ =>
      }
    }
  }

  /** An operand that can only mean the label: not a number, not a constant. */
  ghost predicate MeansLabel(c: Libc, lines: seq<string>, operand: string, name: string) {
    && Clean(operand) == name && !Numeric(name)
    && Lookup(EnvOf(c, lines).constants, name).None?
  }

  lemma OperandIsLabel(c: Libc, lines: seq<string>, i: nat, name: string, operand: string)
    requires FirstDefines(c, lines, i, name) && MeansLabel(c, lines, operand, name)
    ensures Resolve(EnvOf(c, lines), operand) == Wrap32(4 * Instructions(lines, i))
  {
    LabelValue(c, lines, i, name, |lines|);
  }

  ghost predicate JumpLine(c: Libc, lines: seq<string>, j: nat, name: string) {
    && j < |lines| && Assembled(lines[j])
    && var text := SkipSpace(lines[j]);
    && (TokenAt(text, 0) == "JMP" || TokenAt(text, 0) == "CALL")
    && MeansLabel(c, lines, TokenAt(text, 1), name)
  }

  /**
   Every JMP or CALL to a label carries in its low 24 bits the offset, in the code, of the first
   instruction assembled after the label's first definition.
   */
  lemma JumpReachesLabel(c: Libc, lines: seq<string>, i: nat, name: string, j: nat)
    requires Fits(c, lines) && FirstDefines(c, lines, i, name)
    requires JumpLine(c, lines, j, name)
    ensures var code := Code(EnvOf(c, lines), lines, |lines|);
            var at := 4 * Instructions(lines, j);
      && at + 4 <= |code|
      && And(Word32(code, at), 0xFF_FFFF) == 4 * Instructions(lines, i)
      && Shr(Word32(code, at), 24) == if TokenAt(SkipSpace(lines[j]), 0) == "JMP" then 0x33 else 0x34
  {
    hide Instructions, Code, TokenAt, Resolve, MeansLabel, Encode, EnvOf, Wrap32, Gather, Classify, Assembled;
    hide SkipSpace, Jump, Word32, Or, And, Shl, Shr;
    var env := EnvOf(c, lines);
    var text := SkipSpace(lines[j]);
    var at, target := 4 * Instructions(lines, j), 4 * Instructions(lines, i);
    WordAtLine(env, lines, j);
    JumpWord(env, text, Wrap32(at));
    OperandIsLabel(c, lines, i, name, TokenAt(text, 1));
    InstructionsGrow(lines, i, |lines|);
    WrapSmall(target);
    JumpFields(if TokenAt(text, 0) == "JMP" then 0x33 else 0x34, target);
  }

  lemma JumpWord(env: Env, text: string, pc: uint32)
    requires TokenAt(text, 0) == "JMP" || TokenAt(text, 0) == "CALL"
    ensures Encode(env, text, pc) ==
      Jump(if TokenAt(text, 0) == "JMP" then 0x33 else 0x34, Resolve(env, TokenAt(text, 1)))
  {
    hide TokenAt, Resolve, Register;
  }

  lemma TopAndRest(top: byte, rest: nat)
    requires rest < 0x100_0000
    ensures (0x100_0000 * top + rest) / 0x100_0000 == top && (0x100_0000 * top + rest) % 0x100_0000 == rest
  {
  }

  lemma JumpFields(opcode: byte, target: uint32)
    ensures And(Jump(opcode, target), 0xFF_FFFF) == target % 0x100_0000
    ensures Shr(Jump(opcode, target), 24) == opcode
  {
    hide Or, Shl, Shr, And;
    JumpIs(opcode, target);
    TopAndRest(opcode, target % 0x100_0000);
    hide Jump;
    ByteMasks(Jump(opcode, target));
    RightShifts(Jump(opcode, target));
  }

  /** The first instruction line at or after line `i` is assembled at the offset given to a label on line `i`. */
  lemma {:induction false} FirstInstructionAfter(lines: seq<string>, i: nat, k: nat)
    requires i <= k <= |lines| && forall m :: i <= m < k ==> !Assembled(lines[m])
    ensures Instructions(lines, k) == Instructions(lines, i)
  {
    if i < k {
      FirstInstructionAfter(lines, i, k - 1);
    }
  }

  // ----- branches -----

  /** A 16-bit pattern read as a signed number. */
  function Signed16(x: nat): int
    requires x < 0x1_0000
  {
    if x < 0x8000 then x else x - 0x1_0000
  }

  /**
   For word-aligned addresses within the code limit the unsigned arithmetic yields the exact signed
   number of words from the next instruction to the target, forwards and backwards.
   */
  lemma BranchIsExact(target: uint32, pc: uint32)
    requires target <= MAX_CODE && pc <= MAX_CODE && target % 4 == 0 && pc % 4 == 0
    ensures target == pc + 4 + 4 * Signed16(BranchImm(target, pc))
  {
    var words := (target - pc) / 4 - 1;
    assert target - pc - 4 == 4 * words;
    if words >= 0 {
      assert Wrap32(4 * words) / 4 == words;
    } else {
      assert Wrap32(4 * words) / 4 == words + TWO32 / 4;
    }
  }

  // ----- encodings -----

  predicate Small(f: Fields) {
    f.Fields? && f.imm < 0x1_0000
  }

  lemma RegisterForm(f: Fields)
    requires Small(f) && !Immediate(f.opcode)
    ensures Pack(f) == 0x100_0000 * f.opcode + 0x1_0000 * f.rd + 0x100 * f.rs + f.rt
  {
    ByteMasks(f.rt);
    Packed(f.opcode, f.rd, f.rs, f.rt);
    OrZero(f.rs);
  }

  lemma ImmediateForm(f: Fields)
    requires Small(f) && Immediate(f.opcode)
    ensures Or(f.rs, f.imm / 0x100) < 0x100
    ensures Pack(f) == 0x100_0000 * f.opcode + 0x1_0000 * f.rd + 0x100 * Or(f.rs, f.imm / 0x100) + f.imm % 0x100
  {
    Packed(f.opcode, f.rd, f.rs, f.imm);
  }

  /** In the register forms every field can be recovered. */
  lemma RegisterFormsDiffer(f: Fields, g: Fields)
    requires Small(f) && Small(g) && !Immediate(f.opcode) && !Immediate(g.opcode)
    ensures Pack(f) == Pack(g) <==> f.opcode == g.opcode && f.rd == g.rd && f.rs == g.rs && f.rt == g.rt
  {
    RegisterForm(f);
    RegisterForm(g);
  }

  /**
   Two immediate forms collide exactly when opcode, `rd`, the low byte and the third byte, where
   `rs` and the high byte of the immediate are laid over each other, all agree.
   */
  lemma ImmediateFormsCollideIff(f: Fields, g: Fields)
    requires Small(f) && Small(g) && Immediate(f.opcode) && Immediate(g.opcode)
    ensures Pack(f) == Pack(g) <==>
      && f.opcode == g.opcode && f.rd == g.rd && f.imm % 0x100 == g.imm % 0x100
      && Or(f.rs, f.imm / 0x100) == Or(g.rs, g.imm / 0x100)
  {
    hide Pack, Or;
    ImmediateForm(f);
    ImmediateForm(g);
    var x, y := Or(f.rs, f.imm / 0x100), Or(g.rs, g.imm / 0x100);
    SameBytes(f.opcode, f.rd, x, f.imm % 0x100, g.opcode, g.rd, y, g.imm % 0x100);
  }

  lemma SameBytes(a: byte, b: byte, c: byte, d: byte, a': byte, b': byte, c': byte, d': byte)
    ensures 0x100_0000 * a + 0x1_0000 * b + 0x100 * c + d == 0x100_0000 * a' + 0x1_0000 * b' + 0x100 * c' + d'
      <==> a == a' && b == b' && c == c' && d == d'
  {
  }

  /** For immediates of one byte nothing is lost. */
  lemma ByteImmediatesRecoverable(f: Fields, g: Fields)
    requires Small(f) && Small(g) && Immediate(f.opcode) && Immediate(g.opcode)
    requires f.imm < 0x100 && g.imm < 0x100
    ensures Pack(f) == Pack(g) <==> f.opcode == g.opcode && f.rd == g.rd && f.rs == g.rs && f.imm == g.imm
  {
    ImmediateFormsCollideIff(f, g);
    OrZero(f.rs);
    OrZero(g.rs);
  }

  /** `ADDI sp, sp, -32` as shipped: the third byte is 0xff, whatever register was named. */
  lemma NegativeImmediateHidesRegister(rd: byte, rs: byte)
    ensures Pack(Fields(0x03, rd, rs, 0, Half(-32))) == 0x300_0000 + 0x1_0000 * rd + 0xFFE0
  {
    hide Pack, Or;
    var f := Fields(0x03, rd, rs, 0, Half(-32));
    ImmediateForm(f);
    OrOnes(rs);
  }

  lemma OrOnes(x: byte)
    ensures Or(x, 0xFF) == 0xFF
  {
    Pow2Of32();
    OrBelow(8, x, 0xFF);
    forall n | 0 <= n < 8 ensures Bit(Or(x, 0xFF), n) {
      AllOnes(8, 0xFF);
      OrBits(x, 0xFF, n);
    }
    AllOnes(8, Or(x, 0xFF));
  }
}
