/**
 What the assembler of asm/vm_asm.c makes of a source line, told from its text: which operand goes where in the
 decoded word, mnemonic by mnemonic, and what registers, numbers and constants stand for.
 */
module AsmLines {
  import opened Words
  import opened AsmModel
  import opened AsmProofs
  import opened VmDecode

  // ----- the tokens of a line -----

  ghost predicate Blank(s: string) {
    forall i :: 0 <= i < |s| ==> IsSpace(s[i])
  }

  /** A word as `%s` reads it. */
  ghost predicate Word(s: string) {
    |s| > 0 && forall i :: 0 <= i < |s| ==> !IsSpace(s[i])
  }

  /** Nothing, or something that a blank separates from what stands before it. */
  ghost predicate Tail(s: string) {
    |s| > 0 ==> IsSpace(s[0])
  }

  lemma {:induction false} SkipBlank(gap: string, rest: string)
    requires Blank(gap) && (|rest| > 0 ==> !IsSpace(rest[0]))
    ensures SkipSpace(gap + rest) == rest
  {
    if |gap| > 0 {
      assert (gap + rest)[1..] == gap[1..] + rest;
      SkipBlank(gap[1..], rest);
    } else {
      assert gap + rest == rest;
    }
  }

  lemma SpacesAre(c: char)
    ensures IsSpace(c) <==> c in SPACES
    ensures IsSpace(c) <==> c as int == 32 || 9 <= c as int <= 13
  {
  }

  lemma {:induction false} WordEnds(w: string, rest: string)
    requires (forall i :: 0 <= i < |w| ==> !IsSpace(w[i])) && Tail(rest)
    ensures UpTo(w + rest, SPACES) == w
  {
    if |w| > 0 {
      SpacesAre(w[0]);
      hide IsSpace;
      assert (w + rest)[1..] == w[1..] + rest;
      WordEnds(w[1..], rest);
    } else {
      assert w + rest == rest;
      if |rest| > 0 { SpacesAre(rest[0]); }
    }
  }

  lemma FirstToken(gap: string, w: string, rest: string)
    requires Blank(gap) && Word(w) && Tail(rest)
    ensures Token(gap + w + rest) == w && AfterToken(gap + w + rest) == rest
  {
    SkipBlank(gap, w + rest);
    assert gap + w + rest == gap + (w + rest);
    WordEnds(w, rest);
    hide SkipSpace, UpTo;
    assert (w + rest)[|w|..] == rest;
  }

  /** The operands of a line are the words that blanks separate. */
  lemma TokensAre(op: string, g1: string, a1: string, g2: string, a2: string, g3: string, a3: string, rest: string)
    requires Word(op) && Word(a1) && Word(a2) && Word(a3) && Tail(rest)
    requires Blank(g1) && Blank(g2) && Blank(g3) && |g1| > 0 && |g2| > 0 && |g3| > 0
    ensures var text := op + (g1 + a1 + (g2 + a2 + (g3 + a3 + rest)));
      TokenAt(text, 0) == op && TokenAt(text, 1) == a1 && TokenAt(text, 2) == a2 && TokenAt(text, 3) == a3
  {
    var t3 := g3 + a3 + rest;
    var t2 := g2 + a2 + t3;
    var t1 := g1 + a1 + t2;
    FirstToken(g3, a3, rest);
    FirstToken(g2, a2, t3);
    FirstToken(g1, a1, t2);
    assert "" + op + t1 == op + t1;
    FirstToken("", op, t1);
    hide Token, AfterToken;
  }

  // ----- register forms -----

  /** The register that the `k`-th operand names. */
  function Named(env: Env, text: string, k: nat): byte {
    Register(env.libc, TokenAt(text, k))
  }

  /** `ADD rd, rs, rt` and `SUB rd, rs, rt`: destination, then the two sources in order. */
  lemma AddAndSubLines(env: Env, text: string, pc: uint32)
    requires TokenAt(text, 0) == "ADD" || TokenAt(text, 0) == "SUB"
    ensures var d := Decode(Encode(env, text, pc));
      && d.opcode == (if TokenAt(text, 0) == "ADD" then 0x01 else 0x02)
      && d.rd == Named(env, text, 1) && d.rs == Named(env, text, 2) && d.rt == Named(env, text, 3)
  {
    hide Register, TokenAt, Pack, Decode;
    RegisterOperandsAgree(
      Fields(if TokenAt(text, 0) == "ADD" then 0x01 else 0x02, Named(env, text, 1), Named(env, text, 2), Named(env, text, 3), 0));
  }

  /** `MOV rd, rs`. */
  lemma MoveLine(env: Env, text: string, pc: uint32)
    requires TokenAt(text, 0) == "MOV"
    ensures var d := Decode(Encode(env, text, pc));
      d.opcode == 0x12 && d.rd == Named(env, text, 1) && d.rs == Named(env, text, 2) && d.rt == 0
  {
    hide Register, TokenAt, Pack, Decode;
    RegisterOperandsAgree(Fields(0x12, Named(env, text, 1), Named(env, text, 2), 0, 0));
  }

  // ----- immediate forms -----

  /**
   The word carries this opcode and first register; its third byte is the second register laid under the high
   byte of the 16 bits of `value`, its last byte their low byte.
   */
  ghost predicate Carries(word: uint32, opcode: byte, rd: byte, rs: byte, value: int) {
    var d := Decode(word);
    && d.opcode == opcode && d.rd == rd
    && d.rs == Or(rs, value % 0x1_0000 / 0x100) && d.rt == value % 0x100
  }

  lemma PackedCarries(opcode: byte, rd: byte, rs: byte, value: int)
    requires Immediate(opcode)
    ensures Carries(Pack(Fields(opcode, rd, rs, 0, Half(value))), opcode, rd, rs, value)
  {
    hide Pack, Decode, Or;
    ImmediateDecodes(Fields(opcode, rd, rs, 0, Half(value)));
    assert value % 0x1_0000 % 0x100 == value % 0x100;
  }

  /** `ADDI rd, rs, value`; `hi(x)` stands for the upper half of `x`, `lo(x)` for its lower half. */
  lemma AddImmediateLine(env: Env, text: string, pc: uint32)
    requires TokenAt(text, 0) == "ADDI"
    ensures var a3 := TokenAt(text, 3);
            var v := Resolve(env, a3);
      Carries(Encode(env, text, pc), 0x03, Named(env, text, 1), Named(env, text, 2),
              if Contains(a3, "hi(") then v / 0x1_0000 else if Contains(a3, "lo(") then v % 0x1_0000 else v)
  {
    var a3 := TokenAt(text, 3);
    var v := Resolve(env, a3);
    RightShifts(v);
    ByteMasks(v);
    hide Register, TokenAt, Pack, Carries, Contains, Resolve, Shr, And;
    PackedCarries(0x03, Named(env, text, 1), Named(env, text, 2),
                  if Contains(a3, "hi(") then v / 0x1_0000 else if Contains(a3, "lo(") then v % 0x1_0000 else v);
  }

  /** `LUI rd, value` carries the upper half. */
  lemma LoadUpperLine(env: Env, text: string, pc: uint32)
    requires TokenAt(text, 0) == "LUI"
    ensures Carries(Encode(env, text, pc), 0x13, Named(env, text, 1), 0, Resolve(env, TokenAt(text, 2)) / 0x1_0000)
  {
    var v := Resolve(env, TokenAt(text, 2));
    RightShifts(v);
    hide Register, TokenAt, Pack, Carries, Resolve, Shr;
    PackedCarries(0x13, Named(env, text, 1), 0, v / 0x1_0000);
  }

  /** `LOAD rd, base, offset` and `LOADB rd, base, index`: destination, base, offset. */
  lemma LoadLines(env: Env, text: string, pc: uint32)
    requires (TokenAt(text, 0) == "LOAD" && '(' !in TokenAt(text, 2)) || TokenAt(text, 0) == "LOADB"
    ensures Carries(Encode(env, text, pc), if TokenAt(text, 0) == "LOAD" then 0x20 else 0x22,
                    Named(env, text, 1), Named(env, text, 2), Resolve(env, TokenAt(text, 3)))
  {
    hide Register, TokenAt, Pack, Carries, Resolve, Half;
    PackedCarries(if TokenAt(text, 0) == "LOAD" then 0x20 else 0x22, Named(env, text, 1), Named(env, text, 2),
                  Resolve(env, TokenAt(text, 3)));
  }

  /** `LOAD rd, off(base)`: the base is read with its parenthesis, the offset by `atoi`. */
  lemma LoadOffsetLine(env: Env, text: string, base: string, pc: uint32)
    requires LoadLine(text, base)
    ensures Carries(Encode(env, text, pc), 0x20, Named(env, text, 1), Register(env.libc, base + ")"),
                    env.libc.atoi(TokenAt(text, 2)))
  {
    LoadWord(env, text, base, pc);
    hide Register, TokenAt, Pack, Carries, Half, Encode;
    PackedCarries(0x20, Named(env, text, 1), Register(env.libc, base + ")"), env.libc.atoi(TokenAt(text, 2)));
  }

  /** `STORE base, offset, rs` and `STOREB base, index, rs`: the register stored stands last and goes first. */
  lemma StoreLines(env: Env, text: string, pc: uint32)
    requires TokenAt(text, 0) == "STORE" || TokenAt(text, 0) == "STOREB"
    ensures Carries(Encode(env, text, pc), if TokenAt(text, 0) == "STORE" then 0x21 else 0x23,
                    Named(env, text, 3), Named(env, text, 1), Resolve(env, TokenAt(text, 2)))
  {
    hide Register, TokenAt, Pack, Carries, Resolve, Half;
    PackedCarries(if TokenAt(text, 0) == "STORE" then 0x21 else 0x23, Named(env, text, 3), Named(env, text, 1),
                  Resolve(env, TokenAt(text, 2)));
  }

  /** `BEQ a, b, target` and `BNE a, b, target`: the two registers in order, and the distance from the next word. */
  lemma BranchLines(env: Env, text: string, pc: uint32)
    requires TokenAt(text, 0) == "BEQ" || TokenAt(text, 0) == "BNE"
    ensures Carries(Encode(env, text, pc), if TokenAt(text, 0) == "BEQ" then 0x30 else 0x31,
                    Named(env, text, 1), Named(env, text, 2), Wrap32(Resolve(env, TokenAt(text, 3)) - pc - 4) / 4)
  {
    hide Register, TokenAt, Pack, Carries, Resolve, Encode, BranchImm, Wrap32;
    BranchWord(env, text, pc);
    BranchCarries(if TokenAt(text, 0) == "BEQ" then 0x30 else 0x31, Named(env, text, 1), Named(env, text, 2),
                  Resolve(env, TokenAt(text, 3)), pc);
  }

  lemma BranchCarries(opcode: byte, rd: byte, rs: byte, target: uint32, pc: uint32)
    requires Immediate(opcode)
    ensures Carries(Pack(Fields(opcode, rd, rs, 0, BranchImm(target, pc))), opcode, rd, rs, Wrap32(target - pc - 4) / 4)
  {
    hide Pack, Carries, Wrap32;
    PackedCarries(opcode, rd, rs, Wrap32(target - pc - 4) / 4);
  }

  // ----- forms without registers -----

  /** `RET`, `VCALL` and `HALT` carry nothing but their opcode; an unknown mnemonic becomes the word 0. */
  lemma BareLines(env: Env, text: string, pc: uint32)
    ensures TokenAt(text, 0) == "RET" ==> Decode(Encode(env, text, pc)) == Decoded(0x35, 0, 0, 0, 0)
    ensures TokenAt(text, 0) == "VCALL" ==> Decode(Encode(env, text, pc)) == Decoded(0x50, 0, 0, 0, 0)
    ensures TokenAt(text, 0) == "HALT" ==> Decode(Encode(env, text, pc)) == Decoded(0xFF, 0, 0, 0, 0)
    ensures TokenAt(text, 0) !in MNEMONICS ==> Encode(env, text, pc) == 0
  {
    hide TokenAt, Register, Resolve, Decode;
    DecodeBytes(0x35, 0, 0, 0);
    DecodeBytes(0x50, 0, 0, 0);
    DecodeBytes(0xFF, 0, 0, 0);
    EmptyWord();
  }

  const MNEMONICS: set<string> := {
    "ADD", "SUB", "ADDI", "LUI", "MOV", "LOAD", "STORE", "LOADB", "STOREB", "BEQ", "BNE", "JMP", "CALL", "RET",
    "VCALL", "HALT"}

  lemma EmptyWord()
    ensures Pack(Fields(0, 0, 0, 0, 0)) == 0
  {
    RegisterForm(Fields(0, 0, 0, 0, 0));
  }

  /** `JMP target` and `CALL target` carry the low 24 bits of the target. */
  lemma JumpLines(env: Env, text: string, pc: uint32)
    requires TokenAt(text, 0) == "JMP" || TokenAt(text, 0) == "CALL"
    ensures var word := Encode(env, text, pc);
      && Decode(word).opcode == (if TokenAt(text, 0) == "JMP" then 0x33 else 0x34)
      && word % 0x100_0000 == Resolve(env, TokenAt(text, 1)) % 0x100_0000
  {
    hide Jump, Encode, Resolve, TokenAt, Decode;
    JumpWord(env, text, pc);
    JumpDecodes(if TokenAt(text, 0) == "JMP" then 0x33 else 0x34, Resolve(env, TokenAt(text, 1)));
  }

  lemma JumpDecodes(opcode: byte, target: uint32)
    ensures Decode(Jump(opcode, target)).opcode == opcode && Jump(opcode, target) % 0x100_0000 == target % 0x100_0000
  {
    hide And, Shr, Or, Shl;
    JumpIs(opcode, target);
    TopAndRest(opcode, target % 0x100_0000);
    JumpFields(opcode, target);
    ByteMasks(opcode);
    hide Jump;
  }

  // ----- what operands stand for -----

  /** The numbers of the register names. */
  lemma RegisterNumbers(c: Libc)
    ensures Register(c, "zero") == 0 && Register(c, "at") == 1 && Register(c, "v0") == 2 && Register(c, "v1") == 3
    ensures Register(c, "a0") == 4 && Register(c, "a1") == 5 && Register(c, "a2") == 6 && Register(c, "a3") == 7
    ensures Register(c, "t0") == 8 && Register(c, "t1") == 9 && Register(c, "t2") == 10 && Register(c, "t3") == 11
    ensures Register(c, "t4") == 12 && Register(c, "t5") == 13 && Register(c, "t6") == 14 && Register(c, "t7") == 15
    ensures Register(c, "s0") == 16 && Register(c, "s1") == 17 && Register(c, "s2") == 18 && Register(c, "s3") == 19
    ensures Register(c, "s4") == 20 && Register(c, "s5") == 21 && Register(c, "s6") == 22 && Register(c, "s7") == 23
    ensures Register(c, "t8") == 24 && Register(c, "t9") == 25 && Register(c, "k0") == 26 && Register(c, "k1") == 27
    ensures Register(c, "gp") == 28 && Register(c, "sp") == 29 && Register(c, "fp") == 30 && Register(c, "ra") == 31
  {
    hide Register;
    ZeroToSeven(c);
    EightToFifteen(c);
    SixteenToTwentyThree(c);
    TwentyFourToThirtyOne(c);
  }

  lemma ZeroToSeven(c: Libc)
    ensures Register(c, "zero") == 0 && Register(c, "at") == 1 && Register(c, "v0") == 2 && Register(c, "v1") == 3
    ensures Register(c, "a0") == 4 && Register(c, "a1") == 5 && Register(c, "a2") == 6 && Register(c, "a3") == 7
  {
    hide Register;
    forall k | 0 <= k < 8 ensures Register(c, REGISTERS[k]) == k {
      RegisterOf(c, k);
    }
    assert REGISTERS[0] == "zero" && REGISTERS[1] == "at" && REGISTERS[2] == "v0" && REGISTERS[3] == "v1";
    assert REGISTERS[4] == "a0" && REGISTERS[5] == "a1" && REGISTERS[6] == "a2" && REGISTERS[7] == "a3";
  }

  lemma EightToFifteen(c: Libc)
    ensures Register(c, "t0") == 8 && Register(c, "t1") == 9 && Register(c, "t2") == 10 && Register(c, "t3") == 11
    ensures Register(c, "t4") == 12 && Register(c, "t5") == 13 && Register(c, "t6") == 14 && Register(c, "t7") == 15
  {
    hide Register;
    forall k | 8 <= k < 16 ensures Register(c, REGISTERS[k]) == k {
      RegisterOf(c, k);
    }
    assert REGISTERS[8] == "t0" && REGISTERS[9] == "t1" && REGISTERS[10] == "t2" && REGISTERS[11] == "t3";
    assert REGISTERS[12] == "t4" && REGISTERS[13] == "t5" && REGISTERS[14] == "t6" && REGISTERS[15] == "t7";
  }

  lemma SixteenToTwentyThree(c: Libc)
    ensures Register(c, "s0") == 16 && Register(c, "s1") == 17 && Register(c, "s2") == 18 && Register(c, "s3") == 19
    ensures Register(c, "s4") == 20 && Register(c, "s5") == 21 && Register(c, "s6") == 22 && Register(c, "s7") == 23
  {
    hide Register;
    forall k | 16 <= k < 24 ensures Register(c, REGISTERS[k]) == k {
      RegisterOf(c, k);
    }
    assert REGISTERS[16] == "s0" && REGISTERS[17] == "s1" && REGISTERS[18] == "s2" && REGISTERS[19] == "s3";
    assert REGISTERS[20] == "s4" && REGISTERS[21] == "s5" && REGISTERS[22] == "s6" && REGISTERS[23] == "s7";
  }

  lemma TwentyFourToThirtyOne(c: Libc)
    ensures Register(c, "t8") == 24 && Register(c, "t9") == 25 && Register(c, "k0") == 26 && Register(c, "k1") == 27
    ensures Register(c, "gp") == 28 && Register(c, "sp") == 29 && Register(c, "fp") == 30 && Register(c, "ra") == 31
  {
    hide Register;
    forall k | 24 <= k < 32 ensures Register(c, REGISTERS[k]) == k {
      RegisterOf(c, k);
    }
    assert REGISTERS[24] == "t8" && REGISTERS[25] == "t9" && REGISTERS[26] == "k0" && REGISTERS[27] == "k1";
    assert REGISTERS[28] == "gp" && REGISTERS[29] == "sp" && REGISTERS[30] == "fp" && REGISTERS[31] == "ra";
  }

  lemma RegisterOf(c: Libc, k: nat)
    requires k < 32
    ensures ',' !in REGISTERS[k] && Register(c, REGISTERS[k]) == k
  {
    assert ',' !in REGISTERS[k];
    WholeOperand(REGISTERS[k]);
    hide UpTo;
    forall j | 0 <= j < k ensures REGISTERS[j] != REGISTERS[k] {
      NamesDiffer(j, k);
    }
  }

  /** The names differ in their first two characters. */
  lemma NamesDiffer(j: nat, k: nat)
    requires j < k < 32
    ensures REGISTERS[j] != REGISTERS[k]
  {
  }

  /** A comma ends an operand; `r` and a number names that register, anything else that is no name is register 0. */
  lemma RegisterForms(c: Libc, name: string, rest: string)
    requires ',' !in name
    ensures Register(c, name + "," + rest) == Register(c, name)
    ensures name !in REGISTERS ==> Register(c, name) == if Numbered(name) then c.atoi(name[1..]) % 256 else 0
  {
    CutAt(name, ',', rest);
    WholeOperand(name);
    hide UpTo;
  }

  lemma {:induction false} CutAt(s: string, stop: char, rest: string)
    requires stop !in s
    ensures UpTo(s + [stop] + rest, {stop}) == s
  {
    var t := s + [stop] + rest;
    if |s| > 0 {
      assert t[1..] == s[1..] + [stop] + rest && t[0] == s[0] && s[0] in s;
      CutAt(s[1..], stop, rest);
    } else {
      assert t[0] == stop;
    }
  }

  /** An operand without its decoration is what stands before its first comma, or between its parentheses. */
  lemma CleanForms(name: string, front: string, rest: string)
    requires '(' !in name && ')' !in name && ',' !in name && '(' !in front
    ensures Clean(name) == name
    ensures '(' !in rest ==> Clean(name + "," + rest) == name
    ensures Clean(front + "(" + name + ")" + rest) == name
  {
    WholeOperand(name);
    CutAt(name, ',', rest);
    var s := front + "(" + name + ")" + rest;
    assert s == front + ['('] + (name + ")" + rest) && s[|front|] == '(';
    CutAt(front, '(', name + ")" + rest);
    var inner := s[|front| + 1..];
    assert inner == name + [')'] + rest && inner[|name|] == ')';
    CutAt(name, ')', rest);
    hide UpTo;
    if '(' !in rest {
      assert '(' !in name + "," + rest;
    }
  }

  /**
   A number begins with a digit, or with a minus sign and a digit; such an operand goes to `strtoul` up to its first
   comma.
   */
  lemma NumberForms(env: Env, number: string, rest: string)
    requires '(' !in number && ',' !in number && '(' !in rest
    requires || (|number| > 0 && '0' <= number[0] <= '9')
             || (|number| > 1 && number[0] == '-' && '0' <= number[1] <= '9')
    ensures Resolve(env, number) == env.libc.strtoul(number)
    ensures Resolve(env, number + "," + rest) == env.libc.strtoul(number)
  {
    assert number + "," + rest == number + [','] + rest;
    CutAt(number, ',', rest);
    WholeOperand(number);
    hide UpTo;
  }

  ghost predicate OccursAt(s: string, t: string, k: nat) {
    k + |t| <= |s| && s[k..k + |t|] == t
  }

  /** `strstr`: the text occurs somewhere. */
  lemma {:induction false} ContainsIff(s: string, t: string)
    ensures Contains(s, t) <==> exists k: nat :: OccursAt(s, t, k)
  {
    if t <= s {
      assert OccursAt(s, t, 0);
    } else if |s| > 0 {
      ContainsIff(s[1..], t);
      forall k: nat | k < |s| ensures OccursAt(s[1..], t, k) <==> OccursAt(s, t, k + 1) {
        if k + 1 + |t| <= |s| {
          assert s[1..][k..k + |t|] == s[k + 1..k + 1 + |t|];
        }
      }
      if k: nat :| OccursAt(s, t, k) {
        assert k > 0;
        assert OccursAt(s[1..], t, k - 1);
      }
    }
  }

  lemma SubtractWord(env: Env, text: string, pc: uint32)
    requires TokenAt(text, 0) == "SUB"
    ensures Encode(env, text, pc) ==
      0x200_0000 + 0x1_0000 * Named(env, text, 1) + 0x100 * Named(env, text, 2) + Named(env, text, 3)
  {
    hide Register, TokenAt, Pack;
    RegisterForm(Fields(0x02, Named(env, text, 1), Named(env, text, 2), Named(env, text, 3), 0));
  }

  lemma ShippedOperands(c: Libc)
    ensures var text := "SUB v0, t3, t4";
      && TokenAt(text, 0) == "SUB" && Register(c, TokenAt(text, 1)) == 2
      && Register(c, TokenAt(text, 2)) == 11 && Register(c, TokenAt(text, 3)) == 12
  {
    hide TokenAt, Register;
    ShippedTokens();
    ZeroToSeven(c);
    EightToFifteen(c);
    WithComma(c, "v0", "v0,");
    WithComma(c, "t3", "t3,");
  }

  lemma ShippedTokens()
    ensures var text := "SUB v0, t3, t4";
      TokenAt(text, 0) == "SUB" && TokenAt(text, 1) == "v0," && TokenAt(text, 2) == "t3," && TokenAt(text, 3) == "t4"
  {
    hide TokenAt;
    assert "SUB v0, t3, t4" == "SUB" + (" " + "v0," + (" " + "t3," + (" " + "t4" + "")));
    TokensAre("SUB", " ", "v0,", " ", "t3,", " ", "t4", "");
  }

  lemma WithComma(c: Libc, name: string, operand: string)
    requires ',' !in name && operand == name + ","
    ensures Register(c, operand) == Register(c, name)
  {
    RegisterForms(c, name, "");
    assert name + "," + "" == operand;
  }

  /** A line of asm/app0.s, which compares two bytes. */
  lemma ShippedSubtraction(env: Env, pc: uint32)
    ensures Encode(env, "SUB v0, t3, t4", pc) == 0x0202_0B0C
  {
    hide TokenAt, Register, Encode;
    ShippedOperands(env.libc);
    SubtractWord(env, "SUB v0, t3, t4", pc);
  }
}
