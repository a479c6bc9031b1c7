/** asm/vm_asm.c: the assembler's global tables and code buffer, filled by its two passes. */
module Assembler {
  import opened Words
  import opened AsmModel
  import opened AsmProofs
  import opened CStrings
  import opened Image

  /** Scanning a table from the front finds what `Lookup` finds. */
  lemma {:induction false} LookupFrom(table: Table, name: string, i: nat)
    requires i <= |table| && forall k :: 0 <= k < i ==> table[k].0 != name
    ensures i == |table| ==> Lookup(table, name) == None
    ensures i < |table| && table[i].0 == name ==> Lookup(table, name) == Some(table[i].1)
  {
    if i > 0 {
      assert forall k :: 0 <= k < i - 1 ==> table[1..][k] == table[k + 1];
      LookupFrom(table[1..], name, i - 1);
    }
  }

  class VmAsm {
    const libc: Libc
    const labels: array<(string, uint32)>
    const constants: array<(string, uint32)>
    const code: array<byte>
    var labelCount: nat
    var constCount: nat
    var codeLen: nat
    var ramSize: uint32
    var caps: uint32
    var appName: string

    ghost predicate Valid()
      reads this
    {
      && labels != constants
      && labels.Length == constants.Length == MAX_LABELS && code.Length == MAX_CODE
      && labelCount <= MAX_LABELS && constCount <= MAX_LABELS && codeLen <= MAX_CODE
    }

    ghost function Tables(): Env
      requires Valid()
      reads this, labels, constants
    {
      Env(libc, constants[..constCount], labels[..labelCount])
    }

    ghost function Emitted(): seq<byte>
      requires Valid()
      reads this, code
    {
      code[..codeLen]
    }

    constructor (libc: Libc)
      ensures Valid() && this.libc == libc && fresh(labels) && fresh(constants) && fresh(code)
      ensures labelCount == constCount == codeLen == 0
      ensures ramSize == 0 && caps == 0 && appName == "shell"
    {
      this.libc := libc;
      labels := new (string, uint32)[MAX_LABELS](_ => ("", 0));
      constants := new (string, uint32)[MAX_LABELS](_ => ("", 0));
      code := new byte[MAX_CODE](_ => 0);
      labelCount, constCount, codeLen := 0, 0, 0;
      ramSize, caps, appName := 0, 0, "shell";
    }

    method RegToNum(operand: string) returns (r: byte)
      ensures r == Register(libc, operand)
    {
      var name := UpTo(operand, {','});
      for i := 0 to |REGISTERS|
        invariant forall k :: 0 <= k < i ==> REGISTERS[k] != name
      {
        if REGISTERS[i] == name {
          return i;
        }
      }
      if |name| > 1 && name[0] == 'r' && IsDigit(name[1]) {
        return libc.atoi(name[1..]) % 256;
      }
      return 0;
    }

    method Find(table: array<(string, uint32)>, count: nat, name: string) returns (r: Option<uint32>)
      requires count <= table.Length
      ensures r == Lookup(table[..count], name)
    {
      for i := 0 to count
        invariant forall k :: 0 <= k < i ==> table[k].0 != name
      {
        if table[i].0 == name {
          LookupFrom(table[..count], name, i);
          return Some(table[i].1);
        }
      }
      LookupFrom(table[..count], name, count);
      return None;
    }

    method ResolveValue(s: string) returns (v: uint32)
      requires Valid()
      ensures v == Resolve(Tables(), s)
    {
      var clean := Clean(s);
      if Numeric(clean) {
        return libc.strtoul(clean);
      }
      var constant := Find(constants, constCount, clean);
      if constant.Some? {
        return constant.value;
      }
      var label_ := Find(labels, labelCount, clean);
      if label_.Some? {
        return label_.value;
      }
      return 0;
    }

    /** The word of one instruction, mnemonic by mnemonic. */
    method Word(op: string, a1: string, a2: string, a3: string, pc: uint32) returns (word: uint32)
      requires Valid()
      ensures word == WordFor(Tables(), op, a1, a2, a3, pc)
    {
      hide Register, Resolve, Jump, BranchImm, Contains, Or, And, Shl, Shr;
      var opcode: byte, rd: byte, rs: byte, rt: byte, imm: nat := 0, 0, 0, 0, 0;
      var v1 := ResolveValue(a1);
      var v2 := ResolveValue(a2);
      var v3 := ResolveValue(a3);
      var r1 := RegToNum(a1);
      var r2 := RegToNum(a2);
      var r3 := RegToNum(a3);
      if op == "ADD" {
        opcode, rd, rs, rt := 0x01, r1, r2, r3;
      } else if op == "SUB" {
        opcode, rd, rs, rt := 0x02, r1, r2, r3;
      } else if op == "ADDI" {
        opcode, rd, rs := 0x03, r1, r2;
        imm := Half(if Contains(a3, "hi(") then Shr(v3, 16) else if Contains(a3, "lo(") then And(v3, 0xFFFF) else v3);
      } else if op == "LUI" {
        opcode, rd, imm := 0x13, r1, Half(Shr(v2, 16));
      } else if op == "MOV" {
        opcode, rd, rs := 0x12, r1, r2;
      } else if op == "LOAD" {
        opcode, rd := 0x20, r1;
        if '(' in a2 {
          imm := Half(libc.atoi(a2));
          rs := RegToNum(a2[|UpTo(a2, {'('})| + 1..]);
        } else {
          rs, imm := r2, Half(v3);
        }
      } else if op == "STORE" {
        opcode, rd, rs, imm := 0x21, r3, r1, Half(v2);
      } else if op == "LOADB" {
        opcode, rd, rs, imm := 0x22, r1, r2, Half(v3);
      } else if op == "STOREB" {
        opcode, rd, rs, imm := 0x23, r3, r1, Half(v2);
      } else if op == "BEQ" || op == "BNE" {
        opcode, rd, rs := if op[1] == 'E' then 0x30 else 0x31, r1, r2;
        imm := BranchImm(v3, pc);
      } else if op == "JMP" {
        return Jump(0x33, v1);
      } else if op == "CALL" {
        return Jump(0x34, v1);
      } else if op == "RET" {
        return 0x3500_0000;
      } else if op == "VCALL" {
        return 0x5000_0000;
      } else if op == "HALT" {
        return 0xFF00_0000;
      }
      word := Pack(Fields(opcode, rd, rs, rt, imm));
    }

    /** Four bytes are appended to the code, whatever the mnemonic. */
    method AssembleLine(text: string, pc: uint32)
      requires Valid() && codeLen + 4 <= MAX_CODE
      modifies code, this`codeLen
      ensures Valid() && codeLen == old(codeLen) + 4
      ensures Emitted() == old(Emitted()) + Bytes32(Encode(Tables(), text, pc))
    {
      var word := Word(TokenAt(text, 0), TokenAt(text, 1), TokenAt(text, 2), TokenAt(text, 3), pc);
      assert word == Encode(Tables(), text, pc);
      hide Encode, Bytes32;
      Emit(word);
    }

    /** The four bytes at the label `emit`. */
    method Emit(word: uint32)
      requires Valid() && codeLen + 4 <= MAX_CODE
      modifies code, this`codeLen
      ensures Valid() && codeLen == old(codeLen) + 4
      ensures Emitted() == old(Emitted()) + Bytes32(word)
    {
      var bytes := Bytes32(word);
      hide Bytes32;
      ghost var before := code[..codeLen];
      code[codeLen], code[codeLen + 1], code[codeLen + 2], code[codeLen + 3] := bytes[0], bytes[1], bytes[2], bytes[3];
      codeLen := codeLen + 4;
      assert code[..codeLen] == before + bytes;
    }

    /** What the first pass has put into the fields and tables. */
    ghost predicate Holds(g: Gathered)
      requires Valid()
      reads this, labels, constants
    {
      && labels[..labelCount] == g.labels && constants[..constCount] == g.constants
      && appName == g.name && ramSize == g.ramSize && caps == g.caps
    }

    method AddLabel(name: string, addr: uint32)
      requires Valid() && labelCount < MAX_LABELS
      modifies this`labelCount, labels
      ensures Valid() && labels[..labelCount] == old(labels[..labelCount]) + [(name, addr)]
    {
      labels[labelCount] := (name, addr);
      labelCount := labelCount + 1;
    }

    method AddConstant(name: string, value: uint32)
      requires Valid() && constCount < MAX_LABELS
      modifies this`constCount, constants
      ensures Valid() && constants[..constCount] == old(constants[..constCount]) + [(name, value)]
    {
      constants[constCount] := (name, value);
      constCount := constCount + 1;
    }

    method Pass1(lines: seq<string>)
      requires Valid() && Fits(libc, lines)
      requires labelCount == 0 && constCount == 0 && appName == "shell" && ramSize == 0 && caps == 0
      modifies this`labelCount, this`constCount, this`appName, this`ramSize, this`caps, labels, constants
      ensures Valid() && Holds(Gather(libc, lines, |lines|))
    {
      hide Classify;
      var pc: nat := 0;
      for i := 0 to |lines|
        invariant Valid() && Holds(Gather(libc, lines, i)) && pc == Gather(libc, lines, i).pc
      {
        TablesGrow(libc, lines, i + 1, |lines|);
        match Classify(libc, lines[i])
        case Name(name) => appName := name;
        case RamSize(value) => ramSize := value;
        case Capabilities(value) => caps := value;
        case Equ(name, value) => AddConstant(name, value);
        case Label(name) => AddLabel(name, Wrap32(pc));
        case Instruction(_) => pc := pc + 4;
        case Nothing =>
        case Ignored =>
      }
    }

    method Pass2(lines: seq<string>)
      requires Valid() && codeLen == 0 && Fits(libc, lines) && Tables() == EnvOf(libc, lines)
      modifies code, this`codeLen
      ensures Valid() && Emitted() == Code(EnvOf(libc, lines), lines, |lines|)
    {
      hide Encode, SkipSpace, Assembled;
      var pc: nat := 0;
      for i := 0 to |lines|
        invariant Valid() && Emitted() == Code(EnvOf(libc, lines), lines, i)
        invariant codeLen == pc == 4 * Instructions(lines, i)
      {
        if Assembled(lines[i]) {
          InstructionsGrow(lines, i + 1, |lines|);
          AssembleLine(SkipSpace(lines[i]), Wrap32(pc));
          pc := pc + 4;
        }
      }
    }

    /** The output file: the fields of the header one after another, then the code. */
    method WriteImage() returns (out: seq<byte>)
      requires Valid() && |appName| <= 15
      ensures out == HeaderBytes(HeaderFor(Gathered(0, [], [], appName, ramSize, caps), codeLen)) + Emitted()
    {
      var name := Chars(appName) + Zeros(16 - |appName|);
      out := Bytes32(APP_MAGIC) + name;
      out := out + Bytes32(1) + Bytes32(codeLen) + Bytes32(ramSize);
      out := out + Bytes32(0) + Bytes32(caps) + Bytes32(0);
      out := out + code[..codeLen];
    }

    /** From source lines to the bytes of the output file. */
    method Translate(lines: seq<string>) returns (out: seq<byte>)
      requires Valid() && Fits(libc, lines)
      requires labelCount == 0 && constCount == 0 && codeLen == 0 && appName == "shell" && ramSize == 0 && caps == 0
      modifies this, labels, constants, code
      ensures out == ImageOf(libc, lines)
    {
      hide Gather, Code, Bytes32, EnvOf, Fits;
      Assemble(lines);
      NameFits(libc, lines, |lines|);
      out := WriteImage();
    }

    /** Both passes over a file whose labels, constants and instructions fit the buffers. */
    method Assemble(lines: seq<string>)
      requires Valid() && Fits(libc, lines)
      requires labelCount == 0 && constCount == 0 && codeLen == 0 && appName == "shell" && ramSize == 0 && caps == 0
      modifies this, labels, constants, code
      ensures Valid() && Holds(Gather(libc, lines, |lines|))
      ensures Emitted() == Code(EnvOf(libc, lines), lines, |lines|)
    {
      Pass1(lines);
      Pass2(lines);
    }
  }

  lemma {:induction false} TablesGrow(c: Libc, lines: seq<string>, m: nat, n: nat)
    requires m <= n <= |lines|
    ensures |Gather(c, lines, m).labels| <= |Gather(c, lines, n).labels|
    ensures |Gather(c, lines, m).constants| <= |Gather(c, lines, n).constants|
  {
    hide Classify;
    if m < n {
      TablesGrow(c, lines, m, n - 1);
    }
  }
}
