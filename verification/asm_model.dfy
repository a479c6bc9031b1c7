/**
 asm/vm_asm.c as functions: how a line of text is classified, how operands are resolved, and what
 word each instruction becomes. The class in asm.dfy is proved to compute these over its buffers.
 `strtoul` and `atoi` are library calls and stay parameters.
 */
module AsmModel {
  import opened Words

  datatype Libc = Libc(strtoul: string -> uint32, atoi: string -> int)

  const MAX_LABELS: nat := 512
  const MAX_CODE: nat := 65536
  const NAME_LIMIT: nat := 63

  // ----- text -----

  predicate IsSpace(c: char) {
    c == ' ' || '\U{0009}' <= c <= '\U{000D}'
  }

  predicate IsDigit(c: char) {
    '0' <= c <= '9'
  }

  function SkipSpace(s: string): (r: string)
    ensures |r| <= |s|
    ensures |r| > 0 ==> !IsSpace(r[0])
  {
    if |s| > 0 && IsSpace(s[0]) then SkipSpace(s[1..]) else s
  }

  /** The characters up to the first one that is in `stops`. */
  function UpTo(s: string, stops: set<char>): (r: string)
    ensures r <= s
    ensures forall i :: 0 <= i < |r| ==> r[i] !in stops
    ensures |r| < |s| ==> s[|r|] in stops
  {
    if |s| == 0 || s[0] in stops then "" else [s[0]] + UpTo(s[1..], stops)
  }

  const SPACES: set<char> := {' ', '\U{0009}', '\U{000A}', '\U{000B}', '\U{000C}', '\U{000D}'}

  /** What `%s` reads: blanks are skipped, then everything up to the next blank. */
  function Token(s: string): string {
    UpTo(SkipSpace(s), SPACES)
  }

  function AfterToken(s: string): string {
    SkipSpace(s)[|Token(s)|..]
  }

  /** The `k`-th blank-separated token; an operand that is not there reads as empty. */
  function TokenAt(s: string, k: nat): string
    decreases k
  {
    if k == 0 then Token(s) else TokenAt(AfterToken(s), k - 1)
  }

  function Limited(s: string, limit: nat): (r: string)
    ensures |r| <= limit
  {
    if |s| <= limit then s else s[..limit]
  }

  // ----- lines -----

  datatype Line =
    | Nothing
    | Name(name: string)
    | RamSize(value: uint32)
    | Capabilities(value: uint32)
    | Equ(name: string, value: uint32)
    | Label(name: string)
    | Ignored
    | Instruction(text: string)

  predicate StartsWith(s: string, prefix: string) {
    prefix <= s
  }

  /** `.name "..."`, with at least one character between the quotes. */
  function ParseName(p: string): Option<string> {
    if !StartsWith(p, ".name") then None
    else
      var rest := SkipSpace(p[5..]);
      if |rest| == 0 || rest[0] != '"' then None
      else
        var name := UpTo(rest[1..], {'"'});
        if |name| == 0 then None else Some(name)
  }

  /** A keyword followed by one token. */
  function ParseWord(p: string, keyword: string): Option<string> {
    if !StartsWith(p, keyword) then None
    else
      var word := Token(p[|keyword|..]);
      if |word| == 0 then None else Some(word)
  }

  /** `.equ name, value`. */
  function ParseEqu(p: string): Option<(string, string)> {
    if !StartsWith(p, ".equ") then None
    else
      var rest := SkipSpace(p[4..]);
      var name := UpTo(rest, {','});
      if |name| == 0 || |name| == |rest| then None
      else
        var value := Token(rest[|name| + 1..]);
        if |value| == 0 then None else Some((name, value))
  }

  /** `strtok(p, ":")` and the blanks skipped after it. */
  function LabelName(p: string): string {
    Limited(SkipSpace(UpTo(SkipColons(p), {':'})), NAME_LIMIT)
  }

  function SkipColons(s: string): string {
    if |s| > 0 && s[0] == ':' then SkipColons(s[1..]) else s
  }

  /** The branches of the first pass, in their order. */
  function Classify(c: Libc, line: string): Line {
    var p := SkipSpace(line);
    if |p| == 0 || p[0] == '#' then Nothing
    else if ParseName(p).Some? then Name(Limited(ParseName(p).value, 15))
    else if ParseWord(p, ".ramsize").Some? then RamSize(c.strtoul(ParseWord(p, ".ramsize").value))
    else if ParseWord(p, ".capabilities").Some? then Capabilities(c.strtoul(ParseWord(p, ".capabilities").value))
    else if ParseEqu(p).Some? then
      Equ(Limited(ParseEqu(p).value.0, NAME_LIMIT), c.strtoul(ParseEqu(p).value.1))
    else if ':' in p then Label(LabelName(p))
    else if p[0] != '.' then Instruction(p)
    else Ignored
  }

  /** The test by which the second pass picks the lines to assemble. */
  predicate Assembled(line: string) {
    var p := SkipSpace(line);
    |p| > 0 && p[0] != '#' && ':' !in p && p[0] != '.'
  }

  /** The two passes pick the same lines. */
  lemma PassesPickSameLines(c: Libc, line: string)
    ensures Assembled(line) <==> Classify(c, line).Instruction?
    ensures Assembled(line) ==> Classify(c, line) == Instruction(SkipSpace(line))
  {
    var p := SkipSpace(line);
    if |p| > 0 && p[0] != '.' {
      assert !StartsWith(p, ".name") by { assert ".name"[0] == '.'; }
      assert !StartsWith(p, ".ramsize") by { assert ".ramsize"[0] == '.'; }
      assert !StartsWith(p, ".capabilities") by { assert ".capabilities"[0] == '.'; }
      assert !StartsWith(p, ".equ") by { assert ".equ"[0] == '.'; }
    }
  }

  /** A line picked for assembly yields a first token, and not a comment or a directive. */
  lemma AssembledHasMnemonic(line: string)
    requires Assembled(line)
    ensures var op := Token(SkipSpace(line)); |op| > 0 && op[0] != '#' && op[0] != '.'
  {
    var p := SkipSpace(line);
    assert SkipSpace(p) == p;
    assert p[0] !in SPACES;
  }

  // ----- symbol tables -----

  type Table = seq<(string, uint32)>

  function Lookup(table: Table, name: string): (r: Option<uint32>)
    ensures r.None? ==> forall i :: 0 <= i < |table| ==> table[i].0 != name
    ensures r.Some? ==> exists i :: 0 <= i < |table| && table[i].0 == name && table[i].1 == r.value
  {
    if |table| == 0 then None
    else if table[0].0 == name then Some(table[0].1)
    else Lookup(table[1..], name)
  }

  /** The operand without its decoration: what stands between parentheses, or before the first comma. */
  function Clean(s: string): string {
    if '(' in s then
      var inner := s[|UpTo(s, {'('})| + 1..];
      if ')' in inner then UpTo(inner, {')'}) else ""
    else UpTo(s, {','})
  }

  predicate Numeric(s: string) {
    |s| > 0 && (IsDigit(s[0]) || (s[0] == '-' && |s| > 1 && IsDigit(s[1])))
  }

  datatype Env = Env(libc: Libc, constants: Table, labels: Table)

  /** `resolve_value`: numbers, then constants, then labels; anything else is 0. */
  function Resolve(env: Env, s: string): uint32 {
    var clean := Clean(s);
    if Numeric(clean) then env.libc.strtoul(clean)
    else if Lookup(env.constants, clean).Some? then Lookup(env.constants, clean).value
    else if Lookup(env.labels, clean).Some? then Lookup(env.labels, clean).value
    else 0
  }

  const REGISTERS: seq<string> := [
    "zero", "at", "v0", "v1", "a0", "a1", "a2", "a3", "t0", "t1", "t2", "t3", "t4", "t5", "t6", "t7",
    "s0", "s1", "s2", "s3", "s4", "s5", "s6", "s7", "t8", "t9", "k0", "k1", "gp", "sp", "fp", "ra"]

  /** `reg_to_num`, stored in a `uint8_t` by its callers. */
  function Register(c: Libc, operand: string): byte {
    var r := UpTo(operand, {','});
    var i := IndexOf(REGISTERS, r, 0);
    if i < |REGISTERS| then i
    else if |r| > 1 && r[0] == 'r' && IsDigit(r[1]) then c.atoi(r[1..]) % 256
    else 0
  }

  // ----- instructions -----

  /** `opcode`, `rd`, `rs`, `rt` and the 16 bits of `imm`, or a whole word for the formats that jump to `emit`. */
  datatype Fields = Fields(opcode: byte, rd: byte, rs: byte, rt: byte, imm: nat) | Whole(word: uint32)

  function Half(x: int): (r: nat)
    ensures r < 0x1_0000
  {
    x % 0x1_0000
  }

  predicate Contains(s: string, t: string) {
    t <= s || (|s| > 0 && Contains(s[1..], t))
  }

  /** The branch immediate, in the source's unsigned arithmetic. */
  function BranchImm(target: uint32, pc: uint32): (r: nat)
    ensures r < 0x1_0000
  {
    Half(Wrap32(target - pc - 4) / 4)
  }

  function Jump(opcode: byte, target: uint32): uint32 {
    LeftShifts(opcode);
    ByteMasks(target);
    JumpIs(opcode, target);
    Or(Shl(opcode, 24), And(target, 0xFF_FFFF))
  }

  lemma JumpIs(opcode: byte, target: uint32)
    ensures Or(Shl(opcode, 24), And(target, 0xFF_FFFF)) == 0x100_0000 * opcode + target % 0x100_0000
  {
    Pow2Of32();
    LeftShifts(opcode);
    LeftShifts(0);
    ByteMasks(target);
    OrZero(opcode);
    OrZero(target % 0x100_0000);
    OrSplit(24, opcode, 0, 0, target % 0x100_0000);
  }

  /** The chain of mnemonics in `assemble_line`; an unknown one leaves every field 0. */
  function Decide(env: Env, op: string, a1: string, a2: string, a3: string, pc: uint32): (f: Fields)
    ensures f.Fields? ==> f.imm < 0x1_0000
  {
    var c := env.libc;
    if op == "ADD" then Fields(0x01, Register(c, a1), Register(c, a2), Register(c, a3), 0)
    else if op == "SUB" then Fields(0x02, Register(c, a1), Register(c, a2), Register(c, a3), 0)
    else if op == "ADDI" then
      var v := Resolve(env, a3);
      var value := if Contains(a3, "hi(") then Shr(v, 16) else if Contains(a3, "lo(") then And(v, 0xFFFF) else v;
      Fields(0x03, Register(c, a1), Register(c, a2), 0, Half(value))
    else if op == "LUI" then Fields(0x13, Register(c, a1), 0, 0, Half(Shr(Resolve(env, a2), 16)))
    else if op == "MOV" then Fields(0x12, Register(c, a1), Register(c, a2), 0, 0)
    else if op == "LOAD" then
      if '(' in a2 then
        Fields(0x20, Register(c, a1), Register(c, a2[|UpTo(a2, {'('})| + 1..]), 0, Half(c.atoi(a2)))
      else Fields(0x20, Register(c, a1), Register(c, a2), 0, Half(Resolve(env, a3)))
    else if op == "STORE" then Fields(0x21, Register(c, a3), Register(c, a1), 0, Half(Resolve(env, a2)))
    else if op == "LOADB" then Fields(0x22, Register(c, a1), Register(c, a2), 0, Half(Resolve(env, a3)))
    else if op == "STOREB" then Fields(0x23, Register(c, a3), Register(c, a1), 0, Half(Resolve(env, a2)))
    else if op == "BEQ" || op == "BNE" then
      Fields(if op == "BEQ" then 0x30 else 0x31, Register(c, a1), Register(c, a2), 0, BranchImm(Resolve(env, a3), pc))
    else if op == "JMP" then Whole(Jump(0x33, Resolve(env, a1)))
    else if op == "CALL" then Whole(Jump(0x34, Resolve(env, a1)))
    else if op == "RET" then Whole(0x3500_0000)
    else if op == "VCALL" then Whole(0x5000_0000)
    else if op == "HALT" then Whole(0xFF00_0000)
    else Fields(0, 0, 0, 0, 0)
  }

  predicate Immediate(opcode: byte) {
    opcode == 0x03 || opcode == 0x13 || opcode >= 0x20
  }

  /** The two packings: three registers, or two and a 16-bit immediate laid over the third byte. */
  function Pack(f: Fields): uint32
    requires f.Fields? ==> f.imm < 0x1_0000
  {
    match f
    case Whole(word) => word
    case Fields(opcode, rd, rs, rt, imm) =>
      var low := if Immediate(opcode) then imm else And(rt, 0xFF);
      AndBelow(rt, 0xFF);
      Packed(opcode, rd, rs, low);
      Or(Or(Or(Shl(opcode, 24), Shl(rd, 16)), Shl(rs, 8)), low)
  }

  function WordFor(env: Env, op: string, a1: string, a2: string, a3: string, pc: uint32): uint32 {
    hide Decide;
    Pack(Decide(env, op, a1, a2, a3, pc))
  }

  function Encode(env: Env, text: string, pc: uint32): uint32 {
    WordFor(env, TokenAt(text, 0), TokenAt(text, 1), TokenAt(text, 2), TokenAt(text, 3), pc)
  }

  /** A word in the byte order of the little-endian host and target. */
  function Bytes32(x: uint32): (r: seq<byte>)
    ensures |r| == 4
  {
    [x % 0x100, x / 0x100 % 0x100, x / 0x1_0000 % 0x100, x / 0x100_0000]
  }

  function Word32(b: seq<byte>, at: nat): uint32
    requires at + 4 <= |b|
  {
    b[at] as int + 0x100 * (b[at + 1] as int) + 0x1_0000 * (b[at + 2] as int) + 0x100_0000 * (b[at + 3] as int)
  }

  lemma BytesAddUp(x: uint32)
    ensures var b := Bytes32(x);
      x == b[0] as int + 0x100 * (b[1] as int) + 0x1_0000 * (b[2] as int) + 0x100_0000 * (b[3] as int)
  {
    var y := x / 0x100;
    var z := y / 0x100;
    assert x / 0x1_0000 == z && x / 0x100_0000 == z / 0x100;
  }

  lemma WordOfBytes(x: uint32, b: seq<byte>, at: nat)
    requires at + 4 <= |b| && b[at..at + 4] == Bytes32(x)
    ensures Word32(b, at) == x
  {
    var four := b[at..at + 4];
    assert b[at] == four[0] && b[at + 1] == four[1] && b[at + 2] == four[2] && b[at + 3] == four[3];
    hide Bytes32;
    BytesAddUp(x);
  }

  // ----- the passes -----

  /** What the first pass has gathered. */
  datatype Gathered = Gathered(pc: nat, labels: Table, constants: Table, name: string, ramSize: uint32, caps: uint32)

  function Gather(c: Libc, lines: seq<string>, n: nat): Gathered
    requires n <= |lines|
  {
    if n == 0 then Gathered(0, [], [], "shell", 0, 0)
    else
      var g := Gather(c, lines, n - 1);
      match Classify(c, lines[n - 1])
      case Name(name) => g.(name := name)
      case RamSize(value) => g.(ramSize := value)
      case Capabilities(value) => g.(caps := value)
      case Equ(name, value) => g.(constants := g.constants + [(name, value)])
      case Label(name) => g.(labels := g.labels + [(name, Wrap32(g.pc))])
      case Instruction(_) => g.(pc := g.pc + 4)
      case _ => g
  }

  /** Instruction lines among the first `n`. */
  function Instructions(lines: seq<string>, n: nat): nat
    requires n <= |lines|
  {
    if n == 0 then 0 else Instructions(lines, n - 1) + if Assembled(lines[n - 1]) then 1 else 0
  }

  /** The code after the second pass has seen the first `n` lines. */
  function Code(env: Env, lines: seq<string>, n: nat): seq<byte>
    requires n <= |lines|
  {
    if n == 0 then []
    else
      var code := Code(env, lines, n - 1);
      if Assembled(lines[n - 1]) then
        code + Bytes32(Encode(env, SkipSpace(lines[n - 1]), Wrap32(4 * Instructions(lines, n - 1))))
      else code
  }

  function EnvOf(c: Libc, lines: seq<string>): Env {
    var g := Gather(c, lines, |lines|);
    Env(c, g.constants, g.labels)
  }

  /** What the source's fixed buffers can take. */
  ghost predicate Fits(c: Libc, lines: seq<string>) {
    && 4 * Instructions(lines, |lines|) <= MAX_CODE
    && |Gather(c, lines, |lines|).labels| <= MAX_LABELS
    && |Gather(c, lines, |lines|).constants| <= MAX_LABELS
  }
}
