/**
 The application image: the 44-byte header that asm/vm_asm.c writes before the code, and the
 header that kernel/loader/app_loader.c reads, both in the `AppHeader` layout of
 kernel/vm/vm_types.h.
 */
module Image {
  import opened Words
  import opened AsmModel
  import opened AsmProofs
  import opened CStrings

  const HEADER_SIZE: nat := 44
  const APP_MAGIC: uint32 := 0xCAFE_FACE
  const ABI_MIN_VERSION: uint32 := 1
  const ABI_VERSION: uint32 := 1

  datatype Header = Header(
    magic: uint32, name: seq<byte>, version: uint32, codeSize: uint32,
    ramSize: uint32, entry: uint32, caps: uint32, checksum: uint32)

  function Chars(s: string): (r: seq<byte>)
    ensures |r| == |s|
  {
    seq(|s|, i requires 0 <= i < |s| => s[i] as int % 256)
  }

  // ----- layout -----

  /** The fields in the order in which they are written. */
  function HeaderBytes(h: Header): (r: seq<byte>)
    requires |h.name| == 16
    ensures |r| == HEADER_SIZE
  {
    Bytes32(h.magic) + h.name + Bytes32(h.version) + Bytes32(h.codeSize)
    + Bytes32(h.ramSize) + Bytes32(h.entry) + Bytes32(h.caps) + Bytes32(h.checksum)
  }

  /** The `AppHeader` that starts at the first byte. */
  function ReadHeader(b: seq<byte>): (h: Header)
    requires |b| >= HEADER_SIZE
    ensures |h.name| == 16
  {
    Header(Word32(b, 0), b[4..20], Word32(b, 20), Word32(b, 24), Word32(b, 28), Word32(b, 32), Word32(b, 36), Word32(b, 40))
  }

  /** Reading back what was written recovers every field, whatever follows the header. */
  lemma HeaderReadBack(h: Header, rest: seq<byte>)
    requires |h.name| == 16
    ensures ReadHeader(HeaderBytes(h) + rest) == h
  {
    hide Word32, Bytes32;
    var b := HeaderBytes(h) + rest;
    assert b[4..20] == h.name;
    WordOfBytes(h.magic, b, 0);
    WordOfBytes(h.version, b, 20);
    WordOfBytes(h.codeSize, b, 24);
    WordOfBytes(h.ramSize, b, 28);
    WordOfBytes(h.entry, b, 32);
    WordOfBytes(h.caps, b, 36);
    WordOfBytes(h.checksum, b, 40);
  }

  /** Four bytes, the lowest first, hold this number. */
  ghost predicate LittleEndian(bytes: seq<byte>, value: nat) {
    && |bytes| == 4
    && value == bytes[0] as int + 0x100 * bytes[1] as int + 0x1_0000 * bytes[2] as int + 0x100_0000 * bytes[3] as int
  }

  lemma LittleEndianOf(x: uint32)
    ensures LittleEndian(Bytes32(x), x)
  {
    BytesAddUp(x);
  }

  /** Where each field stands in what is written. */
  lemma WrittenLayout(h: Header, rest: seq<byte>)
    requires |h.name| == 16
    ensures var b := HeaderBytes(h) + rest;
      && LittleEndian(b[..4], h.magic) && b[4..20] == h.name
      && LittleEndian(b[20..24], h.version) && LittleEndian(b[24..28], h.codeSize)
      && LittleEndian(b[28..32], h.ramSize) && LittleEndian(b[32..36], h.entry)
      && LittleEndian(b[36..40], h.caps) && LittleEndian(b[40..44], h.checksum) && b[44..] == rest
  {
    LittleEndianOf(h.magic);
    LittleEndianOf(h.version);
    LittleEndianOf(h.codeSize);
    LittleEndianOf(h.ramSize);
    LittleEndianOf(h.entry);
    LittleEndianOf(h.caps);
    LittleEndianOf(h.checksum);
    hide Bytes32, LittleEndian;
    var b := HeaderBytes(h) + rest;
    assert b[..4] == Bytes32(h.magic) && b[4..20] == h.name && b[20..24] == Bytes32(h.version);
    assert b[24..28] == Bytes32(h.codeSize) && b[28..32] == Bytes32(h.ramSize) && b[32..36] == Bytes32(h.entry);
    assert b[36..40] == Bytes32(h.caps) && b[40..44] == Bytes32(h.checksum) && b[44..] == rest;
  }

  /** Where each field stands in what is read. */
  lemma ReadLayout(b: seq<byte>)
    requires |b| >= HEADER_SIZE
    ensures var h := ReadHeader(b);
      && LittleEndian(b[..4], h.magic) && h.name == b[4..20]
      && LittleEndian(b[20..24], h.version) && LittleEndian(b[24..28], h.codeSize)
      && LittleEndian(b[28..32], h.ramSize) && LittleEndian(b[32..36], h.entry)
      && LittleEndian(b[36..40], h.caps) && LittleEndian(b[40..44], h.checksum)
  {
  }

  lemma SameNumber(bytes: seq<byte>, x: nat, y: nat)
    requires LittleEndian(bytes, x) && LittleEndian(bytes, y)
    ensures x == y
  {
  }

  /** The magic number is these four bytes. */
  lemma MagicBytes(bytes: seq<byte>, value: nat)
    requires LittleEndian(bytes, value)
    ensures value == APP_MAGIC <==> bytes == [0xCE, 0xFA, 0xFE, 0xCA]
  {
  }

  // ----- the image of a program -----

  /** The header the assembler writes: version 1, entry point and checksum 0. */
  function HeaderFor(g: Gathered, codeSize: uint32): (h: Header)
    requires |g.name| <= 15
    ensures |h.name| == 16
  {
    Header(APP_MAGIC, Chars(g.name) + Zeros(16 - |g.name|), 1, codeSize, g.ramSize, 0, g.caps, 0)
  }

  lemma {:induction false} NameFits(c: Libc, lines: seq<string>, n: nat)
    requires n <= |lines|
    ensures |Gather(c, lines, n).name| <= 15
  {
    if n > 0 {
      NameFits(c, lines, n - 1);
    }
  }

  /** The whole file written for a source. */
  function ImageOf(c: Libc, lines: seq<string>): (r: seq<byte>)
    requires Fits(c, lines)
    ensures |r| == HEADER_SIZE + 4 * Instructions(lines, |lines|)
    ensures r[HEADER_SIZE..] == Code(EnvOf(c, lines), lines, |lines|)
  {
    NameFits(c, lines, |lines|);
    PassesAgree(c, EnvOf(c, lines), lines, |lines|);
    var code := Code(EnvOf(c, lines), lines, |lines|);
    HeaderBytes(HeaderFor(Gather(c, lines, |lines|), |code|)) + code
  }

  // ----- the application's name survives -----

  /** Text as `fgets` can deliver it: single-byte characters, none of them zero. */
  ghost predicate PlainText(s: string) {
    forall i :: 0 <= i < |s| ==> 0 < s[i] as int < 256
  }

  ghost predicate Plain(lines: seq<string>) {
    forall i :: 0 <= i < |lines| ==> PlainText(lines[i])
  }

  lemma {:induction false} SkipSpaceIsSuffix(s: string)
    ensures SkipSpace(s) == s[|s| - |SkipSpace(s)|..]
  {
    if |s| > 0 && IsSpace(s[0]) {
      SkipSpaceIsSuffix(s[1..]);
    }
  }

  lemma ParsedNameIsPlain(p: string)
    requires PlainText(p) && ParseName(p).Some?
    ensures PlainText(ParseName(p).value)
  {
    SkipSpaceIsSuffix(p[5..]);
  }

  lemma {:induction false} NameIsPlain(c: Libc, lines: seq<string>, n: nat)
    requires n <= |lines| && Plain(lines)
    ensures PlainText(Gather(c, lines, n).name)
  {
    if n > 0 {
      hide Classify;
      NameIsPlain(c, lines, n - 1);
      if Classify(c, lines[n - 1]).Name? {
        LineNameIsPlain(c, lines[n - 1]);
      }
    }
  }

  lemma LineNameIsPlain(c: Libc, line: string)
    requires PlainText(line) && Classify(c, line).Name?
    ensures PlainText(Classify(c, line).name)
  {
    SkipSpaceIsSuffix(line);
    ParsedNameIsPlain(SkipSpace(line));
  }
}
