/**
 What the directives of a source mean for the image and for the operands, told from the lines by their number:
 the last `.ramsize`, `.capabilities` and `.name` fill the header, the first `.equ` of a name is its value.
 */
module AsmDirectives {
  import opened Words
  import opened AsmModel
  import opened AsmProofs
  import opened CStrings
  import opened Image
  import opened AsmLines

  // ----- the shapes of lines -----

  /** `line[a..]` begins with the keyword, after blanks only; `line[b..e]` is the word behind it. */
  ghost predicate WordAt(line: string, keyword: string, a: nat, b: nat, e: nat) {
    && a + |keyword| <= b < e <= |line| && Blank(line[..a])
    && line[a..a + |keyword|] == keyword && Blank(line[a + |keyword|..b])
    && Word(line[b..e]) && Tail(line[e..])
  }

  /** The keyword `.name`, blanks, a quote at `q`, and the text up to the next quote or the end of the line. */
  ghost predicate NameAt(line: string, a: nat, q: nat, e: nat) {
    && a + 5 <= q < q + 1 < e <= |line| && Blank(line[..a]) && line[a..a + 5] == ".name" && Blank(line[a + 5..q])
    && line[q] == '"' && '"' !in line[q + 1..e] && (e < |line| ==> line[e] == '"')
  }

  /** `s`, what follows `.equ`: blanks, the name `s[n..m]`, a comma, blanks, and the word `s[b..e]`. */
  ghost predicate Equates(s: string, n: nat, m: nat, b: nat, e: nat) {
    && n < m < b < e <= |s| && Blank(s[..n]) && !IsSpace(s[n]) && ',' !in s[n..m] && s[m] == ','
    && Blank(s[m + 1..b]) && Word(s[b..e]) && Tail(s[e..])
  }

  ghost predicate EquAt(line: string, a: nat, n: nat, m: nat, b: nat, e: nat) {
    a + 4 <= |line| && Blank(line[..a]) && line[a..a + 4] == ".equ" && Equates(line[a + 4..], n, m, b, e)
  }

  /** The line gives the name this value. */
  ghost predicate Defines(line: string, name: string, value: string) {
    exists a: nat, n: nat, m: nat, b: nat, e: nat ::
      && EquAt(line, a, n, m, b, e)
      && name == Limited(line[a + 4..][n..m], 63) && value == line[a + 4..][b..e]
  }

  ghost predicate HasWord(line: string, keyword: string) {
    exists a, b, e :: WordAt(line, keyword, a, b, e)
  }

  ghost predicate HasName(line: string) {
    exists a, q, e :: NameAt(line, a, q, e)
  }

  // ----- they are what the first pass parses -----

  /** `SkipSpace` cuts a run of blanks off the front. */
  lemma {:induction false} SkipCuts(s: string) returns (k: nat)
    ensures k <= |s| && Blank(s[..k]) && SkipSpace(s) == s[k..]
  {
    if |s| > 0 && IsSpace(s[0]) {
      k := SkipCuts(s[1..]);
      assert forall i :: 0 <= i < k ==> s[i + 1] == s[1..][i];
      k := k + 1;
      assert forall i :: 0 < i < k ==> s[..k][i] == s[1..][..k - 1][i - 1];
      assert s[k..] == s[1..][k - 1..];
    } else {
      k := 0;
    }
  }

  lemma SkipTo(s: string, k: nat)
    requires k < |s| && Blank(s[..k]) && !IsSpace(s[k])
    ensures SkipSpace(s) == s[k..]
  {
    SkipBlank(s[..k], s[k..]);
    assert s[..k] + s[k..] == s;
  }

  lemma TokenOfWord(s: string, b: nat, e: nat)
    requires b < e <= |s| && Blank(s[..b]) && Word(s[b..e]) && Tail(s[e..])
    ensures Token(s) == s[b..e]
  {
    FirstToken(s[..b], s[b..e], s[e..]);
    assert s[..b] + s[b..e] + s[e..] == s;
  }

  lemma WordOfToken(s: string) returns (b: nat, e: nat)
    requires |Token(s)| > 0
    ensures b < e <= |s| && Blank(s[..b]) && Word(s[b..e]) && Tail(s[e..]) && Token(s) == s[b..e]
  {
    b := SkipCuts(s);
    var w := Token(s);
    e := b + |w|;
    assert s[b..][..|w|] == s[b..e] && w == s[b..e];
    forall i | 0 <= i < |w| ensures !IsSpace(w[i]) {
      SpacesAre(w[i]);
    }
    if e < |s| {
      assert s[b..][|w|] == s[e];
      SpacesAre(s[e]);
    }
  }

  lemma WordParses(line: string, keyword: string, a: nat, b: nat, e: nat)
    requires WordAt(line, keyword, a, b, e) && |keyword| > 0 && !IsSpace(keyword[0])
    ensures ParseWord(SkipSpace(line), keyword) == Some(line[b..e])
  {
    hide SkipSpace, Token, Blank, Word, Tail, IsSpace;
    assert line[a] == keyword[0] by { assert line[a..a + |keyword|][0] == line[a]; }
    SkipTo(line, a);
    var p, k := line[a..], |keyword|;
    assert p[..k] == line[a..a + k] == keyword;
    assert StartsWith(p, keyword);
    var s := p[k..];
    assert s == line[a + k..] && s[..b - a - k] == line[a + k..b] && s[b - a - k..e - a - k] == line[b..e];
    assert s[e - a - k..] == line[e..];
    TokenOfWord(s, b - a - k, e - a - k);
  }

  lemma ParsedIsWord(line: string, keyword: string)
    requires ParseWord(SkipSpace(line), keyword).Some?
    ensures HasWord(line, keyword)
  {
    var a := SkipCuts(line);
    var p, k := line[a..], |keyword|;
    var s := p[k..];
    var b, e := WordOfToken(s);
    hide SkipSpace, Token;
    assert s == line[a + k..] && s[..b] == line[a + k..a + k + b] && s[b..e] == line[a + k + b..a + k + e];
    assert s[e..] == line[a + k + e..] && line[a..a + k] == p[..k] == keyword;
    assert WordAt(line, keyword, a, a + k + b, a + k + e);
  }

  lemma QuoteEnds(rest: string, text: string, k: nat)
    requires k <= |rest| && rest[..k] == text && '"' !in text && (k < |rest| ==> rest[k] == '"')
    ensures UpTo(rest, {'"'}) == text
  {
    UpToIs(rest, '"', k);
  }

  lemma BehindQuote(s: string, q: nat, e: nat)
    requires q < e <= |s|
    ensures var rest := s[q..][1..];
      |rest| == |s| - q - 1 && rest[..e - q - 1] == s[q + 1..e] && (e < |s| ==> rest[e - q - 1] == s[e])
  {
    assert s[q..][1..] == s[q + 1..];
  }

  lemma QuotedText(s: string, q: nat, e: nat)
    requires q < e <= |s| && '"' !in s[q + 1..e] && (e < |s| ==> s[e] == '"')
    ensures UpTo(s[q..][1..], {'"'}) == s[q + 1..e]
  {
    BehindQuote(s, q, e);
    hide UpTo;
    QuoteEnds(s[q..][1..], s[q + 1..e], e - q - 1);
  }

  lemma NameParses(line: string, a: nat, q: nat, e: nat)
    requires NameAt(line, a, q, e)
    ensures ParseName(SkipSpace(line)) == Some(line[q + 1..e])
  {
    assert line[a] == '.' by { assert line[a..a + 5][0] == line[a]; }
    SkipTo(line, a);
    var p, s, i, j := line[a..], line[a + 5..], q - a - 5, e - a - 5;
    assert p[..5] == line[a..a + 5] && p[5..] == s;
    assert StartsWith(p, ".name");
    hide SkipSpace, Blank, UpTo;
    assert s[..i] == line[a + 5..q] && s[i] == line[q] && s[i + 1..j] == line[q + 1..e];
    SkipTo(s, i);
    QuotedText(s, i, j);
  }

  lemma UpToIs(s: string, stop: char, k: nat)
    requires k <= |s| && stop !in s[..k] && (k < |s| ==> s[k] == stop)
    ensures UpTo(s, {stop}) == s[..k]
  {
    assert UpTo(s, {stop}) <= s;
  }

  /** The text that `UpTo` cuts off behind a quote at `q`. */
  lemma TextBehind(s: string, q: nat) returns (e: nat)
    requires q < |s| && |UpTo(s[q..][1..], {'"'})| > 0
    ensures q + 1 < e <= |s| && '"' !in s[q + 1..e] && (e < |s| ==> s[e] == '"')
  {
    var text := UpTo(s[q..][1..], {'"'});
    e := q + 1 + |text|;
    BehindQuote(s, q, e);
    assert text == s[q + 1..e];
  }

  lemma ParsedIsName(line: string)
    requires ParseName(SkipSpace(line)).Some?
    ensures HasName(line)
  {
    var a := SkipCuts(line);
    var p, s := line[a..], line[a + 5..];
    assert p[..5] == line[a..a + 5] && p[5..] == s;
    var k := SkipCuts(s);
    hide SkipSpace, UpTo, Blank;
    assert s[..k] == line[a + 5..a + 5 + k] && s[k..] == line[a + 5 + k..];
    var e := TextBehind(line, a + 5 + k);
    assert NameAt(line, a, a + 5 + k, e);
  }

  lemma EquatesParse(s: string, n: nat, m: nat, b: nat, e: nat)
    requires Equates(s, n, m, b, e)
    ensures SkipSpace(s) == s[n..] && UpTo(s[n..], {','}) == s[n..m] && Token(s[m + 1..]) == s[b..e]
  {
    SkipTo(s, n);
    var rest := s[n..];
    assert rest[..m - n] == s[n..m] && rest[m - n] == s[m];
    UpToIs(rest, ',', m - n);
    var v := s[m + 1..];
    assert v[..b - m - 1] == s[m + 1..b] && v[b - m - 1..e - m - 1] == s[b..e] && v[e - m - 1..] == s[e..];
    hide SkipSpace, Token, UpTo;
    TokenOfWord(v, b - m - 1, e - m - 1);
  }

  lemma EquParses(line: string, a: nat, n: nat, m: nat, b: nat, e: nat)
    requires EquAt(line, a, n, m, b, e)
    ensures ParseEqu(SkipSpace(line)) == Some((line[a + 4..][n..m], line[a + 4..][b..e]))
  {
    assert line[a] == '.' by { assert line[a..a + 4][0] == line[a]; }
    SkipTo(line, a);
    var p, s := line[a..], line[a + 4..];
    assert p[..4] == line[a..a + 4] && p[4..] == s;
    assert StartsWith(p, ".equ");
    EquatesParse(s, n, m, b, e);
    hide SkipSpace, Token, UpTo, Equates;
    assert s[n..][m - n + 1..] == s[m + 1..];
  }

  lemma NameCut(s: string) returns (n: nat, m: nat)
    requires 0 < |UpTo(SkipSpace(s), {','})| < |SkipSpace(s)|
    ensures n < m < |s| && Blank(s[..n]) && !IsSpace(s[n]) && ',' !in s[n..m] && s[m] == ','
    ensures SkipSpace(s) == s[n..] && UpTo(s[n..], {','}) == s[n..m]
  {
    n := SkipCuts(s);
    var k := |UpTo(s[n..], {','})|;
    assert UpTo(s[n..], {','}) == s[n..][..k] && s[n..][k] == ',';
    m := n + k;
    hide SkipSpace, UpTo;
    Slices(s, n, 0, k);
  }

  lemma ParsedEquates(s: string) returns (n: nat, m: nat, b: nat, e: nat)
    requires var rest := SkipSpace(s);
      0 < |UpTo(rest, {','})| < |rest| && |Token(rest[|UpTo(rest, {','})| + 1..])| > 0
    ensures Equates(s, n, m, b, e)
    ensures var rest := SkipSpace(s);
      UpTo(rest, {','}) == s[n..m] && Token(rest[|UpTo(rest, {','})| + 1..]) == s[b..e]
  {
    hide SkipSpace, Token, UpTo, IsSpace;
    n, m := NameCut(s);
    assert s[n..][m - n + 1..] == s[m + 1..];
    var i, j := WordOfToken(s[m + 1..]);
    b, e := m + 1 + i, m + 1 + j;
    Slices(s, m + 1, 0, i);
    Slices(s, m + 1, i, j);
  }

  lemma Slices(s: string, n: nat, i: nat, j: nat)
    requires n <= |s| && i <= j <= |s| - n
    ensures s[n..][i..j] == s[n + i..n + j] && s[n..][i..] == s[n + i..] && s[n..][j..] == s[n + j..]
  {
  }

  lemma ParsedIsEqu(line: string)
    requires ParseEqu(SkipSpace(line)).Some?
    ensures Defines(line, Limited(ParseEqu(SkipSpace(line)).value.0, NAME_LIMIT), ParseEqu(SkipSpace(line)).value.1)
  {
    var a := SkipCuts(line);
    var p, s := line[a..], line[a + 4..];
    assert p[4..] == s && p[..4] == line[a..a + 4];
    var n, m, b, e := ParsedEquates(s);
    hide SkipSpace, Token, UpTo, Equates;
    assert EquAt(line, a, n, m, b, e);
  }

  // ----- how lines are classified -----

  /** The second character tells the directives apart, and the first one from all other lines. */
  lemma KeywordsDiffer(p: string)
    ensures StartsWith(p, ".name") ==> |p| > 1 && p[0] == '.' && p[1] == 'n'
    ensures StartsWith(p, ".ramsize") ==> |p| > 1 && p[0] == '.' && p[1] == 'r'
    ensures StartsWith(p, ".capabilities") ==> |p| > 1 && p[0] == '.' && p[1] == 'c'
    ensures StartsWith(p, ".equ") ==> |p| > 1 && p[0] == '.' && p[1] == 'e'
  {
  }

  /** Each directive is what its own parser takes. */
  lemma Classified(c: Libc, line: string)
    ensures var p := SkipSpace(line);
            var l := Classify(c, line);
      && (l.Name? <==> ParseName(p).Some?) && (l.RamSize? <==> ParseWord(p, ".ramsize").Some?)
      && (l.Capabilities? <==> ParseWord(p, ".capabilities").Some?) && (l.Equ? <==> ParseEqu(p).Some?)
      && (l.Name? ==> l.name == Limited(ParseName(p).value, 15))
      && (l.RamSize? ==> l.value == c.strtoul(ParseWord(p, ".ramsize").value))
      && (l.Capabilities? ==> l.value == c.strtoul(ParseWord(p, ".capabilities").value))
      && (l.Equ? ==> l.name == Limited(ParseEqu(p).value.0, NAME_LIMIT) && l.value == c.strtoul(ParseEqu(p).value.1))
  {
    var p := SkipSpace(line);
    KeywordsDiffer(p);
    hide SkipSpace, Token, UpTo;
  }

  /** The line has the shape of a directive. */
  ghost predicate IsDirective(line: string) {
    HasName(line) || HasWord(line, ".ramsize") || HasWord(line, ".capabilities") || exists n, w :: Defines(line, n, w)
  }

  lemma NoDirectiveParses(line: string)
    requires !IsDirective(line)
    ensures var p := SkipSpace(line);
      && ParseName(p).None? && ParseEqu(p).None?
      && ParseWord(p, ".ramsize").None? && ParseWord(p, ".capabilities").None?
  {
    var p := SkipSpace(line);
    if ParseName(p).Some? { ParsedIsName(line); }
    if ParseWord(p, ".ramsize").Some? { ParsedIsWord(line, ".ramsize"); }
    if ParseWord(p, ".capabilities").Some? { ParsedIsWord(line, ".capabilities"); }
    if ParseEqu(p).Some? { ParsedIsEqu(line); }
  }

  lemma OtherLine(c: Libc, line: string)
    requires |SkipSpace(line)| > 0 && SkipSpace(line)[0] != '#'
    requires SkipSpace(line)[0] == '.' ==> !IsDirective(line)
    ensures var p := SkipSpace(line);
      Classify(c, line) ==
        if ':' in p then Label(LabelName(p)) else if p[0] != '.' then Instruction(p) else Ignored
  {
    var p := SkipSpace(line);
    KeywordsDiffer(p);
    if p[0] == '.' { NoDirectiveParses(line); }
    hide SkipSpace, Token, UpTo, IsDirective;
  }

  /** A line with a colon that is no comment and no directive defines what stands before its first colon. */
  lemma LabelShape(c: Libc, gap: string, name: string, rest: string)
    requires Blank(gap) && |name| > 0 && !IsSpace(name[0]) && name[0] != '#' && ':' !in name
    requires name[0] == '.' ==> !IsDirective(gap + name + ":" + rest)
    ensures Classify(c, gap + name + ":" + rest) == Label(Limited(name, 63))
  {
    var p := name + ":" + rest;
    assert gap + name + ":" + rest == gap + p && p[0] == name[0];
    SkipBlank(gap, p);
    OtherLine(c, gap + p);
    CutAt(name, ':', rest);
    assert p == name + [':'] + rest && p[|name|] == ':' && name[0] in name;
    SkipBlank("", name);
    assert "" + name == name;
    hide SkipSpace, Token, UpTo, IsDirective, Classify;
  }

  lemma {:induction false} SkipsColons(colons: string, s: string)
    requires (forall i :: 0 <= i < |colons| ==> colons[i] == ':') && (|s| > 0 ==> s[0] != ':')
    ensures SkipColons(colons + s) == s
  {
    if |colons| > 0 {
      assert (colons + s)[1..] == colons[1..] + s;
      SkipsColons(colons[1..], s);
    } else {
      assert colons + s == s;
    }
  }

  /** Colons in front of a name are passed over, and the name then ends at the next colon or with the line. */
  lemma ColonsInFront(c: Libc, gap: string, colons: string, gap': string, name: string, rest: string)
    requires Blank(gap) && Blank(gap') && |colons| > 0 && forall i :: 0 <= i < |colons| ==> colons[i] == ':'
    requires |name| > 0 && !IsSpace(name[0]) && ':' !in name && (|rest| > 0 ==> rest[0] == ':')
    ensures Classify(c, gap + (colons + (gap' + name + rest))) == Label(Limited(name, 63))
  {
    var s := gap' + name + rest;
    var p := colons + s;
    assert p[0] == colons[0] && p[0] == ':' && s[0] == if |gap'| > 0 then gap'[0] else name[0];
    SkipBlank(gap, p);
    OtherLine(c, gap + p);
    SkipsColons(colons, s);
    assert s[..|gap'| + |name|] == gap' + name;
    UpToIs(s, ':', |gap'| + |name|);
    SkipBlank(gap', name);
    hide SkipSpace, Token, UpTo, IsDirective, Classify, SkipColons;
  }

  /** A line that begins with a dot, has no colon and is no directive does nothing in either pass. */
  lemma IgnoredShape(c: Libc, gap: string, text: string)
    requires Blank(gap) && |text| > 0 && text[0] == '.' && ':' !in text && !IsDirective(gap + text)
    ensures Classify(c, gap + text) == Ignored && !Assembled(gap + text)
  {
    SkipBlank(gap, text);
    OtherLine(c, gap + text);
    hide SkipSpace, Token, UpTo, IsDirective, Classify;
  }

  /** Any other line that begins with neither a dot nor a hash sign is an instruction. */
  lemma InstructionShape(c: Libc, gap: string, text: string)
    requires Blank(gap) && |text| > 0 && !IsSpace(text[0]) && text[0] != '#' && text[0] != '.' && ':' !in text
    ensures Classify(c, gap + text) == Instruction(text) && Assembled(gap + text) && SkipSpace(gap + text) == text
  {
    SkipBlank(gap, text);
    KeywordsDiffer(text);
    hide SkipSpace, Token, UpTo;
  }

  // ----- what the last directive leaves -----

  ghost predicate NoWordFrom(lines: seq<string>, keyword: string, m: nat, n: nat)
    requires m <= n <= |lines|
  {
    forall k :: m <= k < n ==> !HasWord(lines[k], keyword)
  }

  lemma WordLine(c: Libc, line: string, a: nat, b: nat, e: nat)
    ensures WordAt(line, ".ramsize", a, b, e) ==> Classify(c, line) == RamSize(c.strtoul(line[b..e]))
    ensures WordAt(line, ".capabilities", a, b, e) ==> Classify(c, line) == Capabilities(c.strtoul(line[b..e]))
  {
    Classified(c, line);
    hide Classify, SkipSpace, ParseWord;
    if WordAt(line, ".ramsize", a, b, e) { WordParses(line, ".ramsize", a, b, e); }
    if WordAt(line, ".capabilities", a, b, e) { WordParses(line, ".capabilities", a, b, e); }
  }

  lemma NoWordLine(c: Libc, line: string)
    ensures !HasWord(line, ".ramsize") ==> !Classify(c, line).RamSize?
    ensures !HasWord(line, ".capabilities") ==> !Classify(c, line).Capabilities?
    ensures !HasName(line) ==> !Classify(c, line).Name?
  {
    Classified(c, line);
    hide Classify, SkipSpace, ParseWord, ParseName;
    if Classify(c, line).RamSize? { ParsedIsWord(line, ".ramsize"); }
    if Classify(c, line).Capabilities? { ParsedIsWord(line, ".capabilities"); }
    if Classify(c, line).Name? { ParsedIsName(line); }
  }

  /** Lines without the directive leave the field as it was. */
  lemma {:induction false} FieldsStay(c: Libc, lines: seq<string>, m: nat, n: nat)
    requires m <= n <= |lines|
    ensures NoWordFrom(lines, ".ramsize", m, n) ==> Gather(c, lines, n).ramSize == Gather(c, lines, m).ramSize
    ensures NoWordFrom(lines, ".capabilities", m, n) ==> Gather(c, lines, n).caps == Gather(c, lines, m).caps
    ensures (forall k :: m <= k < n ==> !HasName(lines[k])) ==> Gather(c, lines, n).name == Gather(c, lines, m).name
  {
    hide Classify, HasWord, HasName;
    if m < n {
      FieldsStay(c, lines, m, n - 1);
      NoWordLine(c, lines[n - 1]);
    }
  }

  /** The header of the image gives as RAM size the word of the last `.ramsize` line. */
  lemma RamSizeField(c: Libc, lines: seq<string>, i: nat, a: nat, b: nat, e: nat)
    requires Fits(c, lines) && i < |lines| && WordAt(lines[i], ".ramsize", a, b, e)
    requires NoWordFrom(lines, ".ramsize", i + 1, |lines|)
    ensures LittleEndian(ImageOf(c, lines)[28..32], c.strtoul(lines[i][b..e]))
  {
    WordLine(c, lines[i], a, b, e);
    FieldsStay(c, lines, i + 1, |lines|);
    ImageFields(c, lines);
    hide Classify, WordAt, ImageOf, NoWordFrom, Fits, LittleEndian;
  }

  /** And as capabilities the word of the last `.capabilities` line. */
  lemma CapabilitiesField(c: Libc, lines: seq<string>, i: nat, a: nat, b: nat, e: nat)
    requires Fits(c, lines) && i < |lines| && WordAt(lines[i], ".capabilities", a, b, e)
    requires NoWordFrom(lines, ".capabilities", i + 1, |lines|)
    ensures LittleEndian(ImageOf(c, lines)[36..40], c.strtoul(lines[i][b..e]))
  {
    WordLine(c, lines[i], a, b, e);
    FieldsStay(c, lines, i + 1, |lines|);
    ImageFields(c, lines);
    hide Classify, WordAt, ImageOf, NoWordFrom, Fits, LittleEndian;
  }

  /** And as name the first 15 characters between the quotes of the last `.name` line, with zeros behind. */
  lemma NameField(c: Libc, lines: seq<string>, i: nat, a: nat, q: nat, e: nat)
    requires Fits(c, lines) && i < |lines| && NameAt(lines[i], a, q, e)
    requires forall k :: i < k < |lines| ==> !HasName(lines[k])
    ensures var text := lines[i][q + 1..e];
            var shown := if |text| <= 15 then text else text[..15];
      ImageOf(c, lines)[4..20] == Chars(shown) + Zeros(16 - |shown|)
  {
    NameParses(lines[i], a, q, e);
    Classified(c, lines[i]);
    FieldsStay(c, lines, i + 1, |lines|);
    ImageFields(c, lines);
    hide Classify, NameAt, ImageOf, Fits, LittleEndian, SkipSpace, ParseName, HasName, Chars, Zeros;
  }

  /** Without such lines: no RAM, no capabilities, and the name `shell`. */
  lemma DefaultFields(c: Libc, lines: seq<string>)
    requires Fits(c, lines)
    ensures NoWordFrom(lines, ".ramsize", 0, |lines|) ==> LittleEndian(ImageOf(c, lines)[28..32], 0)
    ensures NoWordFrom(lines, ".capabilities", 0, |lines|) ==> LittleEndian(ImageOf(c, lines)[36..40], 0)
    ensures (forall k :: 0 <= k < |lines| ==> !HasName(lines[k])) ==>
      ImageOf(c, lines)[4..20] == Chars("shell") + Zeros(11)
  {
    FieldsStay(c, lines, 0, |lines|);
    ImageFields(c, lines);
    hide ImageOf, Fits, LittleEndian, HasName, NoWordFrom, Chars, Zeros;
  }

  /** The bytes of the header of an image: its fixed fields, and those the directives fill. */
  lemma ImageFields(c: Libc, lines: seq<string>)
    requires Fits(c, lines)
    ensures |Gather(c, lines, |lines|).name| <= 15
    ensures var b := ImageOf(c, lines);
            var g := Gather(c, lines, |lines|);
      && b[..4] == [0xCE, 0xFA, 0xFE, 0xCA] && b[4..20] == Chars(g.name) + Zeros(16 - |g.name|)
      && LittleEndian(b[20..24], 1) && LittleEndian(b[24..28], 4 * Instructions(lines, |lines|))
      && LittleEndian(b[28..32], g.ramSize) && LittleEndian(b[32..36], 0)
      && LittleEndian(b[36..40], g.caps) && LittleEndian(b[40..44], 0)
  {
    NameFits(c, lines, |lines|);
    PassesAgree(c, EnvOf(c, lines), lines, |lines|);
    var code := Code(EnvOf(c, lines), lines, |lines|);
    var g := Gather(c, lines, |lines|);
    hide Gather, Code, Instructions, EnvOf, HeaderBytes, Fits;
    WrittenLayout(HeaderFor(g, |code|), code);
    MagicBytes(ImageOf(c, lines)[..4], APP_MAGIC);
    hide LittleEndian;
  }

  // ----- what a constant is worth -----

  lemma DefinesIff(c: Libc, line: string, name: string, value: string)
    ensures Defines(line, name, value) ==> Classify(c, line) == Equ(name, c.strtoul(value))
    ensures Classify(c, line).Equ? && Classify(c, line).name == name ==> exists w :: Defines(line, name, w)
  {
    Classified(c, line);
    hide Classify, SkipSpace, ParseEqu, Limited;
    if Defines(line, name, value) {
      var a: nat, n: nat, m: nat, b: nat, e: nat :|
        && EquAt(line, a, n, m, b, e)
        && name == Limited(line[a + 4..][n..m], 63) && value == line[a + 4..][b..e];
      EquParses(line, a, n, m, b, e);
    }
    if Classify(c, line).Equ? {
      ParsedIsEqu(line);
    }
  }

  /** Line `i` is the first to give the name a value. */
  ghost predicate FirstGives(lines: seq<string>, i: nat, name: string, value: string) {
    && i < |lines| && Defines(lines[i], name, value)
    && forall k, w :: 0 <= k < i ==> !Defines(lines[k], name, w)
  }

  lemma {:induction false} ConstantBound(c: Libc, lines: seq<string>, i: nat, name: string, value: string, n: nat)
    requires FirstGives(lines, i, name, value) && n <= |lines|
    ensures Lookup(Gather(c, lines, n).constants, name) == if n <= i then None else Some(c.strtoul(value))
  {
    hide Classify, Defines, Lookup;
    if n > 0 {
      ConstantBound(c, lines, i, name, value, n - 1);
      DefinesIff(c, lines[n - 1], name, value);
      var g := Gather(c, lines, n - 1);
      match Classify(c, lines[n - 1]) {
        case Equ(other, v) => LookupAppend(g.constants, other, v, name);
        case _ =>
      }
    } else {
      NothingBound(name);
    }
  }

  lemma NothingBound(name: string)
    ensures Lookup([], name) == None
  {
  }

  /** An operand that is not a number and that some `.equ` defines stands for the first value given to it. */
  lemma ConstantMeans(c: Libc, lines: seq<string>, i: nat, value: string, operand: string)
    requires FirstGives(lines, i, Clean(operand), value) && !Numeric(Clean(operand))
    ensures Resolve(EnvOf(c, lines), operand) == c.strtoul(value)
  {
    ConstantBound(c, lines, i, Clean(operand), value, |lines|);
    hide Clean, Numeric, FirstGives, Gather, Lookup;
  }

  /** A name that no `.equ` line defines is no constant. */
  lemma {:induction false} NoConstant(c: Libc, lines: seq<string>, name: string, n: nat)
    requires n <= |lines| && forall k, w :: 0 <= k < n ==> !Defines(lines[k], name, w)
    ensures Lookup(Gather(c, lines, n).constants, name).None?
  {
    hide Classify, Defines, Lookup;
    if n > 0 {
      NoConstant(c, lines, name, n - 1);
      DefinesIff(c, lines[n - 1], name, "");
      var g := Gather(c, lines, n - 1);
      match Classify(c, lines[n - 1]) {
        case Equ(other, v) => LookupAppend(g.constants, other, v, name);
        case _ =>
      }
    } else {
      NothingBound(name);
    }
  }

  lemma {:induction false} NoLabel(c: Libc, lines: seq<string>, name: string, n: nat)
    requires n <= |lines| && forall k :: 0 <= k < n ==> Classify(c, lines[k]) != Label(name)
    ensures Lookup(Gather(c, lines, n).labels, name).None?
  {
    hide Classify, Lookup, Wrap32;
    if n > 0 {
      NoLabel(c, lines, name, n - 1);
      var g := Gather(c, lines, n - 1);
      match Classify(c, lines[n - 1]) {
        case Label(other) => LookupAppend(g.labels, other, Wrap32(g.pc), name);
        case _ =>
      }
    } else {
      NothingBound(name);
    }
  }

  /** An operand that no line defines and that is no number stands for 0. */
  lemma UnboundMeansNothing(c: Libc, lines: seq<string>, operand: string)
    requires !Numeric(Clean(operand))
    requires forall k, w :: 0 <= k < |lines| ==> !Defines(lines[k], Clean(operand), w)
    requires forall k :: 0 <= k < |lines| ==> Classify(c, lines[k]) != Label(Clean(operand))
    ensures Resolve(EnvOf(c, lines), operand) == 0
  {
    NoConstant(c, lines, Clean(operand), |lines|);
    NoLabel(c, lines, Clean(operand), |lines|);
    hide Clean, Numeric, Gather, Lookup, Defines, Classify;
  }

  /** An operand that is no number and no constant stands for the offset of the label's first definition. */
  lemma LabelMeans(c: Libc, lines: seq<string>, i: nat, operand: string)
    requires FirstDefines(c, lines, i, Clean(operand)) && !Numeric(Clean(operand))
    requires forall k, w :: 0 <= k < |lines| ==> !Defines(lines[k], Clean(operand), w)
    ensures Resolve(EnvOf(c, lines), operand) == Wrap32(4 * Instructions(lines, i))
  {
    NoConstant(c, lines, Clean(operand), |lines|);
    OperandIsLabel(c, lines, i, Clean(operand), operand);
  }

  /** `ADDI rd, rs, NAME` carries that value. */
  lemma ConstantLine(c: Libc, lines: seq<string>, i: nat, value: string, text: string, pc: uint32)
    requires TokenAt(text, 0) == "ADDI" && !Numeric(Clean(TokenAt(text, 3)))
    requires !Contains(TokenAt(text, 3), "hi(") && !Contains(TokenAt(text, 3), "lo(")
    requires FirstGives(lines, i, Clean(TokenAt(text, 3)), value)
    ensures var env := EnvOf(c, lines);
      Carries(Encode(env, text, pc), 0x03, Named(env, text, 1), Named(env, text, 2), c.strtoul(value))
  {
    hide TokenAt, Carries, Encode, FirstGives, Contains, Clean, Numeric, EnvOf, Resolve, Register;
    AddImmediateLine(EnvOf(c, lines), text, pc);
    ConstantMeans(c, lines, i, value, TokenAt(text, 3));
  }
}
