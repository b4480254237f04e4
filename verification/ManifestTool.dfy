/**
 * The installer's own reader of EFI/ALPINE/CHECKSUM (Decode of
 * internal/payloadsum) beside the loader's: the two are compared on every
 * text, not only on the ones the installer writes.
 */
module ManifestTool {
  import opened Bytes
  import opened HashChain
  import opened Manifest
  import opened Wrappers

  const MAX_BYTES := 512

  // ---- Decode() ----

  /** strings.Split on one character. */
  function Split(s: string, c: char): (fs: seq<string>)
    ensures |fs| >= 1
    decreases |s|
  {
    var f := UntilChar(s, c);
    if |f| == |s| then [s] else [f] + Split(s[|f| + 1..], c)
  }

  predicate IsHexDigit(c: char) {
    '0' <= c <= '9' || 'a' <= c <= 'f' || 'A' <= c <= 'F'
  }

  function Lower(c: char): char {
    if 'A' <= c <= 'Z' then c + 32 as char else c
  }

  function HexDigit(c: char): int
    requires IsHexDigit(c)
  {
    HexVal(Lower(c))
  }

  /** hex.DecodeString: either case, an even number of digits. */
  function DecodeString(s: string): (r: Option<seq<Byte>>) {
    if s == [] then Some([])
    else if |s| == 1 || !IsHexDigit(s[0]) || !IsHexDigit(s[1]) then None
    else
      var rest :- DecodeString(s[2..]);
      Some([16 * HexDigit(s[0]) + HexDigit(s[1])] + rest)
  }

  predicate IsLower(s: string) {
    forall i :: 0 <= i < |s| ==> Lower(s[i]) == s[i]
  }

  function ToolDigest(s: string): Option<Digest> {
    var b :- DecodeString(s);
    if |b| != 32 || !IsLower(s) then None else Some(b)
  }

  /** One KERNEL or INITRD line, split at its spaces. */
  function ToolEntry(fs: seq<string>): Option<Entry> {
    if |fs| != 4 then None
    else
      var size :- ParseDec(fs[1]);
      var offset :- ParseDec(fs[2]);
      var sha :- ToolDigest(fs[3]);
      if offset > size then None else Some(Entry(size, offset, sha))
  }

  function ToolLine(acc: Acc, line: string): Option<Acc> {
    var fs := Split(line, ' ');
    if fs[0] == "MODE" then
      Some(acc.(mode := if |fs| == 2 && ParseMode(fs[1]).Some? then ParseMode(fs[1]).value else Warn))
    else if fs[0] == "KERNEL" then
      if acc.kernel.Some? then None else
      var e :- ToolEntry(fs);
      Some(acc.(kernel := Some(e)))
    else if fs[0] == "INITRD" then
      if acc.initrd.Some? then None else
      var e :- ToolEntry(fs);
      Some(acc.(initrd := Some(e)))
    else Some(acc)
  }

  function ToolLines(acc: Acc, lines: seq<string>): Option<Acc>
    decreases |lines|
  {
    if lines == [] then Some(acc)
    else
      var acc' :- ToolLine(acc, lines[0]);
      ToolLines(acc', lines[1..])
  }

  function ToolFinish(acc: Acc): Option<PayloadSum> {
    if acc.kernel.Some? && acc.initrd.Some? then Some(PayloadSum(acc.kernel.value, acc.initrd.value, acc.mode)) else None
  }

  function Decoded(raw: string): Option<PayloadSum> {
    if |raw| > MAX_BYTES || raw == [] || raw[|raw| - 1] != '\n' then None
    else
      var lines := Split(raw[..|raw| - 1], '\n');
      if lines[0] != Join(HEADER) then None
      else
        var acc :- ToolLines(BLANK, lines[1..]);
        ToolFinish(acc)
  }

  method Decode(raw: string) returns (r: Option<PayloadSum>)
    ensures r == Decoded(raw)
  {
    if |raw| > MAX_BYTES || |raw| == 0 || raw[|raw| - 1] != '\n' {
      return None;
    }
    var lines := Split(raw[..|raw| - 1], '\n');
    if lines[0] != Join(HEADER) {
      return None;
    }
    hide Split, ToolLine;
    var acc := BLANK;
    var i := 1;
    while i < |lines|
      invariant 1 <= i <= |lines|
      invariant ToolLines(BLANK, lines[1..]) == ToolLines(acc, lines[i..])
    {
      var next := ToolLine(acc, lines[i]);
      assert lines[i..][1..] == lines[i + 1..];
      if next.None? {
        return None;
      }
      acc := next.value;
      i := i + 1;
    }
    assert lines[i..] == [];
    r := ToolFinish(acc);
  }

  // ---- The loader's reader is the tool's after one space off each line ----

  /** One leading space off every line that ends in a newline. */
  function Strip(text: string): (r: string)
    ensures |r| <= |text|
    decreases |text|
  {
    var line := UntilChar(text, '\n');
    if |line| == |text| then text
    else SkipSpace(line) + "\n" + Strip(text[|line| + 1..])
  }

  lemma {:induction false} RestFieldsSplit(s: string)
    requires s != [] && s[0] == ' '
    ensures RestFields(s) == Split(s[1..], ' ')
    decreases |s|
  {
    hide UntilChar;
    var f := UntilChar(s[1..], ' ');
    var rest := s[1 + |f|..];
    assert s[1..][|f|..] == rest;
    if rest != [] {
      RestFieldsSplit(rest);
      assert s[1..][|f| + 1..] == rest[1..];
    } else {
      assert f == s[1..];
    }
  }

  lemma FieldsSplit(line: string)
    ensures Fields(line) == Split(SkipSpace(line), ' ')
  {
    hide UntilChar;
    var s := SkipSpace(line);
    var f := UntilChar(s, ' ');
    var rest := s[|f|..];
    if rest != [] {
      RestFieldsSplit(rest);
      assert s[|f| + 1..] == rest[1..];
    } else {
      assert f == s;
    }
  }

  lemma {:induction false} JoinSplit(s: string)
    ensures Join(Split(s, ' ')) == s
    decreases |s|
  {
    hide UntilChar;
    var f := UntilChar(s, ' ');
    if |f| == |s| {
    } else {
      var rest := s[|f| + 1..];
      JoinSplit(rest);
      assert ([f] + Split(rest, ' '))[1..] == Split(rest, ' ');
      assert s == f + " " + rest;
    }
  }

  /** Both hex readers agree: lower case only, sixty-four digits. */
  lemma DigestAgrees(s: string)
    ensures ToolDigest(s) == ParseDigest(s)
  {
    DecodeStringLength(s);
    if |s| == 64 {
      HexAgrees(s);
    }
  }

  lemma {:induction false} DecodeStringLength(s: string)
    ensures DecodeString(s).Some? ==> |s| == 2 * |DecodeString(s).value|
  {
    if |s| < 2 {
    } else {
      DecodeStringLength(s[2..]);
    }
  }

  lemma {:induction false} HexAgrees(s: string)
    requires |s| % 2 == 0
    ensures ParseHex(s) == if IsLower(s) then DecodeString(s) else None
  {
    if s == [] {
    } else {
      HexAgrees(s[2..]);
      LowerTail(s);
      HexValLower(s[0]);
      HexValLower(s[1]);
    }
  }

  lemma LowerTail(s: string)
    requires |s| >= 2
    ensures IsLower(s) <==> Lower(s[0]) == s[0] && Lower(s[1]) == s[1] && IsLower(s[2..])
  {
    if Lower(s[0]) == s[0] && Lower(s[1]) == s[1] && IsLower(s[2..]) {
      forall i | 0 <= i < |s| ensures Lower(s[i]) == s[i] {
        if i >= 2 {
          assert s[i] == s[2..][i - 2];
        }
      }
    }
  }

  lemma HexValLower(c: char)
    ensures HexVal(c) >= 0 <==> IsHexDigit(c) && Lower(c) == c
    ensures HexVal(c) >= 0 ==> HexDigit(c) == HexVal(c)
  {
  }

  lemma LineAgrees(acc: Acc, line: string)
    ensures ParseLine(acc, line) == ToolLine(acc, SkipSpace(line))
  {
    FieldsSplit(line);
    var fs := Fields(line);
    hide Fields, Split, ParseDigest, ToolDigest, ParseDec;
    if |fs| == 4 {
      DigestAgrees(fs[3]);
    }
  }

  lemma NoSpaceFirst(fs: seq<string>)
    requires |fs| >= 1 && Plain(fs) && fs[0] != []
    ensures Join(fs) != [] && Join(fs)[0] != ' '
  {
    assert Join(fs)[0] == fs[0][0] && fs[0][0] in fs[0];
  }

  lemma HeaderAgrees(line: string)
    ensures ParseHeader(Fields(line)) == Good <==> SkipSpace(line) == Join(HEADER)
  {
    var s := SkipSpace(line);
    hide Fields, Split, Join;
    FieldsSplit(line);
    JoinSplit(s);
    FieldsJoin(HEADER);
    FieldsSplit(Join(HEADER));
    NoSpaceFirst(HEADER);
    if ParseHeader(Fields(line)) == Good {
      assert Fields(line) == HEADER;
    }
  }

  ghost predicate Ended(text: string) {
    text != [] && text[|text| - 1] == '\n'
  }

  /** The lines of a text whose last one ends in a newline too. */
  function Lines(text: string): seq<string>
    decreases |text|
  {
    if text == [] then []
    else
      var line := UntilChar(text, '\n');
      if |line| == |text| then [text] else [line] + Lines(text[|line| + 1..])
  }

  lemma LinesFirst(t: string)
    requires |UntilChar(t, '\n')| < |t|
    ensures var line := UntilChar(t, '\n');
      Lines(t) == [line] + Lines(t[|line| + 1..]) && Lines(t)[1..] == Lines(t[|line| + 1..])
  {
    hide UntilChar;
  }

  lemma SplitFirst(s: string, line: string, rest: string, c: char)
    requires c !in line && s == line + [c] + rest
    ensures Split(s, c) == [line] + Split(rest, c)
  {
    hide UntilChar;
    UntilAppend(line, c, [c] + rest);
    assert s == line + ([c] + rest);
    assert s[|line| + 1..] == rest;
  }

  lemma SplitOne(s: string, c: char)
    requires c !in s
    ensures Split(s, c) == [s]
  {
    hide UntilChar;
    UntilAppend(s, c, []);
    assert s + [] == s;
  }

  lemma {:induction false} SplitLines(text: string)
    requires Ended(text)
    ensures Split(text[..|text| - 1], '\n') == Lines(text)
    decreases |text|
  {
    var line := UntilChar(text, '\n');
    hide UntilChar, Split, Lines;
    assert |line| < |text| by {
      assert text[|text| - 1] == '\n';
    }
    var rest := text[|line| + 1..];
    var body := text[..|text| - 1];
    LinesFirst(text);
    if rest == [] {
      assert body == line;
      SplitOne(line, '\n');
      NoLines();
    } else {
      assert body == line + ['\n'] + rest[..|rest| - 1];
      SplitFirst(body, line, rest[..|rest| - 1], '\n');
      SplitLines(rest);
    }
  }

  lemma NoLines()
    ensures Lines([]) == []
  {
  }

  lemma StripLine(text: string)
    requires var line := UntilChar(text, '\n'); |line| < |text|
    ensures var line := UntilChar(text, '\n'); var rest := Strip(text[|line| + 1..]);
      UntilChar(Strip(text), '\n') == SkipSpace(line) && Strip(text)[|SkipSpace(line)| + 1..] == rest
  {
    var line := UntilChar(text, '\n');
    LineParses(SkipSpace(line), Strip(text[|line| + 1..]));
  }

  lemma {:induction false} StripEnded(text: string)
    ensures Ended(text) <==> Ended(Strip(text))
    ensures text == [] <==> Strip(text) == []
    decreases |text|
  {
    hide UntilChar;
    var line := UntilChar(text, '\n');
    if |line| == |text| {
    } else {
      var rest := text[|line| + 1..];
      StripEnded(rest);
      var t := Strip(rest);
      assert Strip(text) == SkipSpace(line) + "\n" + t;
      if t == [] {
        assert Strip(text)[|Strip(text)| - 1] == '\n';
      } else {
        assert Strip(text)[|Strip(text)| - 1] == t[|t| - 1];
      }
    }
  }

  lemma {:induction false} NotEnded(acc: Acc, text: string)
    requires text != [] && !Ended(text)
    ensures ParseBody(acc, text) == Malformed
    decreases |text|
  {
    hide ParseLine, UntilChar;
    var line := UntilChar(text, '\n');
    if |line| == |text| || ParseLine(acc, line).None? {
    } else {
      NotEnded(ParseLine(acc, line).value, text[|line| + 1..]);
    }
  }

  function Told(r: Result): Option<PayloadSum> {
    if r.Parsed? then Some(r.sum) else None
  }

  function ToolBody(acc: Acc, lines: seq<string>): Option<PayloadSum> {
    var acc' :- ToolLines(acc, lines);
    ToolFinish(acc')
  }

  lemma {:induction false} BodyAgrees(acc: Acc, text: string)
    requires text == [] || Ended(text)
    ensures Told(ParseBody(acc, text)) == ToolBody(acc, Lines(Strip(text)))
    decreases |text|
  {
    hide ParseLine, ToolLine, Strip;
    if text == [] {
    } else {
      var line := UntilChar(text, '\n');
      var rest := text[|line| + 1..];
      StripEnded(text);
      StripLine(text);
      LineAgrees(acc, line);
      var lines := Lines(Strip(text));
      assert lines == [SkipSpace(line)] + Lines(Strip(rest));
      assert lines[1..] == Lines(Strip(rest));
      if ParseLine(acc, line).Some? {
        BodyAgrees(ParseLine(acc, line).value, rest);
      }
    }
  }

  lemma DecodedLines(t: string)
    requires |t| <= MAX_BYTES && Ended(t)
    ensures var lines := Lines(t); |lines| >= 1 && Decoded(t) == if lines[0] == Join(HEADER) then ToolBody(BLANK, lines[1..]) else None
  {
    hide ToolLines, Join;
    SplitLines(t);
  }

  lemma ParseFirst(text: string)
    requires |UntilChar(text, '\n')| < |text|
    ensures var line := UntilChar(text, '\n');
      Told(Parse(text)) == if ParseHeader(Fields(line)) == Good then Told(ParseBody(BLANK, text[|line| + 1..])) else None
  {
    hide Fields, ParseHeader, ParseBody;
  }

  lemma ParseOpen(text: string)
    requires !Ended(text)
    ensures !Parse(text).Parsed?
  {
    hide Fields, ParseHeader, ParseBody;
    var line := UntilChar(text, '\n');
    if |line| < |text| && |line| + 1 < |text| {
      NotEnded(BLANK, text[|line| + 1..]);
    }
  }

  /** On every text the loader would read: what it takes is what the tool takes once a space is off each line. */
  lemma LoaderIsToolStripped(text: string)
    requires |text| <= MAX_BYTES
    ensures Told(Parse(text)) == Decoded(Strip(text))
  {
    StripEnded(text);
    if Ended(text) {
      EndedAgrees(text);
    } else {
      hide Parse, Strip, Split;
      ParseOpen(text);
    }
  }

  /** A text that ends in a newline: its first line, then the rest. */
  lemma EndedAgrees(text: string)
    requires |text| <= MAX_BYTES && Ended(text)
    ensures Told(Parse(text)) == Decoded(Strip(text))
  {
    hide Parse, Decoded, Strip, Fields, ParseHeader, ParseBody, Join, UntilChar, Lines, Told, ToolBody;
    var line := UntilChar(text, '\n');
    assert |line| < |text| by {
      assert text[|text| - 1] == '\n';
    }
    var rest := text[|line| + 1..];
    StripEnded(text);
    StripLine(text);
    assert |SkipSpace(line)| < |Strip(text)|;
    LinesFirst(Strip(text));
    ParseFirst(text);
    DecodedLines(Strip(text));
    HeaderAgrees(line);
    BodyAgrees(BLANK, rest);
  }

  /** No line starts with a space. */
  ghost predicate Flush(text: string)
    decreases |text|
  {
    var line := UntilChar(text, '\n');
    |line| < |text| ==> SkipSpace(line) == line && Flush(text[|line| + 1..])
  }

  lemma {:induction false} FlushStrip(text: string)
    requires Flush(text)
    ensures Strip(text) == text
    decreases |text|
  {
    hide UntilChar;
    var line := UntilChar(text, '\n');
    if |line| == |text| {
    } else {
      FlushStrip(text[|line| + 1..]);
      assert text == line + "\n" + text[|line| + 1..];
    }
  }

  /** Without such spaces the two readers agree on everything. */
  lemma ReadersAgree(text: string)
    requires |text| <= MAX_BYTES && Flush(text)
    ensures Told(Parse(text)) == Decoded(text)
  {
    LoaderIsToolStripped(text);
    FlushStrip(text);
  }

  // ---- What the installer writes ----

  lemma EntryLength(name: string, e: Entry)
    ensures |Join(EntryFields(name, e))| <= |name| + 87
  {
    var fs := EntryFields(name, e);
    assert Pow10(10) == 10_000_000_000;
    DecLength(e.size, 10);
    DecLength(e.offset, 10);
    var fs1, fs2 := [Dec(e.size), Dec(e.offset), Hex(e.sha)], [Dec(e.offset), Hex(e.sha)];
    assert fs[1..] == fs1 && fs1[1..] == fs2 && fs2[1..] == [Hex(e.sha)];
    assert |Join(fs)| == |name| + 1 + |Join(fs1)|;
    assert |Join(fs1)| == |Dec(e.size)| + 1 + |Join(fs2)|;
  }

  /** The file the loader accepts: it is never too long for it. */
  lemma EncodeFits(m: PayloadSum)
    ensures 0 < |Encode(m)| <= MAX_BYTES
  {
    EntryLength("KERNEL", m.kernel);
    EntryLength("INITRD", m.initrd);
    assert Join(HEADER) == "alpine-zfsboot payload-sum 1";
    assert |Join(["MODE", ModeText(m.mode)])| <= 12;
  }

  /** The two entry lines of a manifest. */
  function Entries(m: PayloadSum): string {
    Join(EntryFields("KERNEL", m.kernel)) + "\n" + (Join(EntryFields("INITRD", m.initrd)) + "\n")
  }

  const MODE_LINE := ["MODE", "enforce"]
  const SPACED := " " + Join(MODE_LINE)

  /** A manifest whose MODE line has been indented by one space. */
  function Indented(m: PayloadSum): string {
    Join(HEADER) + "\n" + (SPACED + "\n" + Entries(m))
  }

  lemma EntriesParse(acc: Acc, m: PayloadSum)
    requires m.kernel.offset <= m.kernel.size && m.initrd.offset <= m.initrd.size
    requires acc.kernel == acc.initrd == None
    ensures ParseBody(acc, Entries(m)) == Parsed(m.(mode := acc.mode))
  {
    hide Join;
    var t := Join(EntryFields("INITRD", m.initrd)) + "\n";
    FileLine(acc, m.kernel, t);
    FileLine(acc.(kernel := Some(m.kernel)), m.initrd, []);
    assert t + [] == t;
  }

  lemma SpacedLine(acc: Acc)
    ensures ParseLine(acc, SPACED) == Some(acc.(mode := Enforce)) && ToolLine(acc, SPACED) == Some(acc)
  {
    hide Fields, Split, Join;
    FieldsJoin(MODE_LINE);
    NoSpaceFirst(MODE_LINE);
    FieldsIndented(Join(MODE_LINE));
  }

  /** One leading space is nothing to the loader and an empty first field to the tool. */
  lemma FieldsIndented(s: string)
    requires s != [] && s[0] != ' '
    ensures Fields(" " + s) == Fields(s) && Split(" " + s, ' ')[0] == []
  {
    assert (" " + s)[0] == ' ' && (" " + s)[1..] == s;
    FieldsSplit(s);
    FieldsSplit(" " + s);
    hide Fields;
    assert SkipSpace(" " + s) == s == SkipSpace(s);
  }

  lemma LinesStep(line: string, rest: string)
    requires '\n' !in line
    ensures Lines(line + "\n" + rest) == [line] + Lines(rest)
  {
    LineParses(line, rest);
  }

  /** A line as the installer writes it is read alike by both. */
  lemma PlainLine(acc: Acc, fs: seq<string>)
    requires |fs| >= 1 && Plain(fs) && fs[0] != []
    ensures ToolLine(acc, Join(fs)) == ParseFields(acc, fs) && '\n' !in Join(fs)
  {
    FieldsJoin(fs);
    LineAgrees(acc, Join(fs));
    assert Join(fs)[0] == fs[0][0] && fs[0][0] in fs[0];
    assert SkipSpace(Join(fs)) == Join(fs);
  }

  lemma EntriesTool(acc: Acc, m: PayloadSum)
    requires m.kernel.offset <= m.kernel.size && m.initrd.offset <= m.initrd.size
    requires acc.kernel == acc.initrd == None
    ensures ToolBody(acc, Lines(Entries(m))) == Some(m.(mode := acc.mode))
  {
    hide Join, ToolLine, ParseEntry;
    var k, i := EntryFields("KERNEL", m.kernel), EntryFields("INITRD", m.initrd);
    EntryParses("KERNEL", m.kernel);
    EntryParses("INITRD", m.initrd);
    var acc1 := acc.(kernel := Some(m.kernel));
    PlainLine(acc, k);
    PlainLine(acc1, i);
    LinesStep(Join(k), Join(i) + "\n");
    assert Join(i) + "\n" == Join(i) + "\n" + [];
    LinesStep(Join(i), []);
    assert Lines(Entries(m)) == [Join(k), Join(i)];
    assert [Join(k), Join(i)][1..] == [Join(i)] && [Join(i)][1..] == [];
    var acc2 := acc1.(initrd := Some(m.initrd));
    assert ToolLine(acc, Join(k)) == Some(acc1) && ToolLine(acc1, Join(i)) == Some(acc2);
    assert ToolLines(acc1, [Join(i)]) == Some(acc2);
  }

  /**
   * The two readers do not have the same strictness: indent the MODE line of
   * any manifest by one space, and the loader enforces while the tool reads warn.
   */
  lemma IndentedModeDiffers(m: PayloadSum)
    requires m.kernel.offset <= m.kernel.size && m.initrd.offset <= m.initrd.size
    ensures |Indented(m)| <= MAX_BYTES
    ensures Parse(Indented(m)) == Parsed(m.(mode := Enforce))
    ensures Decoded(Indented(m)) == Some(m.(mode := Warn))
  {
    IndentedParse(m);
    IndentedDecode(m);
  }

  lemma IndentedParse(m: PayloadSum)
    requires m.kernel.offset <= m.kernel.size && m.initrd.offset <= m.initrd.size
    ensures Parse(Indented(m)) == Parsed(m.(mode := Enforce))
  {
    IndentedFits(m);
    hide Join, ParseLine, Entries, Parse;
    HeadLine(HEADER, SPACED + "\n" + Entries(m));
    LineParses(SPACED, Entries(m));
    SpacedLine(BLANK);
    EntriesParse(BLANK.(mode := Enforce), m);
  }

  lemma FixedLengths()
    ensures |Join(HEADER)| == 28 && |Join(MODE_LINE)| == 12
  {
    assert HEADER[1..] == ["payload-sum", "1"] && HEADER[1..][1..] == ["1"];
    assert |Join(HEADER[1..])| == 13;
    assert MODE_LINE[1..] == ["enforce"];
  }

  lemma IndentedFits(m: PayloadSum)
    ensures |Indented(m)| <= MAX_BYTES && Ended(Indented(m)) && '\n' !in Join(HEADER) && '\n' !in SPACED
  {
    hide Join, Fields;
    FieldsJoin(MODE_LINE);
    FieldsJoin(HEADER);
    FixedLengths();
    EntryLength("KERNEL", m.kernel);
    EntryLength("INITRD", m.initrd);
  }

  lemma IndentedDecode(m: PayloadSum)
    requires m.kernel.offset <= m.kernel.size && m.initrd.offset <= m.initrd.size
    ensures |Indented(m)| <= MAX_BYTES
    ensures Decoded(Indented(m)) == Some(m.(mode := Warn))
  {
    hide Join, Decoded, ToolLine, Lines, Entries;
    var head := Join(HEADER);
    var rest := SPACED + "\n" + Entries(m);
    IndentedFits(m);
    LinesStep(head, rest);
    LinesStep(SPACED, Entries(m));
    SpacedLine(BLANK);
    EntriesTool(BLANK, m);
    var lines := Lines(Indented(m));
    assert lines == [head] + ([SPACED] + Lines(Entries(m)));
    assert lines[1..] == [SPACED] + Lines(Entries(m));
    assert lines[1..][1..] == Lines(Entries(m));
    DecodedLines(Indented(m));
  }
}
