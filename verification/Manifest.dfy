/**
 * EFI/ALPINE/CHECKSUM: the text the installer writes (internal/payloadsum)
 * and the parser of bios/payload_sum.c that reads it, by fields and lines in
 * the specification and by positions in the text in the loader.
 */
module Manifest {
  import opened Bytes
  import opened HashChain
  import opened Wrappers

  datatype Mode = Warn | Enforce | Off

  /** One file: its size, where the part placed in RAM starts, and that part's digest. */
  datatype Entry = Entry(size: Word, offset: Word, sha: Digest)

  datatype PayloadSum = PayloadSum(kernel: Entry, initrd: Entry, mode: Mode)

  datatype Result = Parsed(sum: PayloadSum) | Malformed | Unsupported

  // ---- Fields ----

  function UntilChar(s: string, c: char): (r: string)
    ensures |r| <= |s| && r == s[..|r|] && c !in r
    ensures |r| < |s| ==> s[|r|] == c
  {
    if s == [] || s[0] == c then [] else [s[0]] + UntilChar(s[1..], c)
  }

  function SkipSpace(s: string): string {
    if s != [] && s[0] == ' ' then s[1..] else s
  }

  /** The next space-separated field and what follows it. */
  function TakeField(s: string): (r: (string, string))
    ensures |r.0| + |r.1| <= |s| && (r.1 == [] || r.1[0] == ' ')
  {
    var t := SkipSpace(s);
    var f := UntilChar(t, ' ');
    (f, t[|f|..])
  }

  /** All the fields of a line. */
  function Fields(s: string): (fs: seq<string>)
    ensures |fs| >= 1
    decreases |s|
  {
    var (f, rest) := TakeField(s);
    [f] + RestFields(rest)
  }

  /** The fields that follow one that has been taken. */
  function RestFields(s: string): seq<string>
    requires s == [] || s[0] == ' '
    decreases |s|
  {
    if s == [] then [] else
    var f := UntilChar(s[1..], ' ');
    [f] + RestFields(s[1 + |f|..])
  }

  // ---- Numbers and digests ----

  predicate Digit(c: char) { '0' <= c <= '9' }

  predicate Digits(s: string) { forall i :: 0 <= i < |s| ==> Digit(s[i]) }

  function DecValue(s: string): nat
    requires Digits(s)
  {
    if s == [] then 0 else DecValue(s[..|s| - 1]) * 10 + (s[|s| - 1] as int - '0' as int)
  }

  /** A decimal of one to ten digits that fits 32 bits. */
  function ParseDec(s: string): Option<Word> {
    if 1 <= |s| <= 10 && Digits(s) && DecValue(s) < TWO32 then Some(DecValue(s)) else None
  }

  /** The value of a lower-case hex digit, or -1. */
  function HexVal(c: char): (v: int)
    ensures -1 <= v < 16
  {
    if '0' <= c <= '9' then c as int - '0' as int
    else if 'a' <= c <= 'f' then c as int - 'a' as int + 10
    else -1
  }

  function ParseHex(s: string): (r: Option<seq<Byte>>)
    requires |s| % 2 == 0
    ensures r.Some? ==> 2 * |r.value| == |s|
  {
    if s == [] then Some([])
    else
      var rest :- ParseHex(s[2..]);
      if HexVal(s[0]) < 0 || HexVal(s[1]) < 0 then None
      else Some([16 * HexVal(s[0]) + HexVal(s[1])] + rest)
  }

  function ParseDigest(s: string): Option<Digest> {
    if |s| != 64 then None
    else
      var b :- ParseHex(s);
      Some(b)
  }

  // ---- Lines ----

  /** What follows KERNEL or INITRD on its line: exactly three fields. */
  function ParseEntry(fs: seq<string>): Option<Entry> {
    if |fs| != 3 then None
    else
      var size :- ParseDec(fs[0]);
      var offset :- ParseDec(fs[1]);
      var sha :- ParseDigest(fs[2]);
      if offset > size then None else Some(Entry(size, offset, sha))
  }

  function ParseMode(s: string): Option<Mode> {
    if s == "warn" then Some(Warn) else if s == "enforce" then Some(Enforce) else if s == "off" then Some(Off) else None
  }

  /** What has been read so far. */
  datatype Acc = Acc(kernel: Option<Entry>, initrd: Option<Entry>, mode: Mode)

  const BLANK := Acc(None, None, Warn)

  /** Any line but the first; None when the whole text is malformed. */
  function ParseFields(acc: Acc, fs: seq<string>): Option<Acc>
    requires |fs| >= 1
  {
    if fs[0] == "KERNEL" then
      if acc.kernel.Some? then None else
      var e :- ParseEntry(fs[1..]);
      Some(acc.(kernel := Some(e)))
    else if fs[0] == "INITRD" then
      if acc.initrd.Some? then None else
      var e :- ParseEntry(fs[1..]);
      Some(acc.(initrd := Some(e)))
    else if fs[0] == "MODE" then
      var mode := if |fs| == 2 then ParseMode(fs[1]) else None;
      Some(acc.(mode := if mode.Some? then mode.value else Warn))
    else Some(acc)
  }

  function ParseLine(acc: Acc, line: string): Option<Acc> {
    ParseFields(acc, Fields(line))
  }

  datatype Header = Good | Bad | OtherVersion

  function ParseHeader(fs: seq<string>): Header {
    if |fs| != 3 || fs[0] != "alpine-zfsboot" || fs[1] != "payload-sum" || fs[2] == "" then Bad
    else if fs[2] == "1" then Good else OtherVersion
  }

  function Finish(acc: Acc): Result {
    if acc.kernel.Some? && acc.initrd.Some? then Parsed(PayloadSum(acc.kernel.value, acc.initrd.value, acc.mode)) else Malformed
  }

  /** The lines after the first; every one ends in a newline, the last one too. */
  function ParseBody(acc: Acc, text: string): Result
    decreases |text|
  {
    if text == [] then Finish(acc)
    else
      var line := UntilChar(text, '\n');
      if |line| == |text| then Malformed
      else
        match ParseLine(acc, line)
        case None => Malformed
        case Some(acc') => ParseBody(acc', text[|line| + 1..])
  }

  function Parse(text: string): Result {
    if text == [] then Malformed
    else
      var line := UntilChar(text, '\n');
      if |line| == |text| then Malformed
      else
        match ParseHeader(Fields(line))
        case Bad => Malformed
        case OtherVersion => Unsupported
        case Good => ParseBody(BLANK, text[|line| + 1..])
  }

  ghost predicate InOrder(r: Result) {
    r.Parsed? ==> r.sum.kernel.offset <= r.sum.kernel.size && r.sum.initrd.offset <= r.sum.initrd.size
  }

  ghost predicate AccInOrder(acc: Acc) {
    && (acc.kernel.Some? ==> acc.kernel.value.offset <= acc.kernel.value.size)
    && (acc.initrd.Some? ==> acc.initrd.value.offset <= acc.initrd.value.size)
  }

  lemma LineInOrder(acc: Acc, fs: seq<string>)
    requires AccInOrder(acc) && |fs| >= 1 && ParseFields(acc, fs).Some?
    ensures AccInOrder(ParseFields(acc, fs).value)
  {
  }

  lemma {:induction false} BodyInOrder(acc: Acc, text: string)
    requires AccInOrder(acc)
    ensures InOrder(ParseBody(acc, text))
    decreases |text|
  {
    if text == [] {
    } else {
      var line := UntilChar(text, '\n');
      if |line| < |text| && ParseLine(acc, line).Some? {
        LineInOrder(acc, Fields(line));
        BodyInOrder(ParseLine(acc, line).value, text[|line| + 1..]);
      }
    }
  }

  /** Every accepted text gives two entries whose range lies inside the file. */
  lemma AcceptedInOrder(text: string)
    ensures InOrder(Parse(text))
  {
    var line := UntilChar(text, '\n');
    if |line| < |text| {
      BodyInOrder(BLANK, text[|line| + 1..]);
    }
  }

  // ---- The installer's text ----

  function DigitChar(d: nat): (c: char)
    requires d < 10
    ensures Digit(c)
  {
    "0123456789"[d]
  }

  function Dec(n: nat): (s: string)
    ensures Digits(s) && |s| >= 1
  {
    if n < 10 then [DigitChar(n)] else Dec(n / 10) + [DigitChar(n % 10)]
  }

  function HexChar(d: nat): char
    requires d < 16
  {
    "0123456789abcdef"[d]
  }

  function Hex(b: seq<Byte>): (s: string)
    ensures |s| == 2 * |b|
  {
    if b == [] then [] else [HexChar(b[0] / 16), HexChar(b[0] % 16)] + Hex(b[1..])
  }

  function ModeText(m: Mode): string {
    match m
    case Warn => "warn"
    case Enforce => "enforce"
    case Off => "off"
  }

  /** Fields with single spaces between them. */
  function Join(fs: seq<string>): string
    requires |fs| >= 1
  {
    if |fs| == 1 then fs[0] else fs[0] + " " + Join(fs[1..])
  }

  const HEADER := ["alpine-zfsboot", "payload-sum", "1"]

  function EntryFields(name: string, e: Entry): seq<string> {
    [name, Dec(e.size), Dec(e.offset), Hex(e.sha)]
  }

  function Encode(m: PayloadSum): string {
    Join(HEADER) + "\n" + (Join(["MODE", ModeText(m.mode)]) + "\n"
    + (Join(EntryFields("KERNEL", m.kernel)) + "\n" + (Join(EntryFields("INITRD", m.initrd)) + "\n")))
  }

  // ---- Round trip ----

  lemma {:induction false} UntilAppend(s: string, c: char, rest: string)
    requires c !in s && (rest == [] || rest[0] == c)
    ensures UntilChar(s + rest, c) == s
  {
    if s == [] {
    } else {
      assert s[0] != c;
      UntilAppend(s[1..], c, rest);
      assert (s + rest)[1..] == s[1..] + rest;
    }
  }

  /** No field contains a space or a newline. */
  ghost predicate Plain(fs: seq<string>) {
    forall i :: 0 <= i < |fs| ==> ' ' !in fs[i] && '\n' !in fs[i]
  }

  /** What follows the first field. */
  function Tail(fs: seq<string>): (s: string)
    requires |fs| >= 1
    ensures s == [] || s[0] == ' '
  {
    if |fs| == 1 then "" else " " + Join(fs[1..])
  }

  lemma JoinHead(fs: seq<string>)
    requires |fs| >= 1
    ensures Join(fs) == fs[0] + Tail(fs)
  {
  }

  lemma TakeFirst(f: string, rest: string)
    requires f != [] && ' ' !in f && (rest == [] || rest[0] == ' ')
    ensures TakeField(f + rest) == (f, rest)
  {
    hide UntilChar;
    assert (f + rest)[0] == f[0] && f[0] in f;
    UntilAppend(f, ' ', rest);
    assert (f + rest)[|f|..] == rest;
  }

  lemma TakeNext(f: string, rest: string)
    requires ' ' !in f && (rest == [] || rest[0] == ' ')
    ensures RestFields(" " + f + rest) == [f] + RestFields(rest)
  {
    hide UntilChar;
    var s := " " + f + rest;
    assert s[1..] == f + rest;
    UntilAppend(f, ' ', rest);
    assert s[1 + |f|..] == rest;
  }

  lemma NoRest()
    ensures RestFields([]) == []
  {
  }

  lemma NotIn(c: char, a: string, b: string)
    requires c !in a && c !in b
    ensures c !in a + b
  {
  }

  lemma PlainRest(fs: seq<string>)
    requires |fs| > 1 && Plain(fs)
    ensures Plain(fs[1..]) && ' ' !in fs[1] && '\n' !in fs[1]
  {
  }

  lemma {:induction false} TailFields(fs: seq<string>)
    requires |fs| >= 1 && Plain(fs)
    ensures RestFields(Tail(fs)) == fs[1..] && '\n' !in Tail(fs)
    decreases |fs|
  {
    hide Join, RestFields, Plain;
    NoRest();
    if |fs| <= 1 {
    } else {
      var gs := fs[1..];
      PlainRest(fs);
      JoinHead(gs);
      TailFields(gs);
      TakeNext(fs[1], Tail(gs));
      assert Tail(fs) == " " + fs[1] + Tail(gs);
      NotIn('\n', " ", fs[1]);
      NotIn('\n', " " + fs[1], Tail(gs));
      assert fs[1..] == [fs[1]] + gs[1..];
    }
  }

  /** Splitting undoes joining. */
  lemma FieldsJoin(fs: seq<string>)
    requires |fs| >= 1 && Plain(fs) && fs[0] != []
    ensures Fields(Join(fs)) == fs && '\n' !in Join(fs)
  {
    assert ' ' !in fs[0] && '\n' !in fs[0];
    hide Join, RestFields, TakeField, Fields, Tail;
    JoinHead(fs);
    TakeFirst(fs[0], Tail(fs));
    FieldsStep(Join(fs));
    TailFields(fs);
    assert fs == [fs[0]] + fs[1..];
  }

  lemma {:induction false} DecRoundTrip(n: nat)
    ensures DecValue(Dec(n)) == n
  {
    if n >= 10 {
      DecRoundTrip(n / 10);
      var s := Dec(n);
      assert s[..|s| - 1] == Dec(n / 10);
    } else {
      assert Dec(n)[..0] == [];
    }
  }

  function Pow10(k: nat): nat {
    if k == 0 then 1 else 10 * Pow10(k - 1)
  }

  lemma {:induction false} DecLength(n: nat, k: nat)
    requires k >= 1 && n < Pow10(k)
    ensures |Dec(n)| <= k
  {
    if n < 10 {
    } else {
      assert k > 1;
      DecLength(n / 10, k - 1);
    }
  }

  lemma DecParses(n: Word)
    ensures ParseDec(Dec(n)) == Some(n) && ' ' !in Dec(n) && '\n' !in Dec(n)
  {
    DecRoundTrip(n);
    assert Pow10(10) == 10_000_000_000;
    DecLength(n, 10);
  }

  lemma HexDigitParses(d: nat)
    requires d < 16
    ensures HexVal(HexChar(d)) == d && HexChar(d) != ' ' && HexChar(d) != '\n'
  {
  }

  lemma {:induction false} HexParses(b: seq<Byte>)
    ensures ParseHex(Hex(b)) == Some(b) && ' ' !in Hex(b) && '\n' !in Hex(b)
  {
    hide HexVal, HexChar;
    if b == [] {
    } else {
      HexParses(b[1..]);
      var hi: nat, lo: nat := b[0] / 16, b[0] % 16;
      HexDigitParses(hi);
      HexDigitParses(lo);
      assert Hex(b)[0] == HexChar(hi) && Hex(b)[1] == HexChar(lo) && Hex(b)[2..] == Hex(b[1..]);
      assert 16 * hi + lo == b[0];
      assert [b[0]] + b[1..] == b;
    }
  }

  lemma EntryParses(name: string, e: Entry)
    requires e.offset <= e.size && ' ' !in name && '\n' !in name && name != []
    ensures Plain(EntryFields(name, e)) && ParseEntry(EntryFields(name, e)[1..]) == Some(e)
  {
    DecParses(e.size);
    DecParses(e.offset);
    HexParses(e.sha);
  }

  lemma LineParses(line: string, rest: string)
    requires '\n' !in line
    ensures UntilChar(line + "\n" + rest, '\n') == line
    ensures (line + "\n" + rest)[|line| + 1..] == rest
  {
    UntilAppend(line, '\n', "\n" + rest);
    assert line + "\n" + rest == line + ("\n" + rest);
  }

  lemma BodyLine(acc: Acc, fs: seq<string>, rest: string)
    requires |fs| >= 1 && Plain(fs) && fs[0] != []
    ensures ParseBody(acc, Join(fs) + "\n" + rest)
            == match ParseFields(acc, fs) case None => Malformed case Some(acc') => ParseBody(acc', rest)
  {
    FieldsJoin(fs);
    LineParses(Join(fs), rest);
  }

  lemma HeadLine(fs: seq<string>, rest: string)
    requires Plain(fs) && ParseHeader(fs) == Good
    ensures Parse(Join(fs) + "\n" + rest) == ParseBody(BLANK, rest)
  {
    FieldsJoin(fs);
    LineParses(Join(fs), rest);
  }

  lemma ModeLine(acc: Acc, m: Mode, rest: string)
    ensures ParseBody(acc, Join(["MODE", ModeText(m)]) + "\n" + rest) == ParseBody(acc.(mode := m), rest)
  {
    hide ParseBody, Join;
    BodyLine(acc, ["MODE", ModeText(m)], rest);
  }

  lemma FileLine(acc: Acc, e: Entry, rest: string)
    requires e.offset <= e.size
    ensures acc.kernel.None? ==>
      ParseBody(acc, Join(EntryFields("KERNEL", e)) + "\n" + rest) == ParseBody(acc.(kernel := Some(e)), rest)
    ensures acc.initrd.None? ==>
      ParseBody(acc, Join(EntryFields("INITRD", e)) + "\n" + rest) == ParseBody(acc.(initrd := Some(e)), rest)
  {
    EntryParses("KERNEL", e);
    EntryParses("INITRD", e);
    BodyLine(acc, EntryFields("KERNEL", e), rest);
    BodyLine(acc, EntryFields("INITRD", e), rest);
  }

  /** Whatever the installer writes, the loader reads back. */
  lemma RoundTrip(m: PayloadSum)
    requires m.kernel.offset <= m.kernel.size && m.initrd.offset <= m.initrd.size
    ensures Parse(Encode(m)) == Parsed(m)
  {
    var t3 := Join(EntryFields("INITRD", m.initrd)) + "\n";
    var t2 := Join(EntryFields("KERNEL", m.kernel)) + "\n" + t3;
    var t1 := Join(["MODE", ModeText(m.mode)]) + "\n" + t2;
    HeadLine(HEADER, t1);
    ModeLine(BLANK, m.mode, t2);
    FileLine(BLANK.(mode := m.mode), m.kernel, t3);
    FileLine(Acc(Some(m.kernel), None, m.mode), m.initrd, []);
    assert t3 + [] == t3;
  }

  // ---- The loader's form: positions in the text ----

  /** next_field(): the field in t[start..start + n], and where it ends. */
  method NextField(t: string, pos: nat, end: nat) returns (start: nat, n: nat, pos': nat)
    requires pos <= end <= |t|
    ensures pos <= start && start + n == pos' <= end
    ensures TakeField(t[pos..end]) == (t[start..start + n], t[pos'..end])
  {
    hide TakeField;
    pos' := pos;
    if pos' < end && t[pos'] == ' ' {
      pos' := pos' + 1;
    }
    start, n := pos', 0;
    while pos' < end && t[pos'] != ' '
      invariant start <= pos' <= end && n == pos' - start
      invariant ' ' !in t[start..pos']
    {
      assert t[start..pos'] + [t[pos']] == t[start..pos' + 1];
      pos', n := pos' + 1, n + 1;
    }
    TakeFieldAt(t, pos, end, start, pos');
  }

  lemma TakeFieldAt(t: string, pos: nat, end: nat, start: nat, pos': nat)
    requires pos <= start <= pos' <= end <= |t|
    requires start == if pos < end && t[pos] == ' ' then pos + 1 else pos
    requires ' ' !in t[start..pos'] && (pos' < end ==> t[pos'] == ' ')
    ensures TakeField(t[pos..end]) == (t[start..pos'], t[pos'..end])
  {
    var s := t[start..end];
    assert SkipSpace(t[pos..end]) == s;
    assert s == t[start..pos'] + t[pos'..end];
    UntilAppend(t[start..pos'], ' ', t[pos'..end]);
  }

  /** Taking fields one by one is taking them all. */
  lemma FieldsStep(s: string)
    ensures Fields(s) == [TakeField(s).0] + RestFields(TakeField(s).1)
    ensures s != [] && s[0] == ' ' ==> RestFields(s) == Fields(s)
  {
    if s != [] && s[0] == ' ' {
      var f := UntilChar(s[1..], ' ');
      assert s[1..][|f|..] == s[1 + |f|..];
    }
  }

  /** parse_dec() with its overflow test. */
  method ParseDecimal(t: string, start: nat, n: nat) returns (r: Option<Word>)
    requires start + n <= |t|
    ensures r == ParseDec(t[start..start + n])
  {
    if n == 0 || n > 10 {
      return None;
    }
    ghost var s := t[start..start + n];
    var v := 0;
    var i := 0;
    while i < n
      invariant 0 <= i <= n && 0 <= v < TWO32
      invariant Digits(s[..i]) && DecValue(s[..i]) == v
    {
      if t[start + i] < '0' || t[start + i] > '9' {
        assert !Digit(s[i]);
        return None;
      }
      var d := t[start + i] as int - '0' as int;
      assert s[..i + 1][..i] == s[..i];
      if v > (0xffff_ffff - d) / 10 {
        if Digits(s) {
          DecGrows(s, i + 1);
        }
        return None;
      }
      v := v * 10 + d;
      i := i + 1;
    }
    assert s[..n] == s;
    r := Some(v);
  }

  lemma {:induction false} DecGrows(s: string, i: nat)
    requires Digits(s) && i <= |s|
    ensures DecValue(s[..i]) <= DecValue(s)
    decreases |s|
  {
    if i < |s| {
      var p := s[..|s| - 1];
      DecGrows(p, i);
      assert p[..i] == s[..i];
    } else {
      assert s[..i] == s;
    }
  }

  predicate HexPair(s: string, j: nat)
    requires 2 * j + 1 < |s|
  {
    HexVal(s[2 * j]) >= 0 && HexVal(s[2 * j + 1]) >= 0
  }

  lemma {:induction false} HexBad(s: string, j: nat)
    requires |s| % 2 == 0 && 2 * j + 1 < |s| && !HexPair(s, j)
    ensures ParseHex(s) == None
  {
    if j == 0 {
    } else {
      assert !HexPair(s[2..], j - 1);
      HexBad(s[2..], j - 1);
    }
  }

  lemma {:induction false} HexGood(s: string, out: seq<Byte>)
    requires |s| == 2 * |out|
    requires forall j :: 0 <= j < |out| ==> HexPair(s, j) && out[j] == 16 * HexVal(s[2 * j]) + HexVal(s[2 * j + 1])
    ensures ParseHex(s) == Some(out)
  {
    hide HexVal;
    if out == [] {
    } else {
      assert HexPair(s, 0);
      forall j | 0 <= j < |out| - 1
        ensures HexPair(s[2..], j) && out[1..][j] == 16 * HexVal(s[2..][2 * j]) + HexVal(s[2..][2 * j + 1])
      {
        assert HexPair(s, j + 1);
      }
      HexGood(s[2..], out[1..]);
      assert out == [out[0]] + out[1..];
    }
  }

  method ParseDigestAt(t: string, start: nat) returns (r: Option<Digest>)
    requires start + 64 <= |t|
    ensures r == ParseDigest(t[start..start + 64])
  {
    ghost var s := t[start..start + 64];
    var out: seq<Byte> := [];
    var i := 0;
    while i < 32
      invariant 0 <= i <= 32 && |out| == i
      invariant forall j :: 0 <= j < i ==> HexPair(s, j) && out[j] == 16 * HexVal(s[2 * j]) + HexVal(s[2 * j + 1])
    {
      var hi, lo := HexVal(t[start + 2 * i]), HexVal(t[start + 2 * i + 1]);
      if hi < 0 || lo < 0 {
        HexBad(s, i);
        return None;
      }
      out := out + [16 * hi + lo];
      i := i + 1;
    }
    HexGood(s, out);
    r := Some(out);
  }

  /** next_field() after a field: the next one, or nothing at the end of the line. */
  method NextRest(t: string, pos: nat, end: nat) returns (start: nat, n: nat, pos': nat)
    requires pos <= end <= |t| && (pos < end ==> t[pos] == ' ')
    ensures pos <= start && start + n == pos' <= end && (pos' < end ==> t[pos'] == ' ')
    ensures pos == end ==> n == 0 && pos' == end && RestFields(t[pos..end]) == []
    ensures pos < end ==> RestFields(t[pos..end]) == [t[start..start + n]] + RestFields(t[pos'..end])
  {
    start, n, pos' := NextField(t, pos, end);
    FieldsStep(t[pos..end]);
  }

  /** The last field of an entry: a digest with nothing after it. */
  method LastField(t: string, pos: nat, end: nat) returns (start: nat, last: bool)
    requires pos <= end <= |t| && (pos < end ==> t[pos] == ' ')
    ensures last ==> start + 64 == end && RestFields(t[pos..end]) == [t[start..end]]
    ensures !last ==> var fs := RestFields(t[pos..end]); |fs| != 1 || |fs[0]| != 64
  {
    var n, pos';
    start, n, pos' := NextRest(t, pos, end);
    last := n == 64 && pos' == end;
  }

  /** The three fields of an entry, unless the third is no digest or the line goes on. */
  method ThreeFields(t: string, pos: nat, end: nat)
    returns (f1: nat, n1: nat, f2: nat, n2: nat, f3: nat, three: bool)
    requires pos <= end <= |t| && (pos < end ==> t[pos] == ' ')
    ensures f1 + n1 <= end && f2 + n2 <= end && (three ==> f3 + 64 == end)
    ensures three ==> RestFields(t[pos..end]) == [t[f1..f1 + n1], t[f2..f2 + n2], t[f3..end]]
    ensures !three ==> ParseEntry(RestFields(t[pos..end])) == None
  {
    hide RestFields, ParseEntry;
    var p1, p2;
    f1, n1, p1 := NextRest(t, pos, end);
    f2, n2, p2 := NextRest(t, p1, end);
    f3, three := LastField(t, p2, end);
    if !three {
      NotThree(RestFields(t[pos..end]), RestFields(t[p2..end]));
    }
  }

  /** parse_entry(): size, offset and digest from `pos` to the end of the line. */
  method ParseEntryAt(t: string, pos: nat, end: nat) returns (r: Option<Entry>)
    requires pos <= end <= |t| && (pos < end ==> t[pos] == ' ')
    ensures r == ParseEntry(RestFields(t[pos..end])) && (r.Some? ==> r.value.offset <= r.value.size)
  {
    var f1, n1, f2, n2, f3, three := ThreeFields(t, pos, end);
    if !three {
      return None;
    }
    var size := ParseDecimal(t, f1, n1);
    var offset := ParseDecimal(t, f2, n2);
    var sha := ParseDigestAt(t, f3);
    if size.None? || offset.None? || sha.None? || offset.value > size.value {
      return None;
    }
    r := Some(Entry(size.value, offset.value, sha.value));
  }

  lemma NotThree(fs: seq<string>, rest: seq<string>)
    requires |fs| <= 2 || fs[2..] == rest
    requires |rest| != 1 || |rest[0]| != 64
    ensures ParseEntry(fs) == None
  {
  }

  /** next_field() at the start of a line. */
  method FirstField(t: string, pos: nat, end: nat) returns (start: nat, n: nat, pos': nat)
    requires pos <= end <= |t|
    ensures pos <= start && start + n == pos' <= end && (pos' < end ==> t[pos'] == ' ')
    ensures Fields(t[pos..end]) == [t[start..start + n]] + RestFields(t[pos'..end])
  {
    start, n, pos' := NextField(t, pos, end);
    FieldsStep(t[pos..end]);
  }

  /** A field that goes on with a NUL behind a keyword: comparing it runs past the end of the keyword. */
  ghost predicate Overruns(a: string, keyword: string) {
    |a| > |keyword| && a[..|keyword|] == keyword && a[|keyword|] == '\0'
  }

  /**
   * str_eq(): `keyword` and its terminator are compared character by
   * character. What lies behind the terminator is not the program's, so a
   * field that runs past it may compare either way.
   */
  method StrEq(t: string, start: nat, n: nat, keyword: string) returns (same: bool)
    requires start + n <= |t| && '\0' !in keyword
    ensures !Overruns(t[start..start + n], keyword) ==> same == (t[start..start + n] == keyword)
  {
    ghost var a := t[start..start + n];
    var i := 0;
    while i < n && i <= |keyword|
      invariant 0 <= i <= n && i <= |keyword| + 1
      invariant i <= |keyword| ==> a[..i] == keyword[..i]
      invariant i > |keyword| ==> Overruns(a, keyword)
    {
      var c := if i < |keyword| then keyword[i] else '\0';
      if c != t[start + i] {
        assert a[i] == t[start + i];
        return false;
      }
      i := i + 1;
    }
    if i > |keyword| {
      same := *;
    } else {
      assert a[..n] == a;
      same := n == |keyword|;
    }
  }

  /** The shortest such field. */
  lemma ModeOverruns()
    ensures Overruns("MODE\0", "MODE")
  {
  }

  /** The words fields are compared with. */
  const KEYWORDS: set<string> := {"alpine-zfsboot", "payload-sum", "1", "KERNEL", "INITRD", "MODE", "warn", "enforce", "off"}

  /** None of them is followed by a NUL anywhere in the text. */
  ghost predicate Unambiguous(t: string) {
    forall j, keyword :: 0 <= j <= |t| && keyword in KEYWORDS ==> !Overruns(t[j..], keyword)
  }

  /** As in every text without NUL. */
  lemma NoNul(t: string)
    requires '\0' !in t
    ensures Unambiguous(t)
  {
    forall j, keyword | 0 <= j <= |t| && keyword in KEYWORDS ensures !Overruns(t[j..], keyword) {
      if |keyword| < |t| - j {
        assert t[j..][|keyword|] == t[j + |keyword|] && t[j + |keyword|] in t;
      }
    }
  }

  lemma {:induction false} HexNoNul(b: seq<Byte>)
    ensures '\0' !in Hex(b)
  {
    if b == [] {
    } else {
      HexNoNul(b[1..]);
    }
  }

  lemma {:induction false} JoinNoNul(fs: seq<string>)
    requires |fs| >= 1 && forall i :: 0 <= i < |fs| ==> '\0' !in fs[i]
    ensures '\0' !in Join(fs)
  {
    if |fs| == 1 {
    } else {
      JoinNoNul(fs[1..]);
    }
  }

  lemma EntryNoNul(name: string, e: Entry)
    requires '\0' !in name
    ensures '\0' !in Join(EntryFields(name, e))
  {
    hide Join, Dec, Hex;
    HexNoNul(e.sha);
    JoinNoNul(EntryFields(name, e));
  }

  /** What the installer writes is unambiguous. */
  lemma EncodeUnambiguous(m: PayloadSum)
    ensures Unambiguous(Encode(m))
  {
    hide Join, EntryFields, Unambiguous;
    JoinNoNul(HEADER);
    JoinNoNul(["MODE", ModeText(m.mode)]);
    EntryNoNul("KERNEL", m.kernel);
    EntryNoNul("INITRD", m.initrd);
    NoNul(Encode(m));
  }

  lemma NoOverrun(t: string, start: nat, n: nat, keyword: string)
    requires start + n <= |t| && Unambiguous(t) && keyword in KEYWORDS
    ensures !Overruns(t[start..start + n], keyword)
  {
    hide KEYWORDS;
    if |keyword| < n {
      var a, b := t[start..start + n], t[start..];
      assert a[..|keyword|] == b[..|keyword|] && a[|keyword|] == b[|keyword|];
      assert !Overruns(b, keyword);
    }
  }

  /** The first line, as payload_sum_parse() tests it. */
  method HeaderAt(t: string, pos: nat, end: nat) returns (h: Header)
    requires pos <= end <= |t|
    ensures Unambiguous(t) ==> h == ParseHeader(Fields(t[pos..end]))
  {
    hide Fields, RestFields, Overruns, Unambiguous;
    var f1, n1, p1 := FirstField(t, pos, end);
    var same := Keyword(t, f1, n1, "alpine-zfsboot");
    if !same {
      return Bad;
    }
    var f2, n2, p2 := NextRest(t, p1, end);
    same := Keyword(t, f2, n2, "payload-sum");
    if !same {
      return Bad;
    }
    var f3, n3, p3 := NextRest(t, p2, end);
    EmptyRest(t, p3, end);
    if p3 != end || n3 == 0 {
      return Bad;
    }
    same := Keyword(t, f3, n3, "1");
    h := if same then Good else OtherVersion;
  }

  /** str_eq() with one of the keywords, in an unambiguous text. */
  method Keyword(t: string, start: nat, n: nat, keyword: string) returns (same: bool)
    requires start + n <= |t| && keyword in KEYWORDS
    ensures Unambiguous(t) ==> same == (t[start..start + n] == keyword)
  {
    hide Overruns, Unambiguous;
    same := StrEq(t, start, n, keyword);
    if Unambiguous(t) {
      NoOverrun(t, start, n, keyword);
    }
  }

  lemma EmptyRest(t: string, pos: nat, end: nat)
    requires pos <= end <= |t| && (pos < end ==> t[pos] == ' ')
    ensures pos == end <==> RestFields(t[pos..end]) == []
  {
  }

  /** A later line: `acc` is what the lines before it set. */
  method LineAt(acc: Acc, t: string, pos: nat, end: nat) returns (r: Option<Acc>)
    requires pos <= end <= |t|
    ensures Unambiguous(t) ==> r == ParseLine(acc, t[pos..end])
    ensures AccInOrder(acc) && r.Some? ==> AccInOrder(r.value)
  {
    hide Fields, RestFields, ParseEntry, Unambiguous;
    var f, n, p := FirstField(t, pos, end);
    ghost var fs := Fields(t[pos..end]);
    assert fs[1..] == RestFields(t[p..end]);
    var kernel := Keyword(t, f, n, "KERNEL");
    var initrd := false;
    if !kernel {
      initrd := Keyword(t, f, n, "INITRD");
    }
    if kernel || initrd {
      if (if kernel then acc.kernel else acc.initrd).Some? {
        return None;
      }
      var e := ParseEntryAt(t, p, end);
      if e.None? {
        return None;
      }
      return Some(if kernel then acc.(kernel := e) else acc.(initrd := e));
    }
    var isMode := Keyword(t, f, n, "MODE");
    if isMode {
      var mode := ModeAt(t, p, end);
      return Some(acc.(mode := mode));
    }
    return Some(acc);
  }

  /** payload_sum_mode() */
  method ModeOf(t: string, start: nat, n: nat) returns (m: Option<Mode>)
    requires start + n <= |t|
    ensures Unambiguous(t) ==> m == ParseMode(t[start..start + n])
  {
    hide Unambiguous;
    var same := Keyword(t, start, n, "warn");
    if same {
      return Some(Warn);
    }
    same := Keyword(t, start, n, "enforce");
    if same {
      return Some(Enforce);
    }
    same := Keyword(t, start, n, "off");
    m := if same then Some(Off) else None;
  }

  method ModeAt(t: string, pos: nat, end: nat) returns (mode: Mode)
    requires pos <= end <= |t| && (pos < end ==> t[pos] == ' ')
    ensures Unambiguous(t) ==>
      var fs := RestFields(t[pos..end]);
      var m := if |fs| == 1 then ParseMode(fs[0]) else None;
      mode == if m.Some? then m.value else Warn
  {
    hide RestFields, ParseMode, Unambiguous;
    NoMode();
    var f, n, p := NextRest(t, pos, end);
    EmptyRest(t, p, end);
    var m := None;
    if p == end {
      assert pos == end ==> t[f..f + n] == [];
      m := ModeOf(t, f, n);
    }
    mode := if m.Some? then m.value else Warn;
  }

  lemma NoMode()
    ensures ParseMode([]) == None
  {
  }

  /** Where the line from `pos` ends: at its newline, or at the end of the text. */
  method LineEnd(t: string, pos: nat) returns (end: nat)
    requires pos < |t|
    ensures pos <= end <= |t| && UntilChar(t[pos..], '\n') == t[pos..end]
  {
    end := pos;
    while end < |t| && t[end] != '\n'
      invariant pos <= end <= |t| && '\n' !in t[pos..end]
    {
      assert t[pos..end + 1] == t[pos..end] + [t[end]];
      end := end + 1;
    }
    assert t[pos..] == t[pos..end] + t[end..];
    UntilAppend(t[pos..end], '\n', t[end..]);
  }

  /** payload_sum_parse(): one pass over the text by position computes `Parse` of every unambiguous text, and of any text two ordered entries or none. */
  method ParseText(text: string) returns (r: Result)
    ensures Unambiguous(text) ==> r == Parse(text)
    ensures InOrder(r)
  {
    hide Fields, ParseHeader, ParseLine, UntilChar, Unambiguous;
    var pos, line := 0, 0;
    var acc := BLANK;
    assert text[0..] == text;
    while pos < |text|
      invariant 0 <= pos <= |text| && 0 <= line
      invariant line == 0 ==> pos == 0 && acc == BLANK
      invariant AccInOrder(acc)
      invariant Unambiguous(text) && line > 0 ==> Parse(text) == ParseBody(acc, text[pos..])
    {
      var end := LineEnd(text, pos);
      if end == |text| {
        return Malformed;
      }
      assert text[pos..][end - pos + 1..] == text[end + 1..];
      if line == 0 {
        var h := HeaderAt(text, pos, end);
        match h {
          case Bad => return Malformed;
          case OtherVersion => return Unsupported;
          case Good =>
        }
      } else {
        var next := LineAt(acc, text, pos, end);
        if next.None? {
          return Malformed;
        }
        acc := next.value;
      }
      line, pos := line + 1, end + 1;
    }
    r := Finish(acc);
  }
}
