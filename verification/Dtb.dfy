/**
 * The device-tree edit of init/fix-kexec-dtb.py: a walk over the tokens of a
 * flattened tree (section 5.4 of the Devicetree Specification v0.4) that
 * zeroes the value of /chosen/kaslr-seed where it lies.
 */
module Dtb {
  import opened Bytes
  import opened Wrappers

  type Name = seq<Byte>

  datatype Result<+T> = Ok(value: T) | Malformed

  const MAGIC: Word := 0xd00d_feed
  const BEGIN_NODE: Word := 1
  const END_NODE: Word := 2
  const PROP: Word := 3
  const NOP: Word := 4
  const END: Word := 9

  const CHOSEN := Ascii("chosen")
  const SEED := Ascii("kaslr-seed")

  /** Where a value lies. */
  datatype Range = Range(at: nat, len: nat)

  // ---- The walk ----

  /** data.index(b"\0", at) */
  function IndexNul(data: seq<Byte>, at: nat): (r: Option<nat>)
    ensures r.Some? ==> at <= r.value < |data| && data[r.value] == 0 && forall i :: at <= i < r.value ==> data[i] != 0
    decreases |data| - at
  {
    if at >= |data| then None else if data[at] == 0 then Some(at) else IndexNul(data, at + 1)
  }

  predicate Aligned(n: nat) {
    n % 4 == 0
  }

  function Align(n: nat): (r: nat)
    ensures n <= r < n + 4 && Aligned(r)
  {
    (n + 3) / 4 * 4
  }

  function WordAt(data: seq<Byte>, at: nat): Word
    requires at + 4 <= |data|
  {
    UnBe32(data[at..at + 4])
  }

  /** What stays the same during a walk; `utf8` is what decode() takes. */
  datatype Walk = Walk(utf8: Name -> bool, data: seq<Byte>, strings: nat, end: nat)

  /** A NUL-terminated string that decodes. */
  function StringAt(w: Walk, at: nat): (r: Option<Name>)
    ensures r.Some? ==> at + |r.value| < |w.data|
  {
    var nul := IndexNul(w.data, at);
    if nul.None? || !w.utf8(w.data[at..nul.value]) then None else Some(w.data[at..nul.value])
  }

  predicate IsSeed(stack: seq<Name>, name: Name) {
    stack == [[], CHOSEN] && name == SEED
  }

  /** The rest of the walk from `pos`, and the value it has found last. */
  function Scan(w: Walk, pos: nat, stack: seq<Name>, found: Option<Range>): Result<Option<Range>>
    decreases w.end - pos
  {
    if pos >= w.end then Ok(found)
    else if pos + 4 > |w.data| then Malformed
    else
      var tag := WordAt(w.data, pos);
      if tag == BEGIN_NODE then
        var name := StringAt(w, pos + 4);
        if name.None? then Malformed
        else Scan(w, Align(pos + 4 + |name.value| + 1), stack + [name.value], found)
      else if tag == END_NODE then
        if stack == [] then Malformed else Scan(w, pos + 4, stack[..|stack| - 1], found)
      else if tag == PROP then
        if pos + 12 > |w.data| then Malformed
        else
          var len := WordAt(w.data, pos + 4);
          var name := StringAt(w, w.strings + WordAt(w.data, pos + 8));
          if name.None? then Malformed
          else Scan(w, Align(pos + 12 + len), stack, if IsSeed(stack, name.value) then Some(Range(pos + 12, len)) else found)
      else if tag == NOP then Scan(w, pos + 4, stack, found)
      else if tag == END then Ok(found)
      else Malformed
  }

  function Zero(data: seq<Byte>, r: Range): (z: seq<Byte>)
    ensures |z| == |data|
  {
    seq(|data|, i requires 0 <= i < |data| => if r.at <= i < r.at + r.len then 0 else data[i])
  }

  predicate AllZero(data: seq<Byte>, r: Range) {
    forall i :: r.at <= i < r.at + r.len && i < |data| ==> data[i] == 0
  }

  function WalkOf(utf8: Name -> bool, data: seq<Byte>): Walk
    requires |data| >= 40
  {
    Walk(utf8, data, WordAt(data, 12), WordAt(data, 8) + WordAt(data, 36))
  }

  function Found(utf8: Name -> bool, data: seq<Byte>): Result<Option<Range>> {
    if |data| < 40 || WordAt(data, 0) != MAGIC then Malformed
    else Scan(WalkOf(utf8, data), WordAt(data, 8), [], None)
  }

  /** What find_and_zero_kaslr_seed() returns and leaves in the buffer. */
  function Edit(utf8: Name -> bool, data: seq<Byte>): (Result<bool>, seq<Byte>) {
    var found := Found(utf8, data);
    if found.Malformed? then (Malformed, data)
    else if found.value.None? || AllZero(data, found.value.value) then (Ok(false), data)
    else
      var r := found.value.value;
      (if r.at + r.len > |data| then Malformed else Ok(true), Zero(data, r))
  }

  // ---- The script's form ----

  method FindNul(data: array<Byte>, at: nat) returns (r: Option<nat>)
    ensures r == IndexNul(data[..], at)
  {
    var i := at;
    while i < data.Length
      invariant at <= i && (i > at ==> i <= data.Length)
      invariant IndexNul(data[..], at) == IndexNul(data[..], i)
    {
      if data[i] == 0 {
        return Some(i);
      }
      i := i + 1;
    }
    r := None;
  }

  method ReadString(data: array<Byte>, ghost w: Walk, utf8: Name -> bool, at: nat) returns (r: Option<Name>)
    requires w.utf8 == utf8 && w.data == data[..]
    ensures r == StringAt(w, at)
  {
    var nul := FindNul(data, at);
    if nul.None? || !utf8(data[at..nul.value]) {
      return None;
    }
    assert data[..][at..nul.value] == data[at..nul.value];
    r := Some(data[at..nul.value]);
  }

  method ReadWord(data: array<Byte>, at: nat) returns (w: Word)
    requires at + 4 <= data.Length
    ensures w == WordAt(data[..], at)
  {
    assert data[..][at..at + 4] == data[at..at + 4];
    w := UnBe32(data[at..at + 4]);
  }

  /** The while loop: `pos`, the path and the last find are updated token by token. */
  method Find(utf8: Name -> bool, data: array<Byte>) returns (r: Result<Option<Range>>)
    ensures r == Found(utf8, data[..])
  {
    hide WordAt, StringAt, Align, IsSeed;
    if data.Length < 40 {
      return Malformed;
    }
    var magic := ReadWord(data, 0);
    if magic != MAGIC {
      return Malformed;
    }
    var start := ReadWord(data, 8);
    var strings: int := ReadWord(data, 12);
    var size := ReadWord(data, 36);
    var pos: int := start;
    var end := pos + size;
    var stack: seq<Name> := [];
    var found: Option<Range> := None;
    ghost var w := WalkOf(utf8, data[..]);
    while pos < end
      invariant Scan(w, start, [], None) == Scan(w, pos, stack, found)
      decreases end - pos
    {
      if pos + 4 > data.Length {
        return Malformed;
      }
      var tag := ReadWord(data, pos);
      pos := pos + 4;
      if tag == BEGIN_NODE {
        var name := ReadString(data, w, utf8, pos);
        if name.None? {
          return Malformed;
        }
        stack, pos := stack + [name.value], Align(pos + |name.value| + 1);
      } else if tag == END_NODE {
        if stack == [] {
          return Malformed;
        }
        stack := stack[..|stack| - 1];
      } else if tag == PROP {
        if pos + 8 > data.Length {
          return Malformed;
        }
        var len := ReadWord(data, pos);
        var nameOff := ReadWord(data, pos + 4);
        pos := pos + 8;
        var name := ReadString(data, w, utf8, strings + nameOff);
        if name.None? {
          return Malformed;
        }
        if IsSeed(stack, name.value) {
          found := Some(Range(pos, len));
        }
        pos := Align(pos + len);
      } else if tag == NOP {
      } else if tag == END {
        return Ok(found);
      } else {
        return Malformed;
      }
    }
    r := Ok(found);
  }

  method IsZero(data: array<Byte>, r: Range) returns (zero: bool)
    ensures zero == AllZero(data[..], r)
  {
    var i := r.at;
    while i < r.at + r.len && i < data.Length
      invariant r.at <= i
      invariant forall j :: r.at <= j < i && j < data.Length ==> data[j] == 0
    {
      if data[i] != 0 {
        return false;
      }
      i := i + 1;
    }
    return true;
  }

  /** The whole edit, in place. */
  method FindAndZero(utf8: Name -> bool, data: array<Byte>) returns (r: Result<bool>)
    modifies data
    ensures (r, data[..]) == Edit(utf8, old(data[..]))
  {
    hide Found;
    ghost var before := data[..];
    var found := Find(utf8, data);
    if found.Malformed? {
      return Malformed;
    }
    if found.value.None? {
      return Ok(false);
    }
    var v := found.value.value;
    var zero := IsZero(data, v);
    if zero {
      return Ok(false);
    }
    var i := 0;
    while i < v.len && v.at + i < data.Length
      invariant 0 <= i <= v.len
      invariant forall j :: 0 <= j < data.Length ==> data[j] == if v.at <= j < v.at + i then 0 else before[j]
    {
      data[v.at + i] := 0;
      i := i + 1;
    }
    assert data[..] == Zero(before, v);
    r := if v.at + v.len > data.Length then Malformed else Ok(true);
  }

  // ---- Trees and their flattened form ----

  /** A value whose length fits its length field. */
  type Value = v: seq<Byte> | |v| < TWO32 witness []

  datatype Node = Node(name: Name, body: Items)

  datatype Items = Nil | Nop(rest: Items) | Prop(nameOff: Word, val: Value, rest: Items) | Sub(node: Node, rest: Items)

  /** Zeros up to the next multiple of four. */
  function Pad(n: nat): (z: seq<Byte>)
    ensures n + |z| == Align(n)
  {
    Zeros(Align(n) - n)
  }

  function NameToken(name: Name): (s: seq<Byte>)
    ensures Aligned(|s|)
  {
    name + [0] + Pad(|name| + 1)
  }

  function Head(node: Node): (s: seq<Byte>)
    ensures Aligned(|s|)
  {
    Be32(1) + NameToken(node.name)
  }

  function PropToken(nameOff: Word, val: Value): (s: seq<Byte>)
    ensures |s| == 12 + Align(|val|)
  {
    Be32(3) + Be32(|val|) + Be32(nameOff) + (val + Pad(|val|))
  }

  /** Names a flattened tree can hold: no NUL, decodable, properties named in the strings block. */
  predicate NodeOk(utf8: Name -> bool, offs: set<Word>, node: Node) {
    0 !in node.name && utf8(node.name) && ItemsOk(utf8, offs, node.body)
  }

  predicate ItemsOk(utf8: Name -> bool, offs: set<Word>, items: Items) {
    match items
    case Nil => true
    case Nop(rest) => ItemsOk(utf8, offs, rest)
    case Prop(nameOff, val, rest) => nameOff in offs && ItemsOk(utf8, offs, rest)
    case Sub(node, rest) => NodeOk(utf8, offs, node) && ItemsOk(utf8, offs, rest)
  }

  function FlatNode(node: Node): seq<Byte> {
    Head(node) + (FlatItems(node.body) + Be32(2))
  }

  function FlatItems(items: Items): seq<Byte> {
    match items
    case Nil => []
    case Nop(rest) => Be32(4) + FlatItems(rest)
    case Prop(nameOff, val, rest) => PropToken(nameOff, val) + FlatItems(rest)
    case Sub(node, rest) => FlatNode(node) + FlatItems(rest)
  }

  /** Aligned lengths, and tokens of one and of three words, keep what follows aligned. */
  lemma Tokens(a: nat, b: nat)
    ensures Aligned(0)
    ensures Aligned(a) && Aligned(b) ==> Aligned(a + b) && Aligned(a + b + 4) && Aligned(a + b + 12)
  {
  }

  lemma {:induction false} ItemsAligned(items: Items)
    ensures Aligned(|FlatItems(items)|)
    decreases items
  {
    hide Be32, PropToken, Align, FlatNode, Aligned;
    match items
    case Nil =>
      Tokens(0, 0);
    case Nop(rest) =>
      ItemsAligned(rest);
      Tokens(|FlatItems(rest)|, 0);
    case Prop(_, val, rest) =>
      ItemsAligned(rest);
      Tokens(Align(|val|), |FlatItems(rest)|);
    case Sub(node, rest) =>
      NodeAligned(node);
      ItemsAligned(rest);
      Tokens(|FlatNode(node)|, |FlatItems(rest)|);
  }

  lemma {:induction false} NodeAligned(node: Node)
    ensures Aligned(|FlatNode(node)|)
    decreases node
  {
    hide Be32, Head, FlatItems, Aligned;
    ItemsAligned(node.body);
    Tokens(|Head(node)|, |FlatItems(node.body)|);
  }

  // ---- Where the seed lies, and the tree with it zeroed ----

  type Names = Word -> Name

  /** The last value of /chosen/kaslr-seed in items that start at `pos` under `stack`. */
  function SeedInItems(names: Names, items: Items, pos: nat, stack: seq<Name>, found: Option<Range>): Option<Range> {
    match items
    case Nil => found
    case Nop(rest) => SeedInItems(names, rest, pos + 4, stack, found)
    case Prop(nameOff, val, rest) =>
      SeedInItems(names, rest, pos + 12 + Align(|val|), stack,
        if IsSeed(stack, names(nameOff)) then Some(Range(pos + 12, |val|)) else found)
    case Sub(node, rest) =>
      SeedInItems(names, rest, pos + |FlatNode(node)|, stack, SeedInNode(names, node, pos, stack, found))
  }

  function SeedInNode(names: Names, node: Node, pos: nat, stack: seq<Name>, found: Option<Range>): Option<Range> {
    SeedInItems(names, node.body, pos + |Head(node)|, stack + [node.name], found)
  }

  /** The same, on the tree alone: the last seed's value. */
  function ValueInItems(names: Names, items: Items, stack: seq<Name>): Option<seq<Byte>> {
    match items
    case Nil => None
    case Nop(rest) => ValueInItems(names, rest, stack)
    case Prop(nameOff, val, rest) =>
      var v := ValueInItems(names, rest, stack);
      if v.None? && IsSeed(stack, names(nameOff)) then Some(val) else v
    case Sub(node, rest) =>
      var v := ValueInItems(names, rest, stack);
      if v.None? then ValueInNode(names, node, stack) else v
  }

  function ValueInNode(names: Names, node: Node, stack: seq<Name>): Option<seq<Byte>> {
    ValueInItems(names, node.body, stack + [node.name])
  }

  // ---- By path ----

  /** The last property of that name in a node itself. */
  function LastProperty(names: Names, items: Items, name: Name): Option<seq<Byte>> {
    match items
    case Nil => None
    case Nop(rest) => LastProperty(names, rest, name)
    case Sub(_, rest) => LastProperty(names, rest, name)
    case Prop(nameOff, val, rest) =>
      var later := LastProperty(names, rest, name);
      if later.Some? then later else if names(nameOff) == name then Some(val) else None
  }

  /** The same over the children of that name. */
  function LastBelow(names: Names, items: Items, child: Name, name: Name): Option<seq<Byte>> {
    match items
    case Nil => None
    case Nop(rest) => LastBelow(names, rest, child, name)
    case Prop(_, _, rest) => LastBelow(names, rest, child, name)
    case Sub(node, rest) =>
      var later := LastBelow(names, rest, child, name);
      if later.Some? then later else if node.name == child then LastProperty(names, node.body, name) else None
  }

  /** The value looked for is that of /chosen/kaslr-seed, the last if there are several. */
  lemma SeedByPath(names: Names, t: Node)
    ensures ValueInNode(names, t, []) ==
      if t.name == [] then LastBelow(names, t.body, Ascii("chosen"), Ascii("kaslr-seed")) else None
  {
    assert [] + [t.name] == [t.name];
    if t.name == [] {
      InRoot(names, t.body);
    } else {
      OffPath(names, t.body, [t.name]);
    }
  }

  lemma {:induction false} InRoot(names: Names, items: Items)
    ensures ValueInItems(names, items, [[]]) == LastBelow(names, items, CHOSEN, SEED)
  {
    match items
    case Nil =>
    case Nop(rest) =>
      InRoot(names, rest);
    case Prop(_, _, rest) =>
      InRoot(names, rest);
    case Sub(node, rest) =>
      InRoot(names, rest);
      assert [[]] + [node.name] == [[], node.name];
      if node.name == CHOSEN {
        InChosen(names, node.body);
      } else {
        OffPath(names, node.body, [[], node.name]);
      }
  }

  lemma {:induction false} InChosen(names: Names, items: Items)
    ensures ValueInItems(names, items, [[], CHOSEN]) == LastProperty(names, items, SEED)
  {
    match items
    case Nil =>
    case Nop(rest) =>
      InChosen(names, rest);
    case Prop(_, _, rest) =>
      InChosen(names, rest);
    case Sub(node, rest) =>
      InChosen(names, rest);
      OffPath(names, node.body, [[], CHOSEN] + [node.name]);
  }

  /** Neither /chosen nor on the way to it. */
  lemma {:induction false} OffPath(names: Names, items: Items, stack: seq<Name>)
    requires |stack| > 2 || (|stack| > 0 && stack[0] != []) || (|stack| > 1 && stack[1] != CHOSEN)
    ensures ValueInItems(names, items, stack) == None
  {
    match items
    case Nil =>
    case Nop(rest) =>
      OffPath(names, rest, stack);
    case Prop(_, _, rest) =>
      OffPath(names, rest, stack);
    case Sub(node, rest) =>
      OffPath(names, rest, stack);
      OffPath(names, node.body, stack + [node.name]);
  }

  /** The tree with that value zeroed and nothing else changed. */
  function ZeroItems(names: Names, items: Items, stack: seq<Name>): Items {
    match items
    case Nil => Nil
    case Nop(rest) => Nop(ZeroItems(names, rest, stack))
    case Prop(nameOff, val, rest) =>
      if ValueInItems(names, rest, stack).Some? then Prop(nameOff, val, ZeroItems(names, rest, stack))
      else if IsSeed(stack, names(nameOff)) then Prop(nameOff, Zeros(|val|), rest)
      else items
    case Sub(node, rest) =>
      if ValueInItems(names, rest, stack).Some? then Sub(node, ZeroItems(names, rest, stack))
      else Sub(ZeroNode(names, node, stack), rest)
  }

  function ZeroNode(names: Names, node: Node, stack: seq<Name>): Node {
    Node(node.name, ZeroItems(names, node.body, stack + [node.name]))
  }

  // ---- The walk over a flattened tree ----

  /** `s` lies at `pos`. */
  ghost predicate At(data: seq<Byte>, pos: nat, s: seq<Byte>) {
    pos + |s| <= |data| && data[pos..pos + |s|] == s
  }

  lemma AtSplit(data: seq<Byte>, pos: nat, a: seq<Byte>, b: seq<Byte>)
    ensures At(data, pos, a + b) <==> At(data, pos, a) && At(data, pos + |a|, b)
  {
    if At(data, pos, a + b) {
      assert data[pos..pos + |a|] == (a + b)[..|a|];
      assert data[pos + |a|..pos + |a| + |b|] == (a + b)[|a|..];
    }
    if At(data, pos, a) && At(data, pos + |a|, b) {
      assert data[pos..pos + |a + b|] == data[pos..pos + |a|] + data[pos + |a|..pos + |a| + |b|];
    }
  }

  lemma AtWord(data: seq<Byte>, pos: nat, w: Word)
    requires At(data, pos, Be32(w))
    ensures pos + 4 <= |data| && WordAt(data, pos) == w
  {
    hide Be32, UnBe32;
    assert data[pos..pos + 4] == Be32(w);
    Be32RoundTrip(w);
  }

  lemma {:induction false} IndexNulAt(data: seq<Byte>, at: nat, name: Name)
    requires 0 !in name && At(data, at, name + [0])
    ensures IndexNul(data, at) == Some(at + |name|)
    decreases |name|
  {
    var s := name + [0];
    assert data[at] == data[at..at + |s|][0] == s[0];
    if name == [] {
    } else {
      assert name[0] in name;
      assert s == [name[0]] + (name[1..] + [0]);
      AtSplit(data, at, [name[0]], name[1..] + [0]);
      IndexNulAt(data, at + 1, name[1..]);
    }
  }

  lemma StringIsAt(w: Walk, at: nat, name: Name)
    requires 0 !in name && w.utf8(name) && At(w.data, at, name + [0])
    ensures StringAt(w, at) == Some(name)
  {
    IndexNulAt(w.data, at, name);
    AtSplit(w.data, at, name, [0]);
  }

  /** Every property name of the tree is found in the strings block. */
  ghost predicate NamesAt(w: Walk, offs: set<Word>, names: Names) {
    forall o :: o in offs ==> StringAt(w, w.strings + o) == Some(names(o))
  }

  lemma ScanHead(w: Walk, node: Node, pos: nat, stack: seq<Name>, found: Option<Range>)
    requires 0 !in node.name && w.utf8(node.name) && Aligned(pos) && pos < w.end && At(w.data, pos, Head(node))
    ensures Scan(w, pos, stack, found) == Scan(w, pos + |Head(node)|, stack + [node.name], found)
  {
    hide Scan, StringAt, WordAt;
    var z := Pad(|node.name| + 1);
    AtSplit(w.data, pos, Be32(BEGIN_NODE), node.name + [0] + z);
    AtSplit(w.data, pos + 4, node.name + [0], z);
    AtWord(w.data, pos, BEGIN_NODE);
    StringIsAt(w, pos + 4, node.name);
    ScanBegin(w, pos, stack, found, node.name);
  }

  lemma ScanBegin(w: Walk, pos: nat, stack: seq<Name>, found: Option<Range>, name: Name)
    requires Aligned(pos) && pos < w.end && pos + 4 <= |w.data| && WordAt(w.data, pos) == BEGIN_NODE
    requires StringAt(w, pos + 4) == Some(name)
    ensures Scan(w, pos, stack, found) == Scan(w, pos + 4 + Align(|name| + 1), stack + [name], found)
  {
    hide StringAt, WordAt, Align;
    AlignFrom(pos + 4, |name| + 1);
  }

  lemma AlignFrom(pos: nat, n: nat)
    requires Aligned(pos)
    ensures Align(pos + n) == pos + Align(n)
  {
  }

  lemma ScanProp(w: Walk, offs: set<Word>, names: Names, nameOff: Word, val: Value, pos: nat, stack: seq<Name>, found: Option<Range>)
    requires nameOff in offs && NamesAt(w, offs, names)
    requires Aligned(pos) && pos < w.end && At(w.data, pos, PropToken(nameOff, val))
    ensures Scan(w, pos, stack, found) ==
      Scan(w, pos + 12 + Align(|val|), stack, if IsSeed(stack, names(nameOff)) then Some(Range(pos + 12, |val|)) else found)
    ensures At(w.data, pos + 12, val)
  {
    hide StringAt, WordAt, Align, IsSeed, Be32;
    var tail := val + Pad(|val|);
    AtSplit(w.data, pos, Be32(PROP) + Be32(|val|) + Be32(nameOff), tail);
    AtSplit(w.data, pos, Be32(PROP) + Be32(|val|), Be32(nameOff));
    AtSplit(w.data, pos, Be32(PROP), Be32(|val|));
    AtSplit(w.data, pos + 12, val, Pad(|val|));
    AtWord(w.data, pos, PROP);
    AtWord(w.data, pos + 4, |val|);
    AtWord(w.data, pos + 8, nameOff);
    AlignFrom(pos + 12, |val|);
  }

  lemma ScanEnd(w: Walk, pos: nat, stack: seq<Name>, name: Name, found: Option<Range>)
    requires pos < w.end && At(w.data, pos, Be32(END_NODE))
    ensures Scan(w, pos, stack + [name], found) == Scan(w, pos + 4, stack, found)
  {
    hide WordAt, Be32, StringAt;
    AtWord(w.data, pos, END_NODE);
    assert (stack + [name])[..|stack|] == stack;
  }

  lemma ScanNop(w: Walk, pos: nat, stack: seq<Name>, found: Option<Range>)
    requires pos < w.end && At(w.data, pos, Be32(NOP))
    ensures Scan(w, pos, stack, found) == Scan(w, pos + 4, stack, found)
  {
    hide WordAt, Be32, StringAt;
    AtWord(w.data, pos, NOP);
  }

  /** The walk comes out behind the items, having found their last seed. */
  lemma {:induction false} ScanItems(w: Walk, offs: set<Word>, names: Names, items: Items, pos: nat, stack: seq<Name>, found: Option<Range>)
    requires ItemsOk(w.utf8, offs, items) && NamesAt(w, offs, names)
    requires Aligned(pos) && pos + |FlatItems(items)| < w.end && At(w.data, pos, FlatItems(items))
    ensures Scan(w, pos, stack, found) == Scan(w, pos + |FlatItems(items)|, stack, SeedInItems(names, items, pos, stack, found))
    decreases items
  {
    hide Scan, IsSeed, NamesAt, At, PropToken, FlatNode, SeedInNode, Be32, Align, NodeOk, Aligned;
    match items
    case Nil =>
    case Nop(rest) =>
      AtSplit(w.data, pos, Be32(NOP), FlatItems(rest));
      ScanNop(w, pos, stack, found);
      Tokens(pos, 0);
      ScanItems(w, offs, names, rest, pos + 4, stack, found);
    case Prop(nameOff, val, rest) =>
      AtSplit(w.data, pos, PropToken(nameOff, val), FlatItems(rest));
      ScanProp(w, offs, names, nameOff, val, pos, stack, found);
      Tokens(pos, Align(|val|));
      ScanItems(w, offs, names, rest, pos + 12 + Align(|val|), stack,
        if IsSeed(stack, names(nameOff)) then Some(Range(pos + 12, |val|)) else found);
    case Sub(node, rest) =>
      AtSplit(w.data, pos, FlatNode(node), FlatItems(rest));
      NodeAligned(node);
      Tokens(pos, |FlatNode(node)|);
      ScanNode(w, offs, names, node, pos, stack, found);
      ScanItems(w, offs, names, rest, pos + |FlatNode(node)|, stack, SeedInNode(names, node, pos, stack, found));
  }

  lemma {:induction false} ScanNode(w: Walk, offs: set<Word>, names: Names, node: Node, pos: nat, stack: seq<Name>, found: Option<Range>)
    requires NodeOk(w.utf8, offs, node) && NamesAt(w, offs, names)
    requires Aligned(pos) && pos + |FlatNode(node)| <= w.end && At(w.data, pos, FlatNode(node))
    ensures Scan(w, pos, stack, found) == Scan(w, pos + |FlatNode(node)|, stack, SeedInNode(names, node, pos, stack, found))
    decreases node
  {
    hide Scan, IsSeed, NamesAt, At, Head, FlatItems, SeedInItems, Aligned;
    Tokens(pos, |Head(node)|);
    var body := FlatItems(node.body);
    AtSplit(w.data, pos, Head(node), body + Be32(END_NODE));
    AtSplit(w.data, pos + |Head(node)|, body, Be32(END_NODE));
    ItemsAligned(node.body);
    ScanHead(w, node, pos, stack, found);
    ScanItems(w, offs, names, node.body, pos + |Head(node)|, stack + [node.name], found);
    ScanEnd(w, pos + |Head(node)| + |body|, stack, node.name, SeedInNode(names, node, pos, stack, found));
  }

  // ---- Zeroing bytes is zeroing the value in the tree ----

  /** A range of a part, seen in the whole. */
  lemma ZeroPart(pre: seq<Byte>, s: seq<Byte>, post: seq<Byte>, r: Range)
    requires |pre| <= r.at && r.at + r.len <= |pre| + |s|
    ensures Zero(pre + s + post, r) == pre + Zero(s, Range(r.at - |pre|, r.len)) + post
  {
  }

  /** What is found in `items` at `pos` does not depend on what was found before. */
  lemma {:induction false} SeedItemsFrom(names: Names, items: Items, pos: nat, stack: seq<Name>, found: Option<Range>)
    ensures SeedInItems(names, items, pos, stack, found) ==
      var r := SeedInItems(names, items, pos, stack, None); if r.None? then found else r
    decreases items
  {
    hide IsSeed, Align, FlatNode;
    match items
    case Nil =>
    case Nop(rest) =>
      SeedItemsFrom(names, rest, pos + 4, stack, found);
    case Prop(nameOff, val, rest) =>
      SeedItemsFrom(names, rest, pos + 12 + Align(|val|), stack,
        if IsSeed(stack, names(nameOff)) then Some(Range(pos + 12, |val|)) else found);
      SeedItemsFrom(names, rest, pos + 12 + Align(|val|), stack,
        if IsSeed(stack, names(nameOff)) then Some(Range(pos + 12, |val|)) else None);
    case Sub(node, rest) =>
      var p := pos + |FlatNode(node)|;
      SeedItemsFrom(names, rest, p, stack, SeedInNode(names, node, pos, stack, found));
      SeedItemsFrom(names, rest, p, stack, SeedInNode(names, node, pos, stack, None));
      SeedItemsFrom(names, node.body, pos + |Head(node)|, stack + [node.name], found);
  }

  /** The bytes of the found range are the tree's value, and zeroing them flattens the zeroed tree. */
  ghost predicate Commutes(r: Option<Range>, v: Option<seq<Byte>>, pos: nat, flat: seq<Byte>, zeroed: seq<Byte>) {
    && (r.None? <==> v.None?)
    && (r.None? ==> zeroed == flat)
    && (r.Some? ==>
      && pos <= r.value.at && r.value.at + r.value.len <= pos + |flat| && r.value.len == |v.value|
      && At(flat, r.value.at - pos, v.value)
      && zeroed == Zero(flat, Range(r.value.at - pos, r.value.len)))
  }

  /** A part that commutes still does between others. */
  lemma CommutesWithin(r: Option<Range>, v: Option<seq<Byte>>, pos: nat, pre: seq<Byte>, flat: seq<Byte>, zeroed: seq<Byte>, post: seq<Byte>)
    requires Commutes(r, v, pos + |pre|, flat, zeroed)
    ensures Commutes(r, v, pos, pre + flat + post, pre + zeroed + post)
  {
    if r.Some? {
      var q := Range(r.value.at - pos, r.value.len);
      ZeroPart(pre, flat, post, q);
      var whole := pre + flat + post;
      assert flat[q.at - |pre|..q.at - |pre| + q.len] == whole[q.at..q.at + q.len];
    }
  }

  lemma PropCommutes(nameOff: Word, val: Value, pos: nat)
    ensures Commutes(Some(Range(pos + 12, |val|)), Some(val), pos, PropToken(nameOff, val), PropToken(nameOff, Zeros(|val|)))
  {
    hide Be32, Align;
    var pre, post := Be32(PROP) + Be32(|val|) + Be32(nameOff), Pad(|val|);
    var s := PropToken(nameOff, val);
    assert s == pre + val + post;
    assert PropToken(nameOff, Zeros(|val|)) == pre + Zeros(|val|) + post;
    assert Zero(val, Range(0, |val|)) == Zeros(|val|);
    ZeroPart(pre, val, post, Range(12, |val|));
    assert s[12..12 + |val|] == val;
  }

  lemma {:induction false} ItemsCommute(names: Names, items: Items, pos: nat, stack: seq<Name>)
    ensures Commutes(SeedInItems(names, items, pos, stack, None), ValueInItems(names, items, stack), pos,
              FlatItems(items), FlatItems(ZeroItems(names, items, stack)))
    decreases items
  {
    hide Commutes, IsSeed, Align, Be32, PropToken, FlatNode, SeedInNode, ValueInNode, ZeroNode;
    match items
    case Nil =>
      NothingFound(pos, []);
    case Nop(rest) =>
      ItemsCommute(names, rest, pos + 4, stack);
      RestCommutes(SeedInItems(names, rest, pos + 4, stack, None), ValueInItems(names, rest, stack), pos, Be32(NOP),
        FlatItems(rest), FlatItems(ZeroItems(names, rest, stack)));
    case Prop(nameOff, val, rest) =>
      var seed := IsSeed(stack, names(nameOff));
      var p := pos + 12 + Align(|val|);
      ItemsCommute(names, rest, p, stack);
      SeedItemsFrom(names, rest, p, stack, if seed then Some(Range(pos + 12, |val|)) else None);
      RestCommutes(SeedInItems(names, rest, p, stack, None), ValueInItems(names, rest, stack), pos, PropToken(nameOff, val),
        FlatItems(rest), FlatItems(ZeroItems(names, rest, stack)));
      if seed {
        PropCommutes(nameOff, val, pos);
        FirstCommutes(Some(Range(pos + 12, |val|)), Some(val), pos, PropToken(nameOff, val), PropToken(nameOff, Zeros(|val|)), FlatItems(rest));
      } else {
        NothingFound(pos, FlatItems(items));
      }
    case Sub(node, rest) =>
      var p := pos + |FlatNode(node)|;
      var r := SeedInNode(names, node, pos, stack, None);
      ItemsCommute(names, rest, p, stack);
      SeedItemsFrom(names, rest, p, stack, r);
      RestCommutes(SeedInItems(names, rest, p, stack, None), ValueInItems(names, rest, stack), pos, FlatNode(node),
        FlatItems(rest), FlatItems(ZeroItems(names, rest, stack)));
      NodeCommutes(names, node, pos, stack);
      FirstCommutes(r, ValueInNode(names, node, stack), pos, FlatNode(node), FlatNode(ZeroNode(names, node, stack)), FlatItems(rest));
  }

  lemma {:induction false} NodeCommutes(names: Names, node: Node, pos: nat, stack: seq<Name>)
    ensures Commutes(SeedInNode(names, node, pos, stack, None), ValueInNode(names, node, stack), pos,
              FlatNode(node), FlatNode(ZeroNode(names, node, stack)))
    decreases node
  {
    hide Commutes, Head, Be32, FlatItems;
    var path := stack + [node.name];
    var zeroed := ZeroItems(names, node.body, path);
    ItemsCommute(names, node.body, pos + |Head(node)|, path);
    CommutesWithin(SeedInNode(names, node, pos, stack, None), ValueInNode(names, node, stack), pos,
      Head(node), FlatItems(node.body), FlatItems(zeroed), Be32(END_NODE));
    SameHead(node, zeroed);
    assert Head(node) + (FlatItems(node.body) + Be32(END_NODE)) == Head(node) + FlatItems(node.body) + Be32(END_NODE);
    assert Head(node) + (FlatItems(zeroed) + Be32(END_NODE)) == Head(node) + FlatItems(zeroed) + Be32(END_NODE);
  }

  lemma SameHead(node: Node, body: Items)
    ensures Head(Node(node.name, body)) == Head(node)
  {
  }

  lemma NothingFound(pos: nat, flat: seq<Byte>)
    ensures Commutes(None, None, pos, flat, flat)
  {
  }

  /** A part behind another one. */
  lemma RestCommutes(r: Option<Range>, v: Option<seq<Byte>>, pos: nat, pre: seq<Byte>, flat: seq<Byte>, zeroed: seq<Byte>)
    requires Commutes(r, v, pos + |pre|, flat, zeroed)
    ensures Commutes(r, v, pos, pre + flat, pre + zeroed)
    ensures r.Some? <==> v.Some?
  {
    CommutesWithin(r, v, pos, pre, flat, zeroed, []);
    assert pre + flat + [] == pre + flat && pre + zeroed + [] == pre + zeroed;
  }

  /** A part before another one. */
  lemma FirstCommutes(r: Option<Range>, v: Option<seq<Byte>>, pos: nat, flat: seq<Byte>, zeroed: seq<Byte>, post: seq<Byte>)
    requires Commutes(r, v, pos, flat, zeroed)
    ensures Commutes(r, v, pos, flat + post, zeroed + post)
    ensures r.Some? <==> v.Some?
  {
    CommutesWithin(r, v, pos, [], flat, zeroed, post);
    assert [] + flat + post == flat + post && [] + zeroed + post == zeroed + post;
  }

  /** Zeroing the last seed leaves it the last seed, with a zero value. */
  lemma {:induction false} ItemsZeroed(names: Names, items: Items, stack: seq<Name>)
    ensures var v := ValueInItems(names, items, stack);
      ValueInItems(names, ZeroItems(names, items, stack), stack) == if v.None? then None else Some(Zeros(|v.value|))
    decreases items
  {
    hide IsSeed;
    match items
    case Nil =>
    case Nop(rest) =>
      ItemsZeroed(names, rest, stack);
    case Prop(nameOff, val, rest) =>
      ItemsZeroed(names, rest, stack);
    case Sub(node, rest) =>
      ItemsZeroed(names, rest, stack);
      ItemsZeroed(names, node.body, stack + [node.name]);
  }

  lemma {:induction false} ItemsStayOk(utf8: Name -> bool, offs: set<Word>, names: Names, items: Items, stack: seq<Name>)
    requires ItemsOk(utf8, offs, items)
    ensures ItemsOk(utf8, offs, ZeroItems(names, items, stack))
    decreases items
  {
    hide IsSeed, ValueInItems;
    match items
    case Nil =>
    case Nop(rest) =>
      ItemsStayOk(utf8, offs, names, rest, stack);
    case Prop(_, _, rest) =>
      ItemsStayOk(utf8, offs, names, rest, stack);
    case Sub(node, rest) =>
      ItemsStayOk(utf8, offs, names, rest, stack);
      ItemsStayOk(utf8, offs, names, node.body, stack + [node.name]);
  }

  // ---- Whole blobs ----

  function Structure(t: Node): seq<Byte> {
    FlatNode(t) + Be32(9)
  }

  /** A name that lies in full outside the structure block. */
  ghost predicate NameOutside(data: seq<Byte>, at: nat, name: Name, lo: nat, hi: nat) {
    At(data, at, name + [0]) && (at + |name| + 1 <= lo || hi <= at)
  }

  /** `data` is the flattened form of `t`, property names as `names` says. */
  ghost predicate IsBlob(utf8: Name -> bool, data: seq<Byte>, t: Node, offs: set<Word>, names: Names) {
    && |data| >= 40 && WordAt(data, 0) == MAGIC
    && NodeOk(utf8, offs, t)
    && 40 <= WordAt(data, 8) && Aligned(WordAt(data, 8))
    && WordAt(data, 36) == |Structure(t)| && At(data, WordAt(data, 8), Structure(t))
    && var lo: int, strings: int := WordAt(data, 8), WordAt(data, 12);
      forall o :: o in offs ==>
        0 !in names(o) && utf8(names(o)) && NameOutside(data, strings + o, names(o), lo, lo + |Structure(t)|)
  }

  // ---- Writing one ----

  /** Structure and strings of a blob behind the ten words of its header and an empty reservation block. */
  function Serialize(t: Node, strings: seq<Byte>): seq<Byte>
    requires 56 + |Structure(t)| + |strings| < TWO32
  {
    var n := |Structure(t)|;
    WordsToBytes([0xd00d_feed, 56 + n + |strings|, 56, 56 + n, 40, 17, 16, 0, |strings|, n]) + (Zeros(16) + (Structure(t) + strings))
  }

  lemma {:induction false} WordOf(words: seq<Word>, i: nat)
    requires i < |words|
    ensures At(WordsToBytes(words), 4 * i, Be32(words[i]))
  {
    hide Be32;
    var rest := WordsToBytes(words[1..]);
    AtFront(Be32(words[0]), rest);
    if i == 0 {
    } else {
      WordOf(words[1..], i - 1);
      AtBehind(Be32(words[0]), rest, 4 * (i - 1), Be32(words[i]));
    }
  }

  lemma AtFront(a: seq<Byte>, b: seq<Byte>)
    ensures At(a + b, 0, a) && At(a + b, |a|, b)
  {
  }

  lemma AtBehind(a: seq<Byte>, b: seq<Byte>, pos: nat, s: seq<Byte>)
    requires At(b, pos, s)
    ensures At(a + b, |a| + pos, s)
  {
    assert (a + b)[|a| + pos..|a| + pos + |s|] == b[pos..pos + |s|];
  }

  lemma AtBefore(a: seq<Byte>, b: seq<Byte>, pos: nat, s: seq<Byte>)
    requires At(a, pos, s)
    ensures At(a + b, pos, s)
  {
    assert (a + b)[pos..pos + |s|] == a[pos..pos + |s|];
  }

  lemma HeaderWord(words: seq<Word>, rest: seq<Byte>, i: nat)
    requires i < |words|
    ensures 4 * i + 4 <= |WordsToBytes(words) + rest| && WordAt(WordsToBytes(words) + rest, 4 * i) == words[i]
  {
    hide Be32, At, WordAt, WordsToBytes;
    WordOf(words, i);
    AtBefore(WordsToBytes(words), rest, 4 * i, Be32(words[i]));
    AtWord(WordsToBytes(words) + rest, 4 * i, words[i]);
  }

  /** Every tree that fits the header's fields, with any strings block that holds its names, has a blob. */
  lemma SerializeIsBlob(utf8: Name -> bool, t: Node, strings: seq<Byte>, offs: set<Word>, names: Names)
    requires NodeOk(utf8, offs, t) && 56 + |Structure(t)| + |strings| < TWO32
    requires forall o :: o in offs ==> 0 !in names(o) && utf8(names(o)) && At(strings, o, names(o) + [0])
    ensures IsBlob(utf8, Serialize(t, strings), t, offs, names)
  {
    hide WordAt, Structure, At, NodeOk, WordsToBytes, Be32;
    var n := |Structure(t)|;
    var words: seq<Word> := [MAGIC, 56 + n + |strings|, 56, 56 + n, 40, 17, 16, 0, |strings|, n];
    var head, body := WordsToBytes(words), Structure(t) + strings;
    var data := Serialize(t, strings);
    assert data == head + (Zeros(16) + body);
    HeaderWord(words, Zeros(16) + body, 0);
    HeaderWord(words, Zeros(16) + body, 2);
    HeaderWord(words, Zeros(16) + body, 3);
    HeaderWord(words, Zeros(16) + body, 9);
    AtFront(Structure(t), strings);
    AtBehind(Zeros(16), body, 0, Structure(t));
    AtBehind(head, Zeros(16) + body, 16, Structure(t));
    forall o | o in offs ensures NameOutside(data, 56 + n + o, names(o), 56, 56 + n) {
      AtBehind(Structure(t), strings, o, names(o) + [0]);
      AtBehind(Zeros(16), body, n + o, names(o) + [0]);
      AtBehind(head, Zeros(16) + body, 16 + n + o, names(o) + [0]);
    }
  }

  // ---- Reading one ----

  /** Where the parts of a blob lie. */
  lemma BlobParts(utf8: Name -> bool, data: seq<Byte>, t: Node, offs: set<Word>, names: Names)
    requires IsBlob(utf8, data, t, offs, names)
    ensures |data| >= 40 && WordAt(data, 0) == MAGIC && NodeOk(utf8, offs, t)
    ensures var lo := WordAt(data, 8);
      && Aligned(lo) && WordAt(data, 36) == |FlatNode(t)| + 4
      && At(data, lo, FlatNode(t)) && At(data, lo + |FlatNode(t)|, Be32(END))
  {
    hide WordAt, At, NodeOk, FlatNode, Be32, NameOutside;
    AtSplit(data, WordAt(data, 8), FlatNode(t), Be32(END));
  }

  lemma BlobNames(utf8: Name -> bool, data: seq<Byte>, t: Node, offs: set<Word>, names: Names)
    requires IsBlob(utf8, data, t, offs, names)
    ensures NamesAt(WalkOf(utf8, data), offs, names)
  {
    hide WordAt, StringAt, At, Structure, NodeOk;
    var w := WalkOf(utf8, data);
    forall o | o in offs ensures StringAt(w, w.strings + o) == Some(names(o)) {
      StringIsAt(w, w.strings + o, names(o));
    }
  }

  /** On a blob the walk ends at the END token with the tree's last seed. */
  lemma BlobFound(utf8: Name -> bool, data: seq<Byte>, t: Node, offs: set<Word>, names: Names)
    requires IsBlob(utf8, data, t, offs, names)
    ensures Found(utf8, data) == Ok(SeedInNode(names, t, WordAt(data, 8), [], None))
  {
    hide WordAt, Scan, StringAt, At, NodeOk, FlatNode, Be32, SeedInNode, NamesAt, UnBe32, NameOutside, IsBlob;
    BlobParts(utf8, data, t, offs, names);
    var w, lo: nat := WalkOf(utf8, data), WordAt(data, 8);
    BlobNames(utf8, data, t, offs, names);
    ScanNode(w, offs, names, t, lo, [], None);
    ScanStops(w, lo + |FlatNode(t)|, SeedInNode(names, t, lo, [], None));
  }

  lemma ScanStops(w: Walk, pos: nat, found: Option<Range>)
    requires pos < w.end && At(w.data, pos, Be32(END))
    ensures Scan(w, pos, [], found) == Ok(found)
  {
    hide WordAt, Be32, StringAt;
    AtWord(w.data, pos, END);
  }

  ghost predicate IsZeros(v: seq<Byte>) {
    forall i :: 0 <= i < |v| ==> v[i] == 0
  }

  lemma ZeroInside(data: seq<Byte>, at: nat, s: seq<Byte>, r: Range)
    requires At(data, at, s) && at <= r.at && r.at + r.len <= at + |s|
    ensures Zero(data, r) == Write(data, at, Zero(s, Range(r.at - at, r.len)))
  {
    ZeroPart(data[..at], s, data[at + |s|..], r);
    assert data == data[..at] + s + data[at + |s|..];
  }

  lemma ValueZero(data: seq<Byte>, at: nat, s: seq<Byte>, r: Range, v: seq<Byte>)
    requires At(data, at, s) && at <= r.at && r.len == |v| && At(s, r.at - at, v)
    ensures AllZero(data, r) <==> IsZeros(v)
  {
    var d := r.at - at;
    assert forall i :: 0 <= i < |v| ==> v[i] == s[d..d + |v|][i] == s[d + i] == data[at..at + |s|][d + i] == data[r.at + i];
    if AllZero(data, r) {
      forall i | 0 <= i < |v| ensures v[i] == 0 {
        assert data[r.at + i] == 0;
      }
    }
    if IsZeros(v) {
      forall i | r.at <= i < r.at + r.len ensures data[i] == 0 {
        assert data[r.at + (i - r.at)] == v[i - r.at];
      }
    }
  }

  /**
   * On the flattened form of any tree: the edit reports a change exactly when
   * the tree has a nonzero /chosen/kaslr-seed, and then it leaves the
   * flattened form of the same tree with that value zeroed.
   */
  lemma EditIsTreeEdit(utf8: Name -> bool, data: seq<Byte>, t: Node, offs: set<Word>, names: Names)
    requires IsBlob(utf8, data, t, offs, names)
    ensures var v := ValueInNode(names, t, []);
      var t' := ZeroNode(names, t, []);
      |Structure(t')| == |Structure(t)| &&
      Edit(utf8, data) ==
        if v.None? || IsZeros(v.value) then (Ok(false), data)
        else (Ok(true), Write(data, WordAt(data, 8), Structure(t')))
  {
    var lo: nat := WordAt(data, 8);
    hide WordAt, IsBlob, At, NodeOk, Found, FlatNode, Be32, SeedInNode, ValueInNode, ZeroNode, Zero, AllZero, IsZeros, Write, Commutes;
    BlobFound(utf8, data, t, offs, names);
    NodeCommutes(names, t, lo, []);
    var r, v, t' := SeedInNode(names, t, lo, [], None), ValueInNode(names, t, []), ZeroNode(names, t, []);
    BlobAt(utf8, data, t, offs, names);
    FirstCommutes(r, v, lo, FlatNode(t), FlatNode(t'), Be32(END));
    CommutesInPlace(r, v, data, lo, Structure(t), Structure(t'));
  }

  /** A part that commutes, zeroed where it lies. */
  lemma CommutesInPlace(r: Option<Range>, v: Option<seq<Byte>>, data: seq<Byte>, pos: nat, flat: seq<Byte>, zeroed: seq<Byte>)
    requires Commutes(r, v, pos, flat, zeroed) && At(data, pos, flat)
    ensures |zeroed| == |flat| && pos + |zeroed| <= |data| && (r.Some? <==> v.Some?)
    ensures r.Some? ==>
      && r.value.at + r.value.len <= |data|
      && (AllZero(data, r.value) <==> IsZeros(v.value))
      && Zero(data, r.value) == Write(data, pos, zeroed)
  {
    if r.Some? {
      ZeroInside(data, pos, flat, r.value);
      ValueZero(data, pos, flat, r.value, v.value);
    }
  }

  lemma BlobAt(utf8: Name -> bool, data: seq<Byte>, t: Node, offs: set<Word>, names: Names)
    requires IsBlob(utf8, data, t, offs, names)
    ensures |data| >= 40 && At(data, WordAt(data, 8), Structure(t))
  {
  }

  lemma WrittenAt(data: seq<Byte>, at: nat, s: seq<Byte>)
    requires at + |s| <= |data|
    ensures At(Write(data, at, s), at, s)
  {
  }

  /** Whatever lies outside the written block stays. */
  lemma WrittenOutside(data: seq<Byte>, at: nat, s: seq<Byte>, pos: nat, other: seq<Byte>)
    requires at + |s| <= |data| && At(data, pos, other) && (pos + |other| <= at || at + |s| <= pos)
    ensures At(Write(data, at, s), pos, other)
  {
    var r := Write(data, at, s);
    assert forall i :: 0 <= i < |r| && !(at <= i < at + |s|) ==> r[i] == data[i];
    assert r[pos..pos + |other|] == data[pos..pos + |other|];
  }

  lemma WrittenWord(data: seq<Byte>, at: nat, s: seq<Byte>, pos: nat)
    requires at + |s| <= |data| && pos + 4 <= at
    ensures WordAt(Write(data, at, s), pos) == WordAt(data, pos)
  {
    WrittenOutside(data, at, s, pos, data[pos..pos + 4]);
  }

  lemma NameKept(data: seq<Byte>, lo: nat, s: seq<Byte>, at: nat, name: Name)
    requires lo + |s| <= |data| && NameOutside(data, at, name, lo, lo + |s|)
    ensures NameOutside(Write(data, lo, s), at, name, lo, lo + |s|)
  {
    hide At, Write;
    WrittenOutside(data, lo, s, at, name + [0]);
  }

  lemma Inside(data: seq<Byte>, at: nat, s: seq<Byte>)
    requires At(data, at, s)
    ensures at + |s| <= |data|
  {
  }

  /** Another tree with a structure block of the same length, in the same place. */
  lemma Rewritten(utf8: Name -> bool, data: seq<Byte>, t: Node, t': Node, offs: set<Word>, names: Names)
    requires IsBlob(utf8, data, t, offs, names) && NodeOk(utf8, offs, t') && |Structure(t')| == |Structure(t)|
    ensures IsBlob(utf8, Write(data, WordAt(data, 8), Structure(t')), t', offs, names)
  {
    hide WordAt, Structure, Write, At, NodeOk, Aligned, NameOutside, UnBe32;
    Inside(data, WordAt(data, 8), Structure(t));
    var lo: nat, strings: nat, s := WordAt(data, 8), WordAt(data, 12), Structure(t');
    var out := Write(data, lo, s);
    WrittenAt(data, lo, s);
    WrittenWord(data, lo, s, 0);
    WrittenWord(data, lo, s, 8);
    WrittenWord(data, lo, s, 12);
    WrittenWord(data, lo, s, 36);
    forall o | o in offs ensures NameOutside(out, strings + o, names(o), lo, lo + |s|) {
      NameKept(data, lo, s, strings + o, names(o));
    }
  }

  lemma NodeStaysOk(utf8: Name -> bool, offs: set<Word>, names: Names, t: Node, stack: seq<Name>)
    requires NodeOk(utf8, offs, t)
    ensures NodeOk(utf8, offs, ZeroNode(names, t, stack))
  {
    ItemsStayOk(utf8, offs, names, t.body, stack + [t.name]);
  }

  /** The edited blob is the blob of the edited tree. */
  lemma EditedIsBlob(utf8: Name -> bool, data: seq<Byte>, t: Node, offs: set<Word>, names: Names)
    requires IsBlob(utf8, data, t, offs, names)
    ensures var t' := ZeroNode(names, t, []);
      |Structure(t')| == |Structure(t)| && IsBlob(utf8, Write(data, WordAt(data, 8), Structure(t')), t', offs, names)
  {
    NodeStaysOk(utf8, offs, names, t, []);
    hide IsBlob, Structure, Write, WordAt, NodeOk, ZeroNode, Edit;
    EditIsTreeEdit(utf8, data, t, offs, names);
    Rewritten(utf8, data, t, ZeroNode(names, t, []), offs, names);
  }

  /** Editing what was written for a tree gives what is written for the edited tree. */
  lemma EditSerialized(utf8: Name -> bool, t: Node, strings: seq<Byte>, offs: set<Word>, names: Names)
    requires NodeOk(utf8, offs, t) && 56 + |Structure(t)| + |strings| < TWO32
    requires forall o :: o in offs ==> 0 !in names(o) && utf8(names(o)) && At(strings, o, names(o) + [0])
    ensures var v := ValueInNode(names, t, []);
      var t' := ZeroNode(names, t, []);
      |Structure(t')| == |Structure(t)| &&
      Edit(utf8, Serialize(t, strings)) ==
        if v.None? || IsZeros(v.value) then (Ok(false), Serialize(t, strings)) else (Ok(true), Serialize(t', strings))
  {
    hide IsBlob, Edit, Structure, Write, WordAt, NodeOk, ZeroNode, At, ValueInNode, IsZeros, Serialize;
    SerializeIsBlob(utf8, t, strings, offs, names);
    EditIsTreeEdit(utf8, Serialize(t, strings), t, offs, names);
    SerializeWord(t, strings);
    SerializeOther(t, ZeroNode(names, t, []), strings);
  }

  lemma SerializeWord(t: Node, strings: seq<Byte>)
    requires 56 + |Structure(t)| + |strings| < TWO32
    ensures |Serialize(t, strings)| >= 40 && WordAt(Serialize(t, strings), 8) == 56
  {
    hide WordAt, Structure, WordsToBytes;
    var n := |Structure(t)|;
    var words: seq<Word> := [MAGIC, 56 + n + |strings|, 56, 56 + n, 40, 17, 16, 0, |strings|, n];
    HeaderWord(words, Zeros(16) + (Structure(t) + strings), 2);
  }

  lemma SerializeOther(t: Node, t': Node, strings: seq<Byte>)
    requires 56 + |Structure(t)| + |strings| < TWO32 && |Structure(t')| == |Structure(t)|
    ensures |Serialize(t, strings)| == 56 + |Structure(t)| + |strings|
    ensures Serialize(t', strings) == Write(Serialize(t, strings), 56, Structure(t'))
  {
    hide Structure, WordsToBytes;
    var n := |Structure(t)|;
    var words: seq<Word> := [MAGIC, 56 + n + |strings|, 56, 56 + n, 40, 17, 16, 0, |strings|, n];
    Middle(WordsToBytes(words) + Zeros(16), Structure(t), Structure(t'), strings);
    assert Serialize(t, strings) == WordsToBytes(words) + Zeros(16) + Structure(t) + strings;
    assert Serialize(t', strings) == WordsToBytes(words) + Zeros(16) + Structure(t') + strings;
  }

  lemma Middle(a: seq<Byte>, b: seq<Byte>, b': seq<Byte>, c: seq<Byte>)
    requires |b| == |b'|
    ensures Write(a + b + c, |a|, b') == a + b' + c
  {
  }

  /** A second run finds nothing to do. */
  lemma EditTwice(utf8: Name -> bool, data: seq<Byte>, t: Node, offs: set<Word>, names: Names)
    requires IsBlob(utf8, data, t, offs, names)
    ensures var out := Edit(utf8, data).1; Edit(utf8, out) == (Ok(false), out)
  {
    hide IsBlob, Edit, Structure, Write, WordAt;
    var t' := ZeroNode(names, t, []);
    EditIsTreeEdit(utf8, data, t, offs, names);
    var v := ValueInNode(names, t, []);
    if v.Some? && !IsZeros(v.value) {
      EditedIsBlob(utf8, data, t, offs, names);
      BlobAt(utf8, data, t, offs, names);
      EditIsTreeEdit(utf8, Edit(utf8, data).1, t', offs, names);
      ItemsZeroed(names, t.body, [] + [t.name]);
    }
  }
}
