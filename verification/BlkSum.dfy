/**
 * EFI/ALPINE/BLKSUM: the table file internal/payloadsum/blksum.go writes and
 * the header and entries bios/blkverify.c reads back from it.
 */
module BlkSum {
  import opened Bytes
  import opened HashChain
  import opened BlkVerify
  import opened Wrappers

  const VERSION := 1
  const PER_SECTOR := 15
  /** The part of a sector its own hash covers. */
  const PREFIX := 480
  const MAGIC := Ascii("AZBLKSUM")

  datatype FileEntry = FileEntry(size: Word, offset: Word, nblocks: Word, first: Word, sha: Digest)

  datatype Header = Header(kernel: FileEntry, initrd: FileEntry)

  datatype Result = Ok(header: Header) | Bad | Unsupported

  // ---- Reading: bios/blkverify.c ----

  /** blksum_check_sector(): the sector carries the hash of the rest of it. */
  predicate Sealed(f: Compressor, sec: Sector) {
    Hash(f, sec[..PREFIX]) == sec[PREFIX..]
  }

  function Field(sec: Sector, at: nat): Word
    requires at + 4 <= 512
  {
    Le32(sec[at..at + 4])
  }

  function FileAt(sec: Sector, i: nat): FileEntry
    requires i < 2
  {
    FileEntry(Field(sec, 20 + 16 * i), Field(sec, 24 + 16 * i), Field(sec, 28 + 16 * i), Field(sec, 32 + 16 * i),
      sec[52 + 32 * i..84 + 32 * i])
  }

  predicate FileOk(e: FileEntry) {
    e.offset <= e.size && e.first != 0 && e.nblocks == BlockCount(e.size - e.offset)
  }

  function ParseHeader(f: Compressor, sec: Sector): Result {
    if sec[..8] != MAGIC || !Sealed(f, sec) then Bad
    else if Field(sec, 8) != VERSION then Unsupported
    else if Field(sec, 12) != BLOCK || Field(sec, 16) != PER_SECTOR then Bad
    else if FileOk(FileAt(sec, 0)) && FileOk(FileAt(sec, 1)) then Ok(Header(FileAt(sec, 0), FileAt(sec, 1)))
    else Bad
  }

  lemma HeaderIsOk(f: Compressor, sec: Sector)
    requires ParseHeader(f, sec).Ok?
    ensures FileOk(ParseHeader(f, sec).header.kernel) && FileOk(ParseHeader(f, sec).header.initrd)
  {
  }

  /** Entry i of a file whose table starts at sector `first`, as hook_entry() finds it. */
  function EntryAt(file: seq<Sector>, first: nat, i: nat): Digest
    requires first + i / PER_SECTOR < |file|
  {
    file[first + i / PER_SECTOR][32 * (i % PER_SECTOR)..32 * (i % PER_SECTOR) + 32]
  }

  /** blksum_check_sector(), through the streaming hash. */
  method CheckSector(f: Compressor, sec: Sector) returns (ok: bool)
    ensures ok == Sealed(f, sec)
  {
    var c := new Context(f);
    c.Update(sec[..PREFIX]);
    var d := c.Final();
    FinishIsHash(f, sec[..PREFIX]);
    ok := d == sec[PREFIX..];
  }

  /** blksum_parse_header(). */
  method ReadHeader(f: Compressor, sec: Sector) returns (r: Result)
    ensures r == ParseHeader(f, sec)
  {
    hide Sealed, Field;
    var i := 0;
    while i < 8
      invariant 0 <= i <= 8 && sec[..i] == MAGIC[..i]
    {
      if sec[i] != MAGIC[i] {
        assert sec[..8][i] != MAGIC[i];
        return Bad;
      }
      i := i + 1;
    }
    assert MAGIC[..8] == MAGIC;
    var ok := CheckSector(f, sec);
    if !ok {
      return Bad;
    }
    if Field(sec, 8) != VERSION {
      return Unsupported;
    }
    if Field(sec, 12) != BLOCK || Field(sec, 16) != PER_SECTOR {
      return Bad;
    }
    var fs: seq<FileEntry> := [];
    i := 0;
    while i < 2
      invariant 0 <= i <= 2 && |fs| == i
      invariant forall j :: 0 <= j < i ==> fs[j] == FileAt(sec, j) && FileOk(fs[j])
    {
      var e := FileAt(sec, i);
      if e.offset > e.size || e.first == 0 {
        return Bad;
      }
      var len := e.size - e.offset;
      if e.nblocks != len / BLOCK + (if len % BLOCK != 0 then 1 else 0) {
        return Bad;
      }
      fs := fs + [e];
      i := i + 1;
    }
    r := Ok(Header(fs[0], fs[1]));
  }

  // ---- Writing: internal/payloadsum ----

  function PutLe32(w: Word): (r: seq<Byte>)
    ensures |r| == 4
  {
    LeBytes(w, 4)
  }

  lemma Le32RoundTrip(w: Word)
    ensures Le32(PutLe32(w)) == w
  {
    LeReads(w);
  }

  function PutWords(ws: seq<Word>): (r: seq<Byte>)
    ensures |r| == 4 * |ws|
  {
    if ws == [] then [] else PutLe32(ws[0]) + PutWords(ws[1..])
  }

  lemma {:induction false} PutWordsAt(ws: seq<Word>, j: nat)
    requires j < |ws|
    ensures Le32(PutWords(ws)[4 * j..4 * j + 4]) == ws[j]
  {
    var r, rest := PutWords(ws), PutWords(ws[1..]);
    if j == 0 {
      assert r[0..4] == PutLe32(ws[0]);
      Le32RoundTrip(ws[0]);
    } else {
      assert r[4 * j..4 * j + 4] == rest[4 * (j - 1)..4 * (j - 1) + 4];
      PutWordsAt(ws[1..], j - 1);
    }
  }

  function HeaderWords(h: Header): (ws: seq<Word>)
    ensures |ws| == 11
  {
    [VERSION, BLOCK, PER_SECTOR,
     h.kernel.size, h.kernel.offset, h.kernel.nblocks, h.kernel.first,
     h.initrd.size, h.initrd.offset, h.initrd.nblocks, h.initrd.first]
  }

  /** The header sector before it is sealed. */
  function PutHeader(h: Header): Sector {
    MAGIC + PutWords(HeaderWords(h)) + h.kernel.sha + h.initrd.sha + Zeros(396)
  }

  lemma HeaderField(h: Header, sec: Sector, j: nat)
    requires j < 11 && sec[..PREFIX] == PutHeader(h)[..PREFIX]
    ensures Field(sec, 8 + 4 * j) == HeaderWords(h)[j]
  {
    var ws, p, lo := HeaderWords(h), PutHeader(h), 8 + 4 * j;
    var words, rest := PutWords(ws), h.kernel.sha + h.initrd.sha + Zeros(396);
    assert p == MAGIC + words + rest;
    hide PutWords, PutHeader, HeaderWords;
    forall i | lo <= i < lo + 4 ensures sec[i] == words[i - 8] {
      assert sec[..PREFIX][i] == p[..PREFIX][i];
    }
    assert sec[lo..lo + 4] == words[4 * j..4 * j + 4];
    PutWordsAt(ws, j);
  }

  lemma HeaderDigests(h: Header, sec: Sector)
    requires sec[..PREFIX] == PutHeader(h)[..PREFIX]
    ensures sec[..8] == MAGIC && sec[52..84] == h.kernel.sha && sec[84..116] == h.initrd.sha
  {
    var p := PutHeader(h);
    assert p[..8] == MAGIC && p[52..84] == h.kernel.sha && p[84..116] == h.initrd.sha;
    assert sec[..8] == sec[..PREFIX][..8] && p[..8] == p[..PREFIX][..8];
    assert sec[52..84] == sec[..PREFIX][52..84] && p[52..84] == p[..PREFIX][52..84];
    assert sec[84..116] == sec[..PREFIX][84..116] && p[84..116] == p[..PREFIX][84..116];
  }

  /** A sealed header sector reads back as the header it was written for. */
  lemma HeaderRoundTrip(f: Compressor, h: Header, sec: Sector)
    requires FileOk(h.kernel) && FileOk(h.initrd)
    requires sec[..PREFIX] == PutHeader(h)[..PREFIX] && Sealed(f, sec)
    ensures ParseHeader(f, sec) == Ok(h)
  {
    hide PutHeader, Sealed, Field, Ascii, BlockCount;
    var ws := HeaderWords(h);
    forall j | 0 <= j < 11 ensures Field(sec, 8 + 4 * j) == ws[j] {
      HeaderField(h, sec, j);
    }
    HeaderDigests(h, sec);
    assert Field(sec, 8 + 4 * 0) == ws[0] && Field(sec, 8 + 4 * 1) == ws[1] && Field(sec, 8 + 4 * 2) == ws[2];
    assert FileAt(sec, 0) == h.kernel by {
      assert Field(sec, 8 + 4 * 3) == ws[3] && Field(sec, 8 + 4 * 4) == ws[4] && Field(sec, 8 + 4 * 5) == ws[5] && Field(sec, 8 + 4 * 6) == ws[6];
    }
    assert FileAt(sec, 1) == h.initrd by {
      assert Field(sec, 8 + 4 * 7) == ws[7] && Field(sec, 8 + 4 * 8) == ws[8] && Field(sec, 8 + 4 * 9) == ws[9] && Field(sec, 8 + 4 * 10) == ws[10];
    }
  }

  /** sha256Blocks(): the compression function over every whole block. */
  method Blocks(f: Compressor, h: State, p: seq<Byte>) returns (h': State)
    ensures h' == Drain(f, h, p).0
  {
    h' := h;
    var rest := p;
    while |rest| >= 64
      invariant Drain(f, h', rest) == Drain(f, h, p)
    {
      h', rest := f(h', rest[..64]), rest[64..];
    }
  }

  /** One more whole block on top of the first k. */
  lemma NextState(f: Compressor, p: seq<Byte>, k: nat, h: State)
    requires (k + 1) * BLOCK <= |p| < TWO32
    requires Absorb(f, INIT, p[..k * BLOCK]) == Chain(h, k * BLOCK, [])
    ensures Absorb(f, INIT, p[..(k + 1) * BLOCK]) == Chain(Drain(f, h, p[k * BLOCK..(k + 1) * BLOCK]).0, (k + 1) * BLOCK % TWO32, [])
  {
    var b := p[k * BLOCK..(k + 1) * BLOCK];
    AbsorbAppend(f, INIT, p[..k * BLOCK], b);
    assert p[..k * BLOCK] + b == p[..(k + 1) * BLOCK];
    WholeBlocks(f, Chain(h, k * BLOCK, []), b, 1);
    assert [] + b == b;
  }

  /** chainEntries(): one pass, the state carried from block to block. */
  method MakeEntries(f: Compressor, p: seq<Byte>) returns (out: seq<Digest>)
    requires |p| < TWO32
    ensures out == ChainEntries(f, p)
  {
    hide Absorb, Hash, Drain, StateBytes;
    var n := BlockCount(|p|);
    out := [];
    var h := IV;
    var i := 0;
    AbsorbNothing(f, INIT);
    assert p[..0] == [];
    while i < n
      invariant 0 <= i <= n && |out| == i
      invariant forall k :: 0 <= k < i ==> out[k] == ChainEntry(f, p, k)
      invariant i < n ==> Absorb(f, INIT, p[..i * BLOCK]) == Chain(h, i * BLOCK, [])
    {
      if i == n - 1 {
        out := out + [Hash(f, p)];
      } else {
        NextState(f, p, i, h);
        h := Blocks(f, h, p[i * BLOCK..(i + 1) * BLOCK]);
        out := out + [StateBytes(h)];
      }
      i := i + 1;
    }
  }

  function SectorsFor(entries: nat): nat {
    (entries + PER_SECTOR - 1) / PER_SECTOR
  }

  /** An entry copied to its slot. */
  function PutEntry(file: seq<Sector>, first: nat, i: nat, e: Digest): seq<Sector>
    requires first + i / PER_SECTOR < |file|
  {
    var s, at := first + i / PER_SECTOR, 32 * (i % PER_SECTOR);
    file[s := file[s][..at] + e + file[s][at + 32..]]
  }

  /** Slots do not overlap: an entry written stays the only one to change. */
  lemma PutEntryAt(file: seq<Sector>, first: nat, i: nat, e: Digest, first': nat, j: nat)
    requires first + i / PER_SECTOR < |file| && first' + j / PER_SECTOR < |file|
    requires first == first' || first + i / PER_SECTOR != first' + j / PER_SECTOR
    ensures EntryAt(PutEntry(file, first, i, e), first', j) ==
      if first == first' && i == j then e else EntryAt(file, first', j)
  {
    var s := first + i / PER_SECTOR;
    if s == first' + j / PER_SECTOR {
      SlotAt(file[s], i % PER_SECTOR, e, j % PER_SECTOR);
    }
  }

  lemma SlotAt(sec: Sector, i: nat, e: Digest, j: nat)
    requires i < PER_SECTOR && j < PER_SECTOR
    ensures (sec[..32 * i] + e + sec[32 * i + 32..])[32 * j..32 * j + 32] == if i == j then e else sec[32 * j..32 * j + 32]
  {
    var at, lo := 32 * i, 32 * j;
    var t := sec[..at] + e + sec[at + 32..];
    assert j < i ==> lo + 32 <= at;
    assert i < j ==> at + 32 <= lo;
  }

  /** One of GenerateBlkSum()'s two copy loops. */
  method FillTable(file: seq<Sector>, first: nat, entries: seq<Digest>) returns (out: seq<Sector>)
    requires first + SectorsFor(|entries|) <= |file|
    ensures |out| == |file|
    ensures forall s :: 0 <= s < |out| && !(first <= s < first + SectorsFor(|entries|)) ==> out[s] == file[s]
    ensures forall j :: 0 <= j < |entries| ==> EntryAt(out, first, j) == entries[j]
  {
    out := file;
    var i := 0;
    while i < |entries|
      invariant 0 <= i <= |entries| && |out| == |file|
      invariant forall s :: 0 <= s < |out| && !(first <= s < first + SectorsFor(|entries|)) ==> out[s] == file[s]
      invariant forall j :: 0 <= j < i ==> EntryAt(out, first, j) == entries[j]
    {
      var prior := out;
      out := PutEntry(out, first, i, entries[i]);
      forall j | 0 <= j <= i ensures EntryAt(out, first, j) == entries[j] {
        PutEntryAt(prior, first, i, entries[i], first, j);
      }
      i := i + 1;
    }
  }

  /** GenerateBlkSum()'s last loop: every sector gets its own hash. */
  method SealAll(f: Compressor, file: seq<Sector>) returns (out: seq<Sector>)
    ensures |out| == |file|
    ensures forall s :: 0 <= s < |out| ==> Sealed(f, out[s]) && out[s][..PREFIX] == file[s][..PREFIX]
  {
    out := file;
    var s := 0;
    while s < |file|
      invariant 0 <= s <= |file| == |out|
      invariant forall t :: 0 <= t < s ==> Sealed(f, out[t]) && out[t][..PREFIX] == file[t][..PREFIX]
      invariant forall t :: s <= t < |out| ==> out[t] == file[t]
    {
      var sec := file[s][..PREFIX] + Hash(f, file[s][..PREFIX]);
      assert sec[..PREFIX] == file[s][..PREFIX] && sec[PREFIX..] == Hash(f, file[s][..PREFIX]);
      out := out[s := sec];
      s := s + 1;
    }
  }

  lemma SealedEntry(file: seq<Sector>, out: seq<Sector>, first: nat, j: nat)
    requires |out| == |file| && first + j / PER_SECTOR < |file|
    requires forall s :: 0 <= s < |out| ==> out[s][..PREFIX] == file[s][..PREFIX]
    ensures EntryAt(out, first, j) == EntryAt(file, first, j)
  {
    var s := first + j / PER_SECTOR;
    SamePrefix(out[s], file[s], 32 * (j % PER_SECTOR));
  }

  lemma SamePrefix(a: Sector, b: Sector, at: nat)
    requires a[..PREFIX] == b[..PREFIX] && at + 32 <= PREFIX
    ensures a[at..at + 32] == b[at..at + 32]
  {
    assert a[at..at + 32] == a[..PREFIX][at..at + 32];
    assert b[at..at + 32] == b[..PREFIX][at..at + 32];
  }

  /** The kernel part stage2 loads starts after the real-mode part; None for no bzImage. */
  function KernelRamOffset(kernel: seq<Byte>): Option<nat> {
    if |kernel| < 0x206 || kernel[0x1fe..0x200] != [0x55, 0xaa] || kernel[0x202..0x206] != Ascii("HdrS") then None
    else
      var sects: int := if kernel[0x1f1] == 0 then 4 else kernel[0x1f1];
      var off := (sects + 1) * 512;
      if off >= |kernel| then None else Some(off)
  }

  function HeaderOf(f: Compressor, kernel: seq<Byte>, offset: nat, initrd: seq<Byte>): Header
    requires offset <= |kernel| < TWO32 && |initrd| < TWO32
  {
    var nk, ni := BlockCount(|kernel| - offset), BlockCount(|initrd|);
    Header(FileEntry(|kernel|, offset, nk, 1, Hash(f, kernel[offset..])),
      FileEntry(|initrd|, 0, ni, 1 + SectorsFor(nk), Hash(f, initrd)))
  }

  /** The table of a file, as the loader finds it through the header. */
  ghost predicate Holds(file: seq<Sector>, e: FileEntry, table: seq<Digest>) {
    && e.nblocks == |table|
    && e.first + SectorsFor(e.nblocks) <= |file|
    && forall i :: 0 <= i < |table| ==> EntryAt(file, e.first, i) == table[i]
  }

  /**
   * Whatever kernel and initrd are installed, the loader reads the written
   * file back as the header that describes them, every sector passes its own
   * hash, and every entry is in its slot.
   */
  method GenerateBlkSum(f: Compressor, kernel: seq<Byte>, initrd: seq<Byte>) returns (r: Option<seq<Sector>>)
    ensures r.None? <==> KernelRamOffset(kernel).None? || |kernel| >= TWO32 || |initrd| >= TWO32
    ensures r.Some? ==>
      var offset, file := KernelRamOffset(kernel).value, r.value;
      var h := HeaderOf(f, kernel, offset, initrd);
      && 0 < |file| && (forall s :: 0 <= s < |file| ==> Sealed(f, file[s]))
      && ParseHeader(f, file[0]) == Ok(h)
      && Holds(file, h.kernel, ChainEntries(f, kernel[offset..]))
      && Holds(file, h.initrd, ChainEntries(f, initrd))
  {
    var koff := KernelRamOffset(kernel);
    if koff.None? {
      return None;
    }
    if |kernel| > 0xffff_ffff || |initrd| > 0xffff_ffff {
      return None;
    }
    var ke := MakeEntries(f, kernel[koff.value..]);
    var ie := MakeEntries(f, initrd);
    var h := HeaderOf(f, kernel, koff.value, initrd);
    var file := WriteFile(f, h, ke, ie);
    r := Some(file);
  }

  method WriteFile(f: Compressor, h: Header, ke: seq<Digest>, ie: seq<Digest>) returns (file: seq<Sector>)
    requires FileOk(h.kernel) && FileOk(h.initrd)
    requires h.kernel.nblocks == |ke| && h.kernel.first == 1
    requires h.initrd.nblocks == |ie| && h.initrd.first == 1 + SectorsFor(|ke|)
    ensures 0 < |file| && (forall s :: 0 <= s < |file| ==> Sealed(f, file[s]))
    ensures ParseHeader(f, file[0]) == Ok(h)
    ensures Holds(file, h.kernel, ke) && Holds(file, h.initrd, ie)
  {
    hide Sealed, PutHeader, FileOk, ParseHeader;
    var ks, n := SectorsFor(|ke|), 1 + SectorsFor(|ke|) + SectorsFor(|ie|);
    var out: seq<Sector> := seq(n, _ => Zeros(512));
    out := out[0 := PutHeader(h)];
    var out1 := FillTable(out, 1, ke);
    var out2 := FillTable(out1, 1 + ks, ie);
    file := SealAll(f, out2);
    HeaderRoundTrip(f, h, file[0]);
    forall i | 0 <= i < |ke| ensures EntryAt(file, 1, i) == ke[i] {
      SealedEntry(out2, file, 1, i);
      assert EntryAt(out1, 1, i) == ke[i];
    }
    forall i | 0 <= i < |ie| ensures EntryAt(file, 1 + ks, i) == ie[i] {
      SealedEntry(out2, file, 1 + ks, i);
      assert EntryAt(out2, 1 + ks, i) == ie[i];
    }
  }
}
