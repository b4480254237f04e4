/**
 * The FAT32 reader of bios/fat.c: a mounted volume, the file that a cluster
 * chain stands for, and the reader that serves byte ranges of it in batches
 * through two cached FAT sectors.
 */
module Fat {
  import opened Bytes
  import opened ChainWalk

  const SECTOR := 512
  const MASK := 0x1000_0000

  /** What a drive holds, by LBA. */
  type Disk = nat -> Sector

  datatype Volume = Volume(partitionLba: nat, sectorsPerCluster: nat, numFats: nat, sectorsPerFat: nat,
                           rootCluster: nat, totalClusters: nat, fatStart: nat, dataStart: nat)

  datatype File = File(firstCluster: nat, size: nat)

  /** What a successful mount guarantees. */
  predicate Mounted(v: Volume) {
    && 1 <= v.sectorsPerCluster <= 128
    && v.partitionLba < v.fatStart && v.fatStart + v.sectorsPerFat <= v.dataStart
    && 4 * (v.totalClusters + 2) <= SECTOR * v.sectorsPerFat
    && v.totalClusters + 2 < TWO32
  }

  /** a * b, spelled so that proofs meet the product only where they need it. */
  function Times(a: nat, b: nat): (r: nat)
  {
    if a == 0 then 0 else Times(a - 1, b) + b
  }

  lemma {:induction false} TimesIsProduct(a: nat, b: nat)
    ensures Times(a, b) == a * b
  {
    if a == 0 {
    } else {
      TimesIsProduct(a - 1, b);
    }
  }

  lemma {:induction false} TimesSum(a: nat, a': nat, b: nat)
    ensures Times(a + a', b) == Times(a, b) + Times(a', b)
  {
    if a' == 0 {
    } else {
      TimesSum(a, a' - 1, b);
    }
  }

  lemma {:induction false} TimesScale(a: nat, b: nat)
    ensures Times(a, SECTOR * b) == SECTOR * Times(a, b)
  {
    if a == 0 {
    } else {
      TimesScale(a - 1, b);
    }
  }

  /** One past the last sector of the data region. */
  function VolumeEnd(v: Volume): nat {
    v.dataStart + Times(v.totalClusters, v.sectorsPerCluster)
  }

  function ClusterLba(v: Volume, c: nat): nat
    requires c >= 2
  {
    v.dataStart + Times(c - 2, v.sectorsPerCluster)
  }

  // ---- The file a chain stands for ----

  /** Where the reader looks for cluster c's entry, in 32-bit arithmetic. */
  function EntryOffset(c: nat): nat {
    c * 4 % TWO32
  }

  /** No wrap-around exactly below cluster 2^30. */
  lemma EntryOffsetExact(c: nat)
    ensures EntryOffset(c) == 4 * c <==> c < 0x4000_0000
  {
  }

  /** The entry of a cluster lies in the first FAT, wrapped or not. */
  lemma EntryInFat(v: Volume, c: nat)
    requires Mounted(v) && c < v.totalClusters + 2
    ensures EntryOffset(c) / SECTOR < v.sectorsPerFat
  {
    assert EntryOffset(c) <= 4 * c;
  }

  /** The entry the reader takes for a cluster's, its low 28 bits. */
  function Entry(d: Disk, v: Volume, c: nat): nat {
    var o := EntryOffset(c);
    EntryAt(d(v.fatStart + o / SECTOR), o % SECTOR)
  }

  function EntryAt(s: Sector, o: nat): nat {
    if o + 4 <= SECTOR then Le32(s[o..o + 4]) % MASK else 0
  }

  /** An entry written lowest byte first, with anything in its four spare bits, reads back. */
  lemma EntryWritten(s: Sector, o: nat, n: nat, spare: nat)
    requires o + 4 <= 512 && n < 0x1000_0000 && spare < 16 && s[o..o + 4] == LeBytes(n + 0x1000_0000 * spare, 4)
    ensures EntryAt(s, o) == n
  {
    LeReads(n + 0x1000_0000 * spare);
  }

  /** The FAT as a table to follow. */
  function Follow(d: Disk, v: Volume): (next: Table)
    ensures IsTable(next, d, v)
  {
    (c: nat) => Entry(d, v, c)
  }

  /** The entry that belongs to a cluster. */
  function OwnEntry(d: Disk, v: Volume, c: nat): nat {
    EntryAt(d(v.fatStart + 4 * c / SECTOR), 4 * c % SECTOR)
  }

  function OwnTable(d: Disk, v: Volume): Table {
    (c: nat) => OwnEntry(d, v, c)
  }

  /** A chain that starts below cluster 2^30 is followed by the entries that belong to its clusters. */
  lemma {:induction false} TrueChain(d: Disk, v: Volume, first: nat, n: nat)
    requires first < 0x4000_0000
    ensures Nth(Follow(d, v), first, n) == Nth(OwnTable(d, v), first, n) < 0x4000_0000
  {
    if n == 0 {
    } else {
      hide Follow, OwnTable;
      TrueChain(d, v, first, n - 1);
      OwnStep(d, v, Nth(Follow(d, v), first, n - 1));
    }
  }

  lemma OwnStep(d: Disk, v: Volume, c: nat)
    requires c < 0x4000_0000
    ensures Follow(d, v)(c) == OwnTable(d, v)(c) < 0x4000_0000
  {
    EntryOffsetExact(c);
    hide EntryOffset;
    assert Entry(d, v, c) == OwnEntry(d, v, c);
  }

  /** A disk whose FAT has one sector unlike the others. */
  function OddSector(lba: nat): Disk {
    (l: nat) => Filled(l == lba)
  }

  function Filled(zero: bool): Sector {
    if zero then Zeros(512) else Ones()
  }

  function Ones(): (s: Sector)
    ensures forall i :: 0 <= i < 512 ==> s[i] == 1
  {
    seq(512, _ => 1)
  }

  /** On any other there is a disk on which it is not. */
  lemma TrueChainIff(v: Volume, first: nat)
    requires first < TWO32
    ensures (forall d: Disk :: Nth(Follow(d, v), first, 1) == Nth(OwnTable(d, v), first, 1)) <==> first < 0x4000_0000
  {
    if first < 0x4000_0000 {
      forall d: Disk ensures Nth(Follow(d, v), first, 1) == Nth(OwnTable(d, v), first, 1) {
        TrueChain(d, v, first, 1);
      }
    } else {
      var o := EntryOffset(first);
      var d := OddSector(v.fatStart + o / SECTOR);
      WrappedOffset(first);
      OnesEntry(o % SECTOR);
      OnesEntry(4 * first % SECTOR);
      OneStep(Follow(d, v), first);
      OneStep(OwnTable(d, v), first);
      var x, y := v.fatStart + o / SECTOR, v.fatStart + 4 * first / SECTOR;
      assert x != y && d(x) == Filled(true) && d(y) == Filled(y == x);
      assert Follow(d, v)(first) == Entry(d, v, first) == 0;
      assert OwnTable(d, v)(first) == OwnEntry(d, v, first) != 0;
    }
  }

  lemma OneStep(next: Table, first: nat)
    ensures Nth(next, first, 1) == next(first)
  {
    assert Nth(next, first, 0) == first;
  }

  lemma WrappedOffset(c: nat)
    requires 0x4000_0000 <= c < TWO32
    ensures EntryOffset(c) / SECTOR < 4 * c / SECTOR && EntryOffset(c) % SECTOR % 4 == 0 == 4 * c % SECTOR % 4
  {
    var q := c / 0x4000_0000;
    var r := c - 0x4000_0000 * q;
    OffsetIs(q, r);
    FoursInSector(r);
    FoursInSector(c);
  }

  lemma OffsetIs(q: nat, r: nat)
    requires q > 0 && r < 0x4000_0000
    ensures (0x4000_0000 * q + r) * 4 % TWO32 == 4 * r && 4 * r / SECTOR < 4 * (0x4000_0000 * q + r) / SECTOR
  {
    assert (0x4000_0000 * q + r) * 4 == TWO32 * q + 4 * r;
  }

  lemma FoursInSector(c: nat)
    ensures 4 * c % SECTOR % 4 == 0
  {
    var q := 4 * c / SECTOR;
    Fours(4 * c % SECTOR, c - 128 * q);
  }

  lemma Fours(o: int, m: int)
    requires o == 4 * m
    ensures o % 4 == 0
  {
  }

  lemma OnesEntry(o: nat)
    requires o < SECTOR && o % 4 == 0
    ensures EntryAt(Ones(), o) != 0 == EntryAt(Zeros(512), o)
  {
  }

  ghost predicate IsTable(next: Table, d: Disk, v: Volume) {
    forall c: nat {:trigger Entry(d, v, c)} :: next(c) == Entry(d, v, c)
  }

  /** The LBA of sector g of the file that starts at cluster `first`. */
  function SectorLba(next: Table, v: Volume, first: nat, g: nat): nat
    requires v.sectorsPerCluster > 0
  {
    var c := Nth(next, first, g / v.sectorsPerCluster);
    if c < 2 then 0 else ClusterLba(v, c) + g % v.sectorsPerCluster
  }

  /** Byte i of the file. */
  function FileByte(d: Disk, next: Table, v: Volume, first: nat, i: nat): Byte
    requires v.sectorsPerCluster > 0
  {
    d(SectorLba(next, v, first, i / SECTOR))[i % SECTOR]
  }

  /** A file's contents, by byte. */
  type Content = nat -> Byte

  /** `content` is the file that starts at cluster `first`. */
  ghost predicate IsContent(content: Content, d: Disk, next: Table, v: Volume, first: nat) {
    v.sectorsPerCluster > 0 && forall i: nat {:trigger FileByte(d, next, v, first, i)} :: content(i) == FileByte(d, next, v, first, i)
  }

  function ContentOf(d: Disk, next: Table, v: Volume, first: nat): (content: Content)
    requires v.sectorsPerCluster > 0
    ensures IsContent(content, d, next, v, first)
  {
    (i: nat) => FileByte(d, next, v, first, i)
  }

  /** The n bytes from `offset` on. */
  function Slice(content: Content, offset: nat, n: nat): (r: seq<Byte>)
    ensures |r| == n
  {
    if n == 0 then [] else Slice(content, offset, n - 1) + [content(offset + n - 1)]
  }

  lemma {:induction false} SliceAt(content: Content, offset: nat, n: nat, i: nat)
    requires i < n
    ensures Slice(content, offset, n)[i] == content(offset + i)
  {
    if i == n - 1 {
    } else {
      SliceAt(content, offset, n - 1, i);
    }
  }

  lemma {:induction false} SliceAppend(content: Content, offset: nat, m: nat, n: nat)
    ensures Slice(content, offset, m) + Slice(content, offset + m, n) == Slice(content, offset, m + n)
  {
    if n > 0 {
      SliceAppend(content, offset, m, n - 1);
    } else {
      assert Slice(content, offset, m) + [] == Slice(content, offset, m);
    }
  }

  // ---- A run of clusters that follow each other ----

  lemma DivPlus(p: nat, t: nat, b: nat)
    requires b > 0
    ensures (p * b + t) / b == p + t / b && (p * b + t) % b == t % b
  {
    assert t == (t / b) * b + t % b;
    assert p * b + t == (p + t / b) * b + t % b;
    DivUnique(p * b + t, b, p + t / b, t % b);
  }

  lemma DivBound(t: nat, j: nat, b: nat)
    requires b > 0 && t < (j + 1) * b
    ensures t / b <= j
  {
    assert (t / b - j) * b < b;
    AtLeastOnce(t / b - j, b);
  }

  /** Clusters pos .. pos + j of the chain are c .. c + j. */
  ghost predicate Contiguous(next: Table, total: nat, first: nat, pos: nat, c: nat, j: nat) {
    && c >= 2 && c + j < total + 2
    && forall i :: pos <= i <= pos + j ==> Nth(next, first, i) == c + i - pos
  }

  lemma ExtendRun(next: Table, total: nat, first: nat, pos: nat, c: nat, j: nat)
    requires Contiguous(next, total, first, pos, c, j) && next(c + j) == c + j + 1 && InRange(total, c + j + 1)
    ensures Contiguous(next, total, first, pos, c, j + 1)
  {
    assert Nth(next, first, pos + j) == c + j;
  }

  lemma HopOn(next: Table, total: nat, first: nat, pos: nat, w: Walk, w': Walk)
    requires Advance(next, total, w) == Moved(w') && Nth(next, first, pos) == w.cluster
    ensures Nth(next, first, pos + 1) == w'.cluster && InRange(total, w'.cluster)
  {
  }

  /** The whole sectors that hold `bytes` bytes from `soff` on. */
  lemma CoverSectors(soff: nat, bytes: nat, run: nat)
    requires 0 < bytes && soff + bytes <= run * SECTOR
    ensures var n := (soff + bytes + SECTOR - 1) / SECTOR;
            0 < n <= run && soff + bytes <= n * SECTOR && (soff + bytes == run * SECTOR ==> n == run)
  {
  }

  /** In such a run the file's sectors lie one after the other on the disk. */
  lemma RunSector(next: Table, v: Volume, first: nat, pos: nat, c: nat, j: nat, t: nat)
    requires v.sectorsPerCluster > 0 && Contiguous(next, v.totalClusters, first, pos, c, j) && t < Times(j + 1, v.sectorsPerCluster)
    ensures SectorLba(next, v, first, Times(pos, v.sectorsPerCluster) + t) == ClusterLba(v, c) + t
  {
    hide Times, Nth;
    var b := v.sectorsPerCluster;
    var q, r := RunPlace(pos, t, j, b);
    assert Nth(next, first, pos + q) == c + q;
    TimesSum(c - 2, q, b);
  }

  /** Which cluster of the run, and where in it. */
  lemma RunPlace(pos: nat, t: nat, j: nat, b: nat) returns (q: nat, r: nat)
    requires b > 0 && t < Times(j + 1, b)
    ensures q <= j && t == Times(q, b) + r
    ensures (Times(pos, b) + t) / b == pos + q && (Times(pos, b) + t) % b == r
  {
    hide Times;
    q, r := t / b, t % b;
    TimesIsProduct(pos, b);
    TimesIsProduct(j + 1, b);
    TimesIsProduct(q, b);
    DivPlus(pos, t, b);
    DivBound(t, j, b);
  }

  /** n sectors from `lba` on. */
  function Sectors(d: Disk, lba: nat, n: nat): (r: seq<Byte>)
    ensures |r| == n * SECTOR
  {
    if n == 0 then [] else Sectors(d, lba, n - 1) + d(lba + n - 1)
  }

  lemma {:induction false} SectorsAt(d: Disk, lba: nat, n: nat, i: nat)
    requires i < n * SECTOR
    ensures Sectors(d, lba, n)[i] == d(lba + i / SECTOR)[i % SECTOR]
  {
    if i < (n - 1) * SECTOR {
      SectorsAt(d, lba, n - 1, i);
    } else {
      assert i / SECTOR == n - 1;
    }
  }

  /** Byte `i` of a sector run is the file's byte at the run's place. */
  lemma RunByte(d: Disk, next: Table, v: Volume, first: nat, pos: nat, c: nat, j: nat, sic: nat, n: nat, i: nat)
    requires v.sectorsPerCluster > 0 && Contiguous(next, v.totalClusters, first, pos, c, j)
    requires i < n * SECTOR && sic + n <= Times(j + 1, v.sectorsPerCluster)
    ensures Sectors(d, ClusterLba(v, c) + sic, n)[i] == FileByte(d, next, v, first, (Times(pos, v.sectorsPerCluster) + sic) * SECTOR + i)
  {
    var g := Times(pos, v.sectorsPerCluster) + sic;
    var s := i / SECTOR;
    SectorsAt(d, ClusterLba(v, c) + sic, n, i);
    RunSector(next, v, first, pos, c, j, sic + s);
    assert (g * SECTOR + i) / SECTOR == g + s && (g * SECTOR + i) % SECTOR == i % SECTOR;
  }

  /** What one batched read leaves in the buffer is what reading the file byte by byte would. */
  lemma RunBytes(content: Content, d: Disk, next: Table, v: Volume, first: nat, pos: nat, c: nat, j: nat, sic: nat, soff: nat,
                 n: nat, bytes: nat, at: nat, buf: seq<Byte>)
    requires IsContent(content, d, next, v, first) && Contiguous(next, v.totalClusters, first, pos, c, j)
    requires soff + bytes <= n * SECTOR <= |buf| && sic + n <= Times(j + 1, v.sectorsPerCluster)
    requires at == (Times(pos, v.sectorsPerCluster) + sic) * SECTOR + soff
    requires buf[..n * SECTOR] == Sectors(d, ClusterLba(v, c) + sic, n)
    ensures buf[soff..soff + bytes] == Slice(content, at, bytes)
  {
    var run := Sectors(d, ClusterLba(v, c) + sic, n);
    forall i | 0 <= i < bytes
      ensures buf[soff + i] == Slice(content, at, bytes)[i]
    {
      assert buf[soff + i] == run[soff + i];
      RunByte(d, next, v, first, pos, c, j, sic, n, soff + i);
      SliceAt(content, at, bytes, i);
    }
  }

  /** Division, as its quotient and remainder. */
  method Split(a: nat, b: nat) returns (q: nat, r: nat)
    requires b > 0
    ensures a == Times(q, b) + r && r < b
  {
    q, r := a / b, a % b;
    TimesIsProduct(q, b);
  }

  // ---- Directories ----

  const ENTRY := 32

  /** The volume-label attribute, bit 3. */
  predicate IsLabel(attr: Byte) {
    attr / 8 % 2 == 1
  }

  /** The directory attribute, bit 4. */
  predicate IsDirectory(attr: Byte) {
    attr / 16 % 2 == 1
  }

  /** A directory entry that a search for `name` passes over: deleted, a long-name part, a label, or another name. */
  predicate PassedOver(e: seq<Byte>, name: seq<Byte>)
    requires |e| == ENTRY
  {
    e[0] == 0xE5 || e[11] == 0x0F || IsLabel(e[11]) || e[..11] != name
  }

  datatype Found = Found(cluster: nat, size: nat)

  function EntryFile(e: seq<Byte>): Found
    requires |e| == ENTRY
  {
    Found(Le32([e[26], e[27], e[20], e[21]]), Le32(e[28..32]))
  }

  /** A directory entry as it is written: name, attributes, and the cluster in two halves around the times. */
  function Dirent(name: seq<Byte>, attr: Byte, times: seq<Byte>, cluster: Word, written: seq<Byte>, size: Word): (e: seq<Byte>)
    requires |name| == 11 && |times| == 8 && |written| == 4
    ensures |e| == ENTRY
  {
    name + [attr] + times + LeBytes(cluster / 0x1_0000, 2) + written + LeBytes(cluster % 0x1_0000, 2) + LeBytes(size, 4)
  }

  function Attributes(readOnly: bool, hidden: bool, system: bool, isLabel: bool, directory: bool, archive: bool): Byte {
    (if readOnly then 1 else 0) + (if hidden then 2 else 0) + (if system then 4 else 0)
    + (if isLabel then 8 else 0) + (if directory then 16 else 0) + (if archive then 32 else 0)
  }

  /** What is written in an entry is what a search finds in it. */
  lemma DirentReads(name: seq<Byte>, readOnly: bool, hidden: bool, system: bool, isLabel: bool, directory: bool, archive: bool,
                    times: seq<Byte>, cluster: Word, written: seq<Byte>, size: Word, wanted: seq<Byte>)
    requires |name| == 11 && |times| == 8 && |written| == 4
    ensures var e := Dirent(name, Attributes(readOnly, hidden, system, isLabel, directory, archive), times, cluster, written, size);
      && EntryFile(e) == Found(cluster, size) && (IsDirectory(e[11]) <==> directory)
      && (PassedOver(e, wanted) <==> name[0] == 0xE5 || isLabel || name != wanted)
  {
    var e := Dirent(name, Attributes(readOnly, hidden, system, isLabel, directory, archive), times, cluster, written, size);
    assert e[..11] == name && e[11] == Attributes(readOnly, hidden, system, isLabel, directory, archive);
    DirentFile(name, e[11], times, cluster, written, size);
  }

  lemma DirentFile(name: seq<Byte>, attr: Byte, times: seq<Byte>, cluster: Word, written: seq<Byte>, size: Word)
    requires |name| == 11 && |times| == 8 && |written| == 4
    ensures EntryFile(Dirent(name, attr, times, cluster, written, size)) == Found(cluster, size)
  {
    hide LeBytes, Le32;
    var e := Dirent(name, attr, times, cluster, written, size);
    assert e[20..22] == LeBytes(cluster / 0x1_0000, 2) && e[26..28] == LeBytes(cluster % 0x1_0000, 2);
    assert e[28..32] == LeBytes(size, 4);
    Halves(cluster);
    assert [e[26], e[27], e[20], e[21]] == e[26..28] + e[20..22];
    LeReads(cluster);
    LeReads(size);
  }

  lemma Halves(w: Word)
    ensures LeBytes(w, 4) == LeBytes(w % 0x1_0000, 2) + LeBytes(w / 0x1_0000, 2)
  {
    var hi, lo := w / 0x1_0000, w % 0x1_0000;
    LowerBytes(hi, lo);
    UpperBytes(w, hi);
    LeBytesAre(w);
    LeBytesAre(lo);
    LeBytesAre(hi);
  }

  lemma LowerBytes(hi: nat, lo: nat)
    requires lo < 0x1_0000
    ensures (0x1_0000 * hi + lo) % 0x100 == lo % 0x100 && (0x1_0000 * hi + lo) / 0x100 % 0x100 == lo / 0x100 % 0x100
  {
    var b, a := lo / 0x100, lo % 0x100;
    assert 0x1_0000 * hi + lo == 0x100 * (0x100 * hi + b) + a;
    assert (0x1_0000 * hi + lo) / 0x100 == 0x100 * hi + b;
  }

  lemma UpperBytes(w: nat, hi: nat)
    requires hi == w / 0x1_0000
    ensures w / 0x100_0000 == hi / 0x100
  {
  }

  /** Entry j of a directory, which is a file of 32-byte entries. */
  function DirEntry(content: Content, j: nat): (e: seq<Byte>)
    ensures |e| == ENTRY
  {
    Slice(content, ENTRY * j, ENTRY)
  }

  /** Entries from .. to - 1 are in use and passed over. */
  ghost predicate NoneOf(content: Content, name: seq<Byte>, from: nat, to: nat) {
    forall j :: from <= j < to ==> DirEntry(content, j)[0] != 0 && PassedOver(DirEntry(content, j), name)
  }

  /** Entry i is where a search for `name` in this directory stops, and it has that name. */
  ghost predicate FirstMatch(content: Content, name: seq<Byte>, i: nat) {
    NoneOf(content, name, 0, i) && DirEntry(content, i)[0] != 0 && !PassedOver(DirEntry(content, i), name)
  }

  datatype Scan = NotHere | Stop | Match(e: seq<Byte>)

  /** Looks through the 16 entries of sector `from` of the directory. */
  method ScanSector(ghost content: Content, data: Sector, ghost from: nat, name: seq<Byte>) returns (r: Scan, ghost at: nat)
    requires data == Slice(content, SECTOR * from, SECTOR)
    ensures r.Match? ==> 16 * from <= at && r.e == DirEntry(content, at) && r.e[0] != 0 && !PassedOver(r.e, name)
    ensures r.Match? ==> NoneOf(content, name, 16 * from, at)
    ensures r.NotHere? ==> NoneOf(content, name, 16 * from, 16 * from + 16)
    ensures r.Stop? ==> 16 * from <= at && NoneOf(content, name, 16 * from, at) && DirEntry(content, at)[0] == 0
  {
    var i := 0;
    at := 16 * from;
    while i < 16
      invariant 0 <= i <= 16 && at == 16 * from + i
      invariant NoneOf(content, name, 16 * from, at)
    {
      var e := data[ENTRY * i..ENTRY * i + ENTRY];
      SubSlice(content, SECTOR * from, SECTOR, ENTRY * i, ENTRY);
      assert e == DirEntry(content, at);
      if e[0] == 0 {
        return Stop, at;
      }
      if !PassedOver(e, name) {
        return Match(e), at;
      }
      i, at := i + 1, at + 1;
    }
    r := NotHere;
  }

  lemma SubSlice(content: Content, offset: nat, n: nat, i: nat, m: nat)
    requires i + m <= n
    ensures Slice(content, offset, n)[i..i + m] == Slice(content, offset + i, m)
  {
    var a, b := Slice(content, offset, n)[i..i + m], Slice(content, offset + i, m);
    forall k | 0 <= k < m
      ensures a[k] == b[k]
    {
      SliceAt(content, offset, n, i + k);
      SliceAt(content, offset + i, m, k);
    }
  }
}
