/**
 * The reader of bios/fat.c over a drive that may refuse any read but is
 * honest when it does not: two cached FAT sectors, batched data reads, and
 * the progress callback that runs reads of its own.
 */
module FatReader {
  import opened Bytes
  import opened ChainWalk
  import opened Fat
  import opened Wrappers
  import FatMount
  import M = Manifest

  const ATTEMPTS := 10
  /** The low buffers: a sector of the block table, then the header buffer. */
  const LOW := 1024

  datatype Slot = Slot(valid: bool, lba: nat, data: Sector)

  datatype Error = NoError | BadRange | BadStart | ChainEnded | ChainLoops | ChainTooLong | FatRead | DataRead

  /** The walk, the sector in the cluster and the byte in the sector. */
  datatype Cursor = Cursor(w: Walk, sic: nat, soff: nat)

  /** The cursor is at byte `at` of the file, in its cluster number pos. */
  ghost predicate At(table: Table, v: Volume, first: nat, cur: Cursor, pos: nat, at: nat) {
    && InRange(v.totalClusters, cur.w.cluster) && Nth(table, first, pos) == cur.w.cluster
    && Hops(table, v.totalClusters, first, pos) == Moved(cur.w)
    && cur.sic < v.sectorsPerCluster && cur.soff < SECTOR
    && at == (Times(pos, v.sectorsPerCluster) + cur.sic) * SECTOR + cur.soff
  }

  /** The error code tells how a walk stopped. */
  predicate Told(e: Error, s: Step) {
    match s
    case ChainEnd => e == ChainEnded
    case ChainLong => e == ChainTooLong
    case ChainCycle => e == ChainLoops
    case Moved(_) => false
  }

  lemma NotMoved(e: Error, s: Step)
    requires Told(e, s)
    ensures !s.Moved?
  {
  }

  /** Which cluster of a file byte `at` is in. */
  ghost predicate InCluster(v: Volume, pos: nat, at: nat) {
    Times(pos, v.sectorsPerCluster) * SECTOR <= at < Times(pos + 1, v.sectorsPerCluster) * SECTOR
  }

  function ClusterOf(v: Volume, at: nat): nat
    requires v.sectorsPerCluster > 0
  {
    at / (SECTOR * v.sectorsPerCluster)
  }

  lemma TimesOne(b: nat)
    ensures Times(1, b) == b
  {
    assert Times(0, b) == 0;
  }

  lemma SectorOf(q: nat, r: nat)
    requires r < SECTOR
    ensures (q * SECTOR + r) / SECTOR == q
  {
  }

  lemma {:induction false} TimesMonotone(a: nat, b: nat, c: nat)
    requires a <= b
    ensures Times(a, c) <= Times(b, c)
  {
    if a == b {
    } else {
      TimesMonotone(a, b - 1, c);
    }
  }

  /** Later bytes are in later clusters. */
  lemma ClusterOrder(v: Volume, p: nat, q: nat, at: nat, end: nat)
    requires InCluster(v, p, at) && InCluster(v, q, end) && at <= end
    ensures p <= q
  {
    if q < p {
      TimesMonotone(q + 1, p, v.sectorsPerCluster);
    }
  }

  lemma ClusterOfIsIn(v: Volume, at: nat)
    requires v.sectorsPerCluster > 0
    ensures InCluster(v, ClusterOf(v, at), at)
  {
    var b := SECTOR * v.sectorsPerCluster;
    var q := at / b;
    TimesIsProduct(q, b);
    TimesScale(q, v.sectorsPerCluster);
    TimesScale(q + 1, v.sectorsPerCluster);
  }

  /** Why a search of a directory finds nothing: no directory, its end mark first, the wrong kind, or no such name in the whole chain. */
  ghost predicate Missing(content: Content, table: Table, v: Volume, dir: nat, name: seq<Byte>, wantDir: bool, at: nat) {
    || !InRange(v.totalClusters, dir)
    || (NoneOf(content, name, 0, at) && DirEntry(content, at)[0] == 0)
    || (FirstMatch(content, name, at) && wantDir != IsDirectory(DirEntry(content, at)[11]))
    || (NoneOf(content, name, 0, at) && exists n ::
         at == 16 * Times(n, v.sectorsPerCluster) && !Hops(table, v.totalClusters, dir, n).Moved?)
  }

  lemma HopCounts(table: Table, total: nat, w: Walk, w': Walk)
    requires Advance(table, total, w) == Moved(w')
    ensures w'.hops == w.hops + 1 <= total + 1
  {
  }

  /** The bytes of a file below `end` cannot all be read, whatever the drive does: too many, no start, or the walk stops. */
  ghost predicate Blocked(table: Table, v: Volume, file: File, end: nat) {
    || end > file.size
    || !InRange(v.totalClusters, file.firstCluster)
    || (0 < end && v.sectorsPerCluster > 0 && !Hops(table, v.totalClusters, file.firstCluster, ClusterOf(v, end - 1)).Moved?)
  }

  /** A chain that ends and is long enough stands in no request's way. */
  lemma SoundChainServes(table: Table, v: Volume, file: File, end: nat, len: nat)
    requires 0 < end <= file.size && v.sectorsPerCluster > 0
    requires Ends(table, v.totalClusters, file.firstCluster, len) && ClusterOf(v, end - 1) < len
    ensures !Blocked(table, v, file, end)
  {
    AcyclicWalk(table, v.totalClusters, file.firstCluster, len, ClusterOf(v, end - 1));
    assert InRange(v.totalClusters, Nth(table, file.firstCluster, 0));
  }

  /** How many of the first n accesses fail. */
  function Refused(refuses: nat -> bool, n: nat): nat {
    if n == 0 then 0 else Refused(refuses, n - 1) + if refuses(n - 1) then 1 else 0
  }

  /** The drives refuse nothing. */
  ghost predicate Willing(refuses: nat -> bool) {
    forall n :: !refuses(n)
  }

  lemma {:induction false} NothingRefused(refuses: nat -> bool, n: nat)
    requires Willing(refuses)
    ensures Refused(refuses, n) == 0
  {
    if n == 0 {
    } else {
      NothingRefused(refuses, n - 1);
    }
  }

  class Reader {
    const drives: nat -> Disk
    const partition: nat -> Option<(nat, nat)> // the ESP of a drive, as its GPT or MBR tells it
    const disks: nat                           // how many the BIOS counts
    const batch: nat
    var drive: nat
    var slot1: Slot         // the hare's and the probes'
    var slot2: Slot         // the tortoise's
    var ioBuf: seq<Byte>
    var ram: seq<Byte>
    var error: Error
    ghost var contained: bool  // no read has left its volume so far
    const refuses: nat -> bool // whether disk access n fails
    var accesses: nat

    constructor (drives: nat -> Disk, refuses: nat -> bool, partition: nat -> Option<(nat, nat)>, disks: nat, batch: nat, drive: nat, ram: seq<Byte>)
      requires batch >= 1
      ensures Valid() && this.drives == drives && this.refuses == refuses && this.partition == partition && this.disks == disks
      ensures this.batch == batch && this.drive == drive && this.ram == ram && contained && accesses == 0
    {
      this.drives, this.refuses, this.partition, this.disks, accesses := drives, refuses, partition, disks, 0;
      this.batch, this.drive, this.ram, contained := batch, drive, ram, true;
      slot1, slot2, ioBuf, error := Slot(false, 0, Zeros(512)), Slot(false, 0, Zeros(512)), Zeros(batch * SECTOR), NoError;
    }

    /** How many accesses have failed so far. */
    ghost function Refusals(): nat
      reads this`accesses
    {
      Refused(refuses, accesses)
    }

    /** The next access to a drive. */
    method Access() returns (ok: bool)
      modifies this`accesses
      ensures accesses == old(accesses) + 1 && Refusals() == old(Refusals()) + if ok then 0 else 1
      ensures ok <==> !refuses(old(accesses))
    {
      ok := !refuses(accesses);
      accesses := accesses + 1;
    }

    ghost predicate Valid()
      reads this
    {
      && 1 <= batch && |ioBuf| == batch * SECTOR
      && Holds(slot1) && Holds(slot2)
    }

    /** A valid slot holds what the drive now selected would return. */
    ghost predicate Holds(s: Slot)
      reads this`drive
    {
      s.valid ==> s.data == drives(drive)(s.lba)
    }

    /** One FAT sector. */
    method ReadFatSector(v: Volume, lba: nat) returns (ok: bool, data: Sector)
      modifies this`contained, this`accesses
      ensures ok ==> data == drives(drive)(lba)
      ensures Refusals() == old(Refusals()) + if ok then 0 else 1
      ensures contained == (old(contained) && v.fatStart <= lba < v.fatStart + v.sectorsPerFat)
      ensures accesses == old(accesses) + 1
    {
      contained := contained && v.fatStart <= lba < v.fatStart + v.sectorsPerFat;
      data := *;
      ok := Access();
      if ok {
        data := drives(drive)(lba);
      }
    }

    /** `count` data sectors into the staging buffer. */
    method ReadSectors(v: Volume, lba: nat, count: nat) returns (ok: bool)
      requires Valid() && 1 <= count <= batch
      modifies this`ioBuf, this`contained, this`accesses
      ensures Valid()
      ensures ok ==> ioBuf[..count * SECTOR] == Sectors(drives(drive), lba, count)
      ensures Refusals() == old(Refusals()) + if ok then 0 else 1
      ensures contained == (old(contained) && v.dataStart <= lba && lba + count <= VolumeEnd(v))
    {
      contained := contained && v.dataStart <= lba && lba + count <= VolumeEnd(v);
      assert |Zeros(|ioBuf|)| == |ioBuf|;
      var any: seq<Byte> :| |any| == |ioBuf|;
      ioBuf := any;
      ok := Access();
      if ok {
        ioBuf := Sectors(drives(drive), lba, count) + any[count * SECTOR..];
      }
    }

    /** The sector with the entry of a cluster is in a walker's slot. */
    predicate Cached(v: Volume, c: nat, tortoise: bool)
      reads this`slot1, this`slot2
    {
      var slot := if tortoise then slot2 else slot1;
      slot.valid && slot.lba == v.fatStart + EntryOffset(c) / SECTOR
    }

    /** fat_get_next_cluster_slot(): the entry of a cluster, through the cache. */
    method Lookup(ghost table: Table, v: Volume, c: nat, tortoise: bool) returns (ok: bool, next: nat)
      requires Valid() && Mounted(v) && IsTable(table, drives(drive), v)
      modifies this`slot1, this`slot2, this`error, this`contained, this`accesses
      ensures Valid() && contained == old(contained)
      ensures ok ==> InRange(v.totalClusters, c) && next == table(c)
      ensures !ok ==> (error == ChainEnded && !InRange(v.totalClusters, c)) || (error == FatRead && Refusals() > old(Refusals()))
      ensures Refusals() >= old(Refusals())
      // the disk is asked only for a sector that is not in the walker's own slot, and that is where it is kept
      ensures accesses == old(accesses) + if InRange(v.totalClusters, c) && !old(Cached(v, c, tortoise)) then 1 else 0
      ensures ok ==> Cached(v, c, tortoise)
      ensures if tortoise then slot1 == old(slot1) else slot2 == old(slot2)
    {
      hide EntryAt, Refused, EntryOffset, Mounted;
      next := 0;
      if c < 2 || c >= v.totalClusters + 2 {
        error := ChainEnded;
        return false, 0;
      }
      EntryInFat(v, c);
      var offset := EntryOffset(c);
      var lba := v.fatStart + offset / SECTOR;
      var slot := if tortoise then slot2 else slot1;
      if !slot.valid || slot.lba != lba {
        var read, data := ReadFatSector(v, lba);
        slot := Slot(read, lba, data);
        if tortoise {
          slot2 := slot;
        } else {
          slot1 := slot;
        }
        if !read {
          error := FatRead;
          return false, 0;
        }
      }
      next := EntryAt(slot.data, offset % SECTOR);
      assert next == Entry(drives(drive), v, c);
      ok := true;
    }

    /** fat_chain_advance(): one hop of hare and, every second time, tortoise. */
    method Hop(ghost table: Table, v: Volume, w: Walk) returns (ok: bool, w': Walk)
      requires Valid() && Mounted(v) && IsTable(table, drives(drive), v)
      modifies this`slot1, this`slot2, this`error, this`contained, this`accesses
      ensures Valid() && contained == old(contained)
      ensures ok ==> Advance(table, v.totalClusters, w) == Moved(w')
      ensures !ok ==> Told(error, Advance(table, v.totalClusters, w)) || (error == FatRead && Refusals() > old(Refusals()))
      ensures Refusals() >= old(Refusals())
    {
      w' := w;
      if w.hops > v.totalClusters {
        error := ChainTooLong;
        return false, w;
      }
      var got, next := Lookup(table, v, w.cluster, false);
      if !got {
        return false, w;
      }
      if !InRange(v.totalClusters, next) {
        error := ChainEnded;
        return false, w;
      }
      w' := Walk(next, w.tortoise, w.hops + 1, !w.due);
      if w'.due {
        var got2, t := Lookup(table, v, w.tortoise, true);
        if !got2 {
          return false, w';
        }
        if !InRange(v.totalClusters, t) {
          error := ChainEnded;
          return false, w';
        }
        w' := w'.(tortoise := t);
        if t == next {
          error := ChainLoops;
          return false, w';
        }
      }
      ok := true;
    }

    /**
     * How far a run of clusters that follow each other extends from w.cluster
     * (cluster `pos` of the file) without exceeding one batch; whole clusters only.
     */
    method Probe(ghost table: Table, v: Volume, first: nat, ghost pos: nat, c: nat, sic: nat) returns (sectors: nat, ghost j: nat)
      requires Valid() && Mounted(v) && IsTable(table, drives(drive), v) && sic < v.sectorsPerCluster
      requires InRange(v.totalClusters, c) && Nth(table, first, pos) == c
      modifies this`slot1, this`slot2, this`error, this`contained, this`accesses
      ensures Valid() && contained == old(contained)
      ensures Contiguous(table, v.totalClusters, first, pos, c, j)
      ensures sic + sectors <= Times(j + 1, v.sectorsPerCluster) && 1 <= sectors <= batch
      ensures Refusals() >= old(Refusals())
    {
      sectors := v.sectorsPerCluster - sic;
      var probe := c;
      j := 0;
      while sectors + v.sectorsPerCluster <= batch
        invariant Valid() && contained == old(contained) && sectors >= 1
        invariant probe == c + j && sic + sectors == Times(j + 1, v.sectorsPerCluster)
        invariant Contiguous(table, v.totalClusters, first, pos, c, j)
        invariant Refusals() >= old(Refusals())
        decreases batch - sectors
      {
        var got, next := Lookup(table, v, probe, false);
        if !got || next != probe + 1 || !InRange(v.totalClusters, next) {
          break;
        }
        ExtendRun(table, v.totalClusters, first, pos, c, j);
        sectors := sectors + v.sectorsPerCluster;
        probe := next;
        j := j + 1;
      }
      if sectors > batch {
        sectors := batch;
      }
    }

    /**
     * One pass of the main loop up to the copy: reads a run and writes the
     * part of it the request covers to RAM.
     */
    method Deliver(ghost content: Content, ghost table: Table, v: Volume, first: nat, ghost pos: nat, c: nat, sic: nat, soff: nat,
                   ghost at: nat, remaining: nat, dst: nat)
      returns (ok: bool, bytes: nat, sectors: nat)
      requires Valid() && Mounted(v) && IsTable(table, drives(drive), v) && sic < v.sectorsPerCluster && soff < SECTOR
      requires InRange(v.totalClusters, c) && Nth(table, first, pos) == c
      requires IsContent(content, drives(drive), table, v, first)
      requires at == (Times(pos, v.sectorsPerCluster) + sic) * SECTOR + soff
      requires 0 < remaining && dst + remaining <= |ram|
      modifies this`slot1, this`slot2, this`ioBuf, this`ram, this`error, this`contained, this`accesses
      ensures Valid() && contained == old(contained)
      ensures !ok ==> ram == old(ram) && error == DataRead && Refusals() > old(Refusals())
      ensures Refusals() >= old(Refusals())
      ensures ok ==> 0 < bytes <= remaining && 0 < sectors
      ensures ok && bytes < remaining ==> soff + bytes == sectors * SECTOR
      ensures ok ==> ram == Write(old(ram), dst, Slice(content, at, bytes))
    {
      hide Nth, Slice, Sectors;
      ghost var j;
      var run;
      run, j := Probe(table, v, first, pos, c, sic);
      var most := run * SECTOR - soff;
      bytes := if remaining < most then remaining else most;
      sectors := (soff + bytes + SECTOR - 1) / SECTOR;
      CoverSectors(soff, bytes, run);
      RunInVolume(v, c, j, sic, sectors);
      ok := ReadSectors(v, ClusterLba(v, c) + sic, sectors);
      if !ok {
        error := DataRead;
        return;
      }
      var piece := ioBuf[soff..soff + bytes];
      RunBytes(content, drives(drive), table, v, first, pos, c, j, sic, soff, sectors, bytes, at, ioBuf);
      ram := Write(ram, dst, piece);
    }

    /** The walk catches up over n clusters. */
    method HopMany(ghost table: Table, v: Volume, first: nat, ghost pos: nat, w: Walk, n: nat) returns (ok: bool, w': Walk)
      requires Valid() && Mounted(v) && IsTable(table, drives(drive), v)
      requires InRange(v.totalClusters, w.cluster) && Nth(table, first, pos) == w.cluster
      requires Hops(table, v.totalClusters, first, pos) == Moved(w)
      modifies this`slot1, this`slot2, this`error, this`contained, this`accesses
      ensures Valid() && contained == old(contained) && Refusals() >= old(Refusals())
      ensures ok ==> InRange(v.totalClusters, w'.cluster) && Nth(table, first, pos + n) == w'.cluster
      ensures ok ==> Hops(table, v.totalClusters, first, pos + n) == Moved(w')
      ensures !ok ==> Told(error, Hops(table, v.totalClusters, first, pos + n)) || (error == FatRead && Refusals() > old(Refusals()))
    {
      hide Hops, Advance, Nth, Told;
      w' := w;
      var i := 0;
      while i < n
        invariant 0 <= i <= n && Valid() && contained == old(contained) && Refusals() >= old(Refusals())
        invariant InRange(v.totalClusters, w'.cluster) && Nth(table, first, pos + i) == w'.cluster
        invariant Hops(table, v.totalClusters, first, pos + i) == Moved(w')
      {
        var hop, next := Hop(table, v, w');
        OneMoreHop(table, v.totalClusters, first, pos + i, w');
        if !hop {
          if Told(error, Hops(table, v.totalClusters, first, pos + i + 1)) {
            NotMoved(error, Hops(table, v.totalClusters, first, pos + i + 1));
            HopsStuck(table, v.totalClusters, first, pos + i + 1, pos + n);
          }
          return false, next;
        }
        HopOn(table, v.totalClusters, first, pos + i, w', next);
        w' := next;
        i := i + 1;
      }
      ok := true;
    }

    /** Forgets both cached sectors. */
    method Invalidate()
      modifies this`slot1, this`slot2
      ensures !slot1.valid && !slot2.valid
    {
      slot1 := slot1.(valid := false);
      slot2 := slot2.(valid := false);
    }

    /**
     * fat_read_range(): bytes [offset, offset + length) of the file to RAM at
     * dst, telling the load in progress, if any, about every piece.
     */
    method ReadRange(ghost content: Content, ghost table: Table, v: Volume, file: File, offset: nat, length: nat, dst: nat, lc: Load?)
      returns (ok: bool, ghost delivered: nat)
      requires Valid() && Mounted(v) && IsTable(table, drives(drive), v) && dst + length <= |ram|
      requires IsContent(content, drives(drive), table, v, file.firstCluster)
      requires lc != null ==> Loading(lc) && Resumes(lc, content, table, v, file, offset, length, dst)
      modifies this, lc
      ensures Valid() && contained == old(contained) && drive == old(drive)
      ensures delivered <= length && (ok ==> delivered == length)
      ensures lc == null ==> ram == Write(old(ram), dst, Slice(content, offset, delivered))
      ensures lc != null ==> Loading(lc) && lc.done == old(lc.done) + delivered && Untouched(old(ram), ram, lc.scratch, lc.base, lc.base + lc.done)
      ensures Refusals() >= old(Refusals()) && (!ok ==> Excused(table, v, file, offset, length, old(Refusals())))
      ensures ok ==> offset + length <= file.size
      decreases if lc == null then 0 else 1, 5
    {
      hide Hops, Nth, Times, IsContent, IsTable, ClusterOf, InRam, Slice, Write, SameFiles, Away, Refused;
      delivered := 0;
      WriteNothing(ram, dst);
      error := NoError;
      if offset > file.size || length > file.size - offset {
        error := BadRange;
        return false, 0;
      }
      if length == 0 {
        return true, 0;
      }
      if !InRange(v.totalClusters, file.firstCluster) {
        error := BadStart;
        return false, 0;
      }
      ClusterOfIsIn(v, offset + length - 1);
      ok, delivered := Serve(content, table, v, file, offset, length, dst, lc, ram, if lc == null then 0 else lc.done, ClusterOf(v, offset + length - 1));
    }

    /** The cluster of the first byte, then everything from there. */
    method Serve(ghost content: Content, ghost table: Table, v: Volume, file: File, offset: nat, length: nat, dst: nat, lc: Load?,
                 ghost ram0: seq<Byte>, ghost done0: nat, ghost last: nat)
      returns (ok: bool, ghost delivered: nat)
      requires Valid() && Mounted(v) && IsTable(table, drives(drive), v) && 0 < length && dst + length <= |ram0|
      requires InRange(v.totalClusters, file.firstCluster)
      requires IsContent(content, drives(drive), table, v, file.firstCluster)
      requires Sent(content, table, v, file, offset, dst, lc, ram0, done0, 0)
      requires lc != null ==> lc.len == done0 + length
      requires InCluster(v, last, offset + length - 1)
      modifies this, lc
      ensures Valid() && contained == old(contained) && drive == old(drive)
      ensures Refusals() >= old(Refusals()) && (!ok ==> Stopped(table, v, file.firstCluster, last, old(Refusals())))
      ensures delivered <= length && (ok ==> delivered == length)
      ensures Sent(content, table, v, file, offset, dst, lc, ram0, done0, delivered)
      decreases if lc == null then 0 else 1, 4
    {
      hide Hops, Nth, Times, IsContent, IsTable;
      delivered := 0;
      ghost var pos;
      var cur;
      ok, cur, pos := Seek(table, v, file.firstCluster, offset, last, offset + length - 1);
      if !ok {
        return false, 0;
      }
      ok, delivered := SendAll(content, table, v, file, offset, length, dst, lc, cur, pos, ram0, done0, last);
    }

    /** A read that fails names its reason: the request, the chain up to the last byte wanted, or a refused read. */
    ghost predicate Excused(table: Table, v: Volume, file: File, offset: nat, length: nat, was: nat)
      reads this`error, this`accesses
    {
      match error
      case NoError => false
      case BadRange => offset + length > file.size
      case BadStart => !InRange(v.totalClusters, file.firstCluster)
      case FatRead => Refusals() > was
      case DataRead => Refusals() > was
      case _ =>
        && 0 < offset + length && v.sectorsPerCluster > 0
        && Told(error, Hops(table, v.totalClusters, file.firstCluster, ClusterOf(v, offset + length - 1)))
    }

    /** On a chain that ends and is long enough for the request, only a read refused meanwhile can make it fail. */
    lemma SoundChainReads(table: Table, v: Volume, file: File, offset: nat, length: nat, len: nat, was: nat)
      requires Excused(table, v, file, offset, length, was)
      requires 0 < length && offset + length <= file.size && v.sectorsPerCluster > 0
      requires Ends(table, v.totalClusters, file.firstCluster, len) && ClusterOf(v, offset + length - 1) < len
      ensures Refusals() > was
    {
      SoundChainServes(table, v, file, offset + length, len);
      hide Hops, ClusterOf, Ends;
    }

    /** Then nothing but a refused read stands in its way. */
    lemma ExcusedMeans(table: Table, v: Volume, file: File, offset: nat, length: nat, was: nat)
      requires Excused(table, v, file, offset, length, was)
      ensures Refusals() > was || Blocked(table, v, file, offset + length)
    {
      hide Hops, ClusterOf;
    }

    /** The same, of a walk towards cluster `last`. */
    ghost predicate Stopped(table: Table, v: Volume, first: nat, last: nat, was: nat)
      reads this`error, this`accesses
    {
      ((error == FatRead || error == DataRead) && Refusals() > was) || Told(error, Hops(table, v.totalClusters, first, last))
    }

    /** The main loop: run after run until the request is served. */
    method SendAll(ghost content: Content, ghost table: Table, v: Volume, file: File, offset: nat, length: nat, dst: nat, lc: Load?,
                   start: Cursor, ghost startPos: nat, ghost ram0: seq<Byte>, ghost done0: nat, ghost last: nat)
      returns (ok: bool, ghost delivered: nat)
      requires Valid() && Mounted(v) && IsTable(table, drives(drive), v) && 0 < length && dst + length <= |ram0|
      requires IsContent(content, drives(drive), table, v, file.firstCluster)
      requires At(table, v, file.firstCluster, start, startPos, offset)
      requires Sent(content, table, v, file, offset, dst, lc, ram0, done0, 0)
      requires lc != null ==> lc.len == done0 + length
      requires InCluster(v, last, offset + length - 1)
      modifies this, lc
      ensures Valid() && contained == old(contained) && drive == old(drive)
      ensures Refusals() >= old(Refusals()) && (!ok ==> Stopped(table, v, file.firstCluster, last, old(Refusals())))
      ensures delivered <= length && (ok ==> delivered == length)
      ensures Sent(content, table, v, file, offset, dst, lc, ram0, done0, delivered)
      decreases if lc == null then 0 else 1, 3
    {
      var cur := start;
      ghost var pos := startPos;
      var sent := 0;
      while sent < length
        invariant Valid() && contained == old(contained) && drive == old(drive) && Refusals() >= old(Refusals())
        invariant 0 <= sent <= length
        invariant sent < length ==> At(table, v, file.firstCluster, cur, pos, offset + sent)
        invariant Sent(content, table, v, file, offset, dst, lc, ram0, done0, sent)
      {
        ok, cur, pos, sent := Round(content, table, v, file, offset, length, dst, lc, cur, pos, sent, ram0, done0, last);
        if !ok {
          return false, sent;
        }
      }
      return true, sent;
    }

    /** One pass of the main loop: a run, then the walk over the clusters it used up. */
    method Round(ghost content: Content, ghost table: Table, v: Volume, file: File, offset: nat, length: nat, dst: nat, lc: Load?,
                 cur: Cursor, ghost pos: nat, sent: nat, ghost ram0: seq<Byte>, ghost done0: nat, ghost last: nat)
      returns (ok: bool, cur': Cursor, ghost pos': nat, sent': nat)
      requires Valid() && Mounted(v) && IsTable(table, drives(drive), v) && sent < length && dst + length <= |ram0|
      requires At(table, v, file.firstCluster, cur, pos, offset + sent)
      requires IsContent(content, drives(drive), table, v, file.firstCluster)
      requires Sent(content, table, v, file, offset, dst, lc, ram0, done0, sent)
      requires lc != null ==> lc.len == done0 + length
      requires InCluster(v, last, offset + length - 1)
      modifies this, lc
      ensures Valid() && contained == old(contained) && drive == old(drive)
      ensures Refusals() >= old(Refusals()) && (!ok ==> Stopped(table, v, file.firstCluster, last, old(Refusals())))
      ensures sent <= sent' <= length && (ok ==> sent < sent')
      ensures ok && sent' < length ==> At(table, v, file.firstCluster, cur', pos', offset + sent')
      ensures Sent(content, table, v, file, offset, dst, lc, ram0, done0, sent')
      decreases if lc == null then 0 else 1, 2, 1
    {
      hide Hops, Nth, Told, Times, IsContent, IsTable;
      cur', pos', sent' := cur, pos, sent;
      var bytes, sectors;
      ok, bytes, sectors := Piece(content, table, v, file, offset, length, dst, lc, cur, pos, sent, ram0, done0);
      if ok {
        sent' := sent + bytes;
        if sent' < length {
          ok, cur', pos' := MoveOn(table, v, file.firstCluster, cur, pos, sectors, offset + sent', last, offset + length - 1);
        }
      }
    }

    /** Skips to the cluster and sector that hold byte `offset`. */
    method Seek(ghost table: Table, v: Volume, first: nat, offset: nat, ghost last: nat, ghost end: nat)
      returns (ok: bool, cur: Cursor, ghost pos: nat)
      requires Valid() && Mounted(v) && IsTable(table, drives(drive), v) && InRange(v.totalClusters, first)
      requires offset <= end && InCluster(v, last, end)
      modifies this`slot1, this`slot2, this`error, this`contained, this`accesses
      ensures Valid() && contained == old(contained) && Refusals() >= old(Refusals())
      ensures ok ==> At(table, v, first, cur, pos, offset)
      ensures !ok ==> Stopped(table, v, first, last, old(Refusals()))
    {
      NoHops(table, v.totalClusters, first);
      hide Hops, Nth, Advance;
      var skip, inside := Split(offset, SECTOR * v.sectorsPerCluster);
      TimesScale(skip, v.sectorsPerCluster);
      pos := skip;
      var w;
      ok, w := HopMany(table, v, first, 0, Start(first), skip);
      cur := Cursor(w, inside / SECTOR, offset % SECTOR);
      Reached(table, v, first, skip, offset, last, end);
    }

    /** The walk and the position in the cluster after `sectors` sectors. */
    method MoveOn(ghost table: Table, v: Volume, first: nat, cur: Cursor, ghost pos: nat, sectors: nat, ghost at: nat,
                  ghost last: nat, ghost end: nat)
      returns (ok: bool, cur': Cursor, ghost pos': nat)
      requires Valid() && Mounted(v) && IsTable(table, drives(drive), v)
      requires InRange(v.totalClusters, cur.w.cluster) && Nth(table, first, pos) == cur.w.cluster
      requires Hops(table, v.totalClusters, first, pos) == Moved(cur.w)
      requires at == (Times(pos, v.sectorsPerCluster) + cur.sic + sectors) * SECTOR
      requires at <= end && InCluster(v, last, end)
      modifies this`slot1, this`slot2, this`error, this`contained, this`accesses
      ensures Valid() && contained == old(contained) && Refusals() >= old(Refusals())
      ensures ok ==> At(table, v, first, cur', pos', at)
      ensures !ok ==> Stopped(table, v, first, last, old(Refusals()))
    {
      hide Hops, Nth, Advance;
      var consumed, inside := Split(cur.sic + sectors, v.sectorsPerCluster);
      var w;
      ok, w := HopMany(table, v, first, pos, cur.w, consumed);
      cur' := Cursor(w, inside, 0);
      pos' := pos + consumed;
      TimesSum(pos, consumed, v.sectorsPerCluster);
      Reached(table, v, first, pos', at, last, end);
    }

    /** A walk that stops on the way to byte `at` has stopped on the way to any later one. */
    lemma Reached(table: Table, v: Volume, first: nat, pos: nat, at: nat, last: nat, end: nat)
      requires InCluster(v, pos, at) && InCluster(v, last, end) && at <= end
      ensures !Hops(table, v.totalClusters, first, pos).Moved? ==>
        Hops(table, v.totalClusters, first, last) == Hops(table, v.totalClusters, first, pos)
    {
      ClusterOrder(v, pos, last, at, end);
      if !Hops(table, v.totalClusters, first, pos).Moved? {
        HopsStuck(table, v.totalClusters, first, pos, last);
      }
    }

    /** Reads one run and reports it. */
    method Piece(ghost content: Content, ghost table: Table, v: Volume, file: File, offset: nat, length: nat, dst: nat, lc: Load?,
                 cur: Cursor, ghost pos: nat, sent: nat, ghost ram0: seq<Byte>, ghost done0: nat)
      returns (ok: bool, bytes: nat, sectors: nat)
      requires Valid() && Mounted(v) && IsTable(table, drives(drive), v) && sent < length && dst + length <= |ram0|
      requires At(table, v, file.firstCluster, cur, pos, offset + sent)
      requires IsContent(content, drives(drive), table, v, file.firstCluster)
      requires Sent(content, table, v, file, offset, dst, lc, ram0, done0, sent)
      requires lc != null ==> lc.len == done0 + length
      modifies this, lc
      ensures Valid() && contained == old(contained) && drive == old(drive)
      ensures Refusals() >= old(Refusals()) && (!ok ==> error == DataRead && Refusals() > old(Refusals()))
      ensures ok ==> 0 < bytes <= length - sent
      ensures ok && sent + bytes < length ==> offset + sent + bytes == (Times(pos, v.sectorsPerCluster) + cur.sic + sectors) * SECTOR
      ensures Sent(content, table, v, file, offset, dst, lc, ram0, done0, if ok then sent + bytes else sent)
      decreases if lc == null then 0 else 1, 2, 0
    {
      hide Write, Slice, Hops, Nth, Times, InRam, Untouched, IsContent, IsTable, SameFiles, Away, Refused;
      ghost var before := ram;
      ok, bytes, sectors := Deliver(content, table, v, file.firstCluster, pos, cur.w.cluster, cur.sic, cur.soff, offset + sent, length - sent, dst + sent);
      if !ok {
        return;
      }
      if lc != null {
        Report(lc, bytes, before, ram0);
        UntouchedSize(ram0, ram, lc.scratch, lc.base, lc.base + lc.done);
      } else {
        WriteMore(content, offset, sent, bytes, ram0, dst);
      }
    }

    /** Tells the load about a piece just written behind what it had. */
    method Report(lc: Load, bytes: nat, ghost before: seq<Byte>, ghost ram0: seq<Byte>)
      requires Valid() && lc.Describes(drives(drive)) && lc.AltValid(drives)
      requires lc.done + bytes <= lc.len && lc.base + lc.len <= |before|
      requires InRam(lc.content, lc.fileOff, lc.done, before, lc.base, lc.landed, lc.elsewhere, lc.Other(drives))
      requires ram == Write(before, lc.base + lc.done, Slice(lc.content, lc.fileOff + lc.done, bytes))
      requires Untouched(ram0, before, lc.scratch, lc.base, lc.base + lc.done)
      modifies this, lc
      ensures Valid() && contained == old(contained) && drive == old(drive) && Refusals() >= old(Refusals())
      ensures Loading(lc) && lc.done == old(lc.done) + bytes
      ensures Untouched(ram0, ram, lc.scratch, lc.base, lc.base + lc.done)
      decreases 1, 1, 1
    {
      hide InRam, Untouched, IsContent, IsTable, SameFiles, Mounted, Away, Refused, Write, Slice;
      Landing(lc.content, lc.fileOff, lc.done, bytes, ram0, before, ram, lc.scratch, lc.base, lc.landed, lc.elsewhere, lc.Other(drives));
      ghost var arrived := ram;
      Progress(lc, bytes);
      UntouchedMore(ram0, arrived, ram, lc.scratch, lc.base, lc.base + lc.done, lc.base + lc.done);
    }

    /** What has been sent lies in RAM, and the load, if any, knows of it. */
    ghost predicate Sent(content: Content, table: Table, v: Volume, file: File, offset: nat, dst: nat, lc: Load?,
                         ram0: seq<Byte>, done0: nat, n: nat)
      reads this`ram, this`drive, lc
    {
      && dst + n <= |ram0| == |ram|
      && (lc == null ==> ram == Write(ram0, dst, Slice(content, offset, n)))
      && (lc != null ==>
            && Loading(lc) && lc.done == done0 + n && lc.IsOf(content, table, v, file)
            && offset == lc.fileOff + done0 && dst == lc.base + done0
            && Untouched(ram0, ram, lc.scratch, lc.base, lc.base + lc.done))
    }

    // ---- A load in progress ----

    /** RAM holds what has been delivered, or what a drive with the same files has in its place. */
    ghost predicate Loading(lc: Load)
      reads this`ram, this`drive, lc
    {
      && lc.Describes(drives(drive)) && lc.AltValid(drives)
      && lc.done <= lc.len && lc.base + lc.len <= |ram|
      && InRam(lc.content, lc.fileOff, lc.done, ram, lc.base, lc.landed, lc.elsewhere, lc.Other(drives))
    }

    /** The request carries on where the load stands. */
    ghost predicate Resumes(lc: Load, content: Content, table: Table, v: Volume, file: File, offset: nat, length: nat, dst: nat)
      reads lc
    {
      && lc.IsOf(content, table, v, file)
      && offset == lc.fileOff + lc.done && dst == lc.base + lc.done && length == lc.len - lc.done
    }

    /** load_progress(): counts the piece, then whatever the block checks do. */
    method Progress(lc: Load, bytes: nat)
      requires Valid() && lc.Describes(drives(drive)) && lc.AltValid(drives)
      requires lc.done + bytes <= lc.len && lc.base + lc.len <= |ram|
      requires InRam(lc.content, lc.fileOff, lc.done + bytes, ram, lc.base,
                     lc.landed + ram[lc.base + lc.done..lc.base + lc.done + bytes], lc.elsewhere, lc.Other(drives))
      modifies this, lc
      ensures Valid() && contained == old(contained) && drive == old(drive) && Refusals() >= old(Refusals())
      ensures Loading(lc) && lc.done == old(lc.done) + bytes
      ensures Untouched(old(ram), ram, lc.scratch, lc.base, lc.base + lc.done)
      decreases 1, 1, 0
    {
      hide InRam, Untouched, IsContent, IsTable, SameFiles, Mounted, Away, Refused;
      lc.landed := lc.landed + ram[lc.base + lc.done..lc.base + lc.done + bytes];
      lc.done := lc.done + bytes;
      Nested(lc);
    }

    /**
     * What the block checks may do meanwhile, any number of times and in any
     * order: re-read part of what has landed, read a sector of the block
     * table, look an LBA up, or look for another drive with the same files
     * and fetch part of what has landed from there.
     */
    method Nested(lc: Load)
      requires Valid() && Loading(lc)
      modifies this, lc`elsewhere, lc`probed, lc`alt
      ensures Valid() && contained == old(contained) && drive == old(drive) && Refusals() >= old(Refusals())
      ensures Loading(lc) && Untouched(old(ram), ram, lc.scratch, lc.base, lc.base + lc.done)
      decreases 1, 0
    {
      hide InRam, Untouched, IsContent, IsTable, SameFiles, Mounted, Away, Refused;
      SameUntouched(ram, lc.scratch, lc.base, lc.base + lc.done);
      var times: int := *;
      while times > 0
        invariant Valid() && contained == old(contained) && drive == old(drive) && Refusals() >= old(Refusals())
        invariant Loading(lc) && Untouched(old(ram), ram, lc.scratch, lc.base, lc.base + lc.done)
      {
        ghost var before := ram;
        NestedOnce(lc);
        UntouchedMore(old(ram), before, ram, lc.scratch, lc.base, lc.base + lc.done, lc.base + lc.done);
        times := times - 1;
      }
    }

    method NestedOnce(lc: Load)
      requires Valid() && Loading(lc)
      modifies this, lc`elsewhere, lc`probed, lc`alt
      ensures Valid() && contained == old(contained) && drive == old(drive) && Refusals() >= old(Refusals())
      ensures Loading(lc) && Untouched(old(ram), ram, lc.scratch, lc.base, lc.base + lc.done)
      decreases 0, 11
    {
      hide InRam, Untouched, IsContent, IsTable, SameFiles, Mounted, Away, Refused, Offsets, Blocked, BlockedAway;
      SameUntouched(ram, lc.scratch, lc.base, lc.base + lc.done);
      var what: int, off: int, len: int, other: File := *, *, *, *;
      if what == 0 {
        ReadTable(lc, other);
      } else if what == 1 {
        LookUp(lc);
      } else if 0 <= off && 0 <= len && off + len <= lc.done {
        if what == 2 {
          var _ := Reread(lc, off, len);
        } else {
          var _ := FromSecond(lc, off, len);
        }
      }
    }

    /** hook_reread(): the same bytes again, from a FAT read afresh. */
    method Reread(lc: Load, off: nat, len: nat) returns (ok: bool)
      requires Valid() && Loading(lc) && off + len <= lc.done
      modifies this, lc`elsewhere
      ensures Valid() && contained == old(contained) && drive == old(drive) && Refusals() >= old(Refusals())
      ensures Loading(lc) && Untouched(old(ram), ram, lc.scratch, lc.base, lc.base + lc.done)
      // a re-read that succeeds leaves the file's bytes, whatever was there
      ensures lc.elsewhere <= old(lc.elsewhere) && (ok ==> lc.elsewhere == old(lc.elsewhere) - Offsets(off, len))
      ensures !ok ==> Refusals() > old(Refusals()) || Blocked(lc.table, lc.v, lc.file, lc.fileOff + off + len)
      decreases 0, 9
    {
      hide Write, Slice, InRam, Untouched, IsContent, IsTable, Offsets, Blocked, SameFiles, Away, Refused;
      Invalidate();
      ghost var before, m := ram, 0;
      ok, m := ReadRange(lc.content, lc.table, lc.v, lc.file, lc.fileOff + off, len, lc.base + off, null);
      Rewritten(lc.content, lc.fileOff, lc.done, off, m, before, lc.scratch, lc.base, lc.landed, lc.elsewhere, lc.Other(drives));
      lc.elsewhere := lc.elsewhere - Offsets(off, m);
      if !ok {
        ExcusedMeans(lc.table, lc.v, lc.file, lc.fileOff + off, len, old(Refusals()));
      }
    }

    /** blksum_sector(): some other sector of the volume into the table buffer. */
    method ReadTable(lc: Load, other: File)
      requires Valid() && Loading(lc)
      modifies this
      ensures Valid() && contained == old(contained) && drive == old(drive) && Refusals() >= old(Refusals())
      ensures Loading(lc) && Untouched(old(ram), ram, lc.scratch, lc.base, lc.base + lc.done)
      decreases 0, 9
    {
      hide Write, Slice, InRam, Untouched;
      SameUntouched(ram, lc.scratch, lc.base, lc.base + lc.done);
      var offset: int := *;
      if offset < 0 {
        return;
      }
      ghost var before, m := ram, 0;
      ghost var content := ContentOf(drives(drive), lc.table, lc.v, other.firstCluster);
      var read;
      read, m := ReadRange(content, lc.table, lc.v, other, offset, SECTOR, lc.scratch, null);
      LowWrite(before, lc.scratch, lc.base, lc.base + lc.done, lc.scratch, Slice(content, offset, m));
      BelowLoad(lc.content, lc.fileOff, lc.done, lc.scratch, Slice(content, offset, m), before, lc.base, lc.landed, lc.elsewhere, lc.Other(drives));
    }

    /** hook_report(): where on the disk some byte of the file lies. */
    method LookUp(lc: Load)
      requires Valid() && Loading(lc)
      modifies this`slot1, this`slot2, this`error, this`contained, this`accesses
      ensures Valid() && contained == old(contained) && Refusals() >= old(Refusals())
      decreases 0, 9
    {
      Invalidate();
      var offset: int := *;
      if offset >= 0 {
        var _, _ := OffsetLba(lc.table, lc.v, lc.file, offset);
      }
    }

    // ---- The second source ----

    /** fat_open(): the file a path leads to from the root, one directory after the other. */
    method Open(v: Volume, names: seq<seq<Byte>>) returns (ok: bool, file: File)
      requires Valid() && Mounted(v) && names != []
      modifies this`slot1, this`slot2, this`ioBuf, this`error, this`contained, this`accesses
      ensures Valid() && contained == old(contained) && Refusals() >= old(Refusals())
      ensures ok ==> Opens(drives(drive), v, v.rootCluster, names, file)
      ensures !ok ==> Refusals() > old(Refusals()) || Closed(drives(drive), v, v.rootCluster, names)
    {
      hide IsTable, IsContent, FirstMatch, Missing, Opens, Closed, EntryFile, DirEntry;
      var dir, i := v.rootCluster, 0;
      ghost var d, table := drives(drive), Follow(drives(drive), v);
      while true
        invariant Valid() && contained == old(contained) && Refusals() >= old(Refusals()) && 0 <= i < |names|
        invariant forall f :: Opens(d, v, dir, names[i..], f) ==> Opens(d, v, v.rootCluster, names, f)
        invariant Closed(d, v, dir, names[i..]) ==> Closed(d, v, v.rootCluster, names)
        decreases |names| - i
      {
        ghost var content := ContentOf(d, table, v, dir);
        var wantDir := i + 1 < |names|;
        var got, found, at := FindInDir(content, table, v, dir, names[i], wantDir);
        assert names[i..][0] == names[i] && (wantDir ==> names[i..][1..] == names[i + 1..]);
        OpensStep(d, v, dir, names[i..], at);
        if !got {
          return false, File(0, 0);
        }
        if !wantDir {
          return true, File(found.cluster, found.size);
        }
        dir, i := found.cluster, i + 1;
      }
    }

    /** alt_try(): is drive d one that carries the same KERNEL and INITRD? */
    method AltTry(lc: Load, d: nat) returns (ok: bool, a: Alt, ghost wrote: seq<Byte>)
      requires |ioBuf| == batch * SECTOR && batch >= 1 && lc.scratch + LOW <= |ram|
      modifies this
      ensures Valid() && contained == old(contained) && drive == d && Refusals() >= old(Refusals())
      ensures |wrote| <= SECTOR && ram == Write(old(ram), lc.scratch + SECTOR, wrote)
      ensures ok ==> a.drive == d && Mounted(a.v) && SameFiles(drives(d), a, lc.sum)
      ensures !ok ==> Unfit(d, lc.sum) || Refusals() > old(Refusals())
      decreases 0, 8
    {
      hide Write, Opens, Closed, Mounted, IsTable, IsContent, SameFiles, Lacks, FatMount.WellFormed;
      ok, a, wrote := false, NO_ALT, [];
      WriteNothing(ram, lc.scratch + SECTOR);
      var selected := Select(d);
      Invalidate();
      if !selected {
        return;
      }
      var p := FindPartition();
      if p.None? || p.value.0 + p.value.1 > FatMount.TWO64 {
        return;
      }
      FatMount.MountExact(FatMount.Decode(drives(d)(p.value.0)), p.value.0, p.value.1);
      var mounted, v := Mount(p.value.0, p.value.1);
      if mounted {
        ok, a, wrote := Compare(lc, v);
      }
    }

    /** The two files and the manifest of a mounted volume, against this boot's manifest. */
    method Compare(lc: Load, v: Volume) returns (ok: bool, a: Alt, ghost wrote: seq<Byte>)
      requires Valid() && Mounted(v) && lc.scratch + LOW <= |ram|
      modifies this
      ensures Valid() && contained == old(contained) && drive == old(drive) && Refusals() >= old(Refusals())
      ensures |wrote| <= SECTOR && ram == Write(old(ram), lc.scratch + SECTOR, wrote)
      ensures ok ==> a.drive == drive && a.v == v && SameFiles(drives(drive), a, lc.sum)
      ensures !ok ==> Lacks(drives(drive), v, lc.sum) || Refusals() > old(Refusals())
      decreases 0, 7
    {
      hide Write, Opens, Closed, IsTable, IsContent, Blocked, M.Parse, M.Unambiguous;
      ok, a, wrote := false, NO_ALT, [];
      WriteNothing(ram, lc.scratch + SECTOR);
      var gotKernel, kernel := Open(v, PathOf(KERNEL));
      if !gotKernel {
        return;
      }
      var gotInitrd, initrd := Open(v, PathOf(INITRD));
      if !gotInitrd {
        return;
      }
      var gotSum, file := Open(v, PathOf(CHECKSUM));
      if !gotSum {
        return;
      }
      if file.size == 0 || file.size > SECTOR {
        assert Differs(drives(drive), v, lc.sum, kernel, initrd, file);
        return;
      }
      a := Alt(drive, v, kernel, initrd);
      var read;
      read, wrote := ReadSum(lc, v, file);
      if read {
        var r := M.ParseText(Chars(ram[lc.scratch + SECTOR..lc.scratch + SECTOR + file.size]));
        ok := r.Parsed? && SamePayload(r.sum, lc.sum) && kernel.size == lc.sum.kernel.size && initrd.size == lc.sum.initrd.size;
      }
      assert ok || Refusals() > old(Refusals()) || Differs(drives(drive), v, lc.sum, kernel, initrd, file);
    }

    /** The manifest of a mounted volume into the header buffer. */
    method ReadSum(lc: Load, v: Volume, sum: File) returns (ok: bool, ghost wrote: seq<Byte>)
      requires Valid() && Mounted(v) && sum.size <= SECTOR && lc.scratch + LOW <= |ram|
      modifies this
      ensures Valid() && contained == old(contained) && drive == old(drive) && Refusals() >= old(Refusals())
      ensures |wrote| <= SECTOR && ram == Write(old(ram), lc.scratch + SECTOR, wrote)
      ensures ok ==> ram[lc.scratch + SECTOR..lc.scratch + SECTOR + sum.size] == Text(drives(drive), v, sum)
      ensures !ok ==> Blocked(Follow(drives(drive), v), v, sum, sum.size) || Refusals() > old(Refusals())
      decreases 0, 6
    {
      ghost var table, m := Follow(drives(drive), v), 0;
      ghost var content := ContentOf(drives(drive), table, v, sum.firstCluster);
      ok, m := ReadRange(content, table, v, sum, 0, sum.size, lc.scratch + SECTOR, null);
      wrote := Slice(content, 0, m);
      if !ok {
        ExcusedMeans(table, v, sum, 0, sum.size, old(Refusals()));
      }
    }

    /** Back to the boot drive, whatever disk_select() says of it. */
    method AltLeave(home: nat)
      modifies this`drive, this`ioBuf, this`slot1, this`slot2, this`accesses
      ensures drive == home && |ioBuf| == |old(ioBuf)| && !slot1.valid && !slot2.valid && Refusals() >= old(Refusals())
    {
      var selected := Select(home);
      if !selected {
        var _ := Select(home);
      }
      Invalidate();
    }

    /** The search for a second source: once, over the hard disks but the boot drive. */
    method FindAlt(lc: Load)
      requires Valid() && Loading(lc) && lc.alt.None? && lc.probed
      modifies this, lc`alt
      ensures Valid() && contained == old(contained) && drive == old(drive) && Refusals() >= old(Refusals())
      ensures Loading(lc) && Untouched(old(ram), ram, lc.scratch, lc.base, lc.base + lc.done)
      ensures lc.alt.Some? ==> lc.alt.value.drive != drive
      // none found: no drive is one, or one that might be could not be read
      ensures lc.alt.None? ==>
        Refusals() > old(Refusals()) || forall d :: 0x80 <= d < 0x80 + disks && d < 0x90 && d != drive ==> Unfit(d, lc.sum)
      decreases 0, 9
    {
      hide InRam, Untouched, Write, IsContent, IsTable, SameFiles, Mounted, Unfit;
      var home, d := drive, 0x80;
      SameUntouched(ram, lc.scratch, lc.base, lc.base + lc.done);
      while d < 0x80 + disks && d < 0x90
        invariant |ioBuf| == batch * SECTOR && contained == old(contained) && Refusals() >= old(Refusals()) && d >= 0x80
        invariant |ram| == |old(ram)| && lc.alt.None?
        invariant Refusals() > old(Refusals()) || forall e :: 0x80 <= e < d && e != home ==> Unfit(e, lc.sum)
        invariant InRam(lc.content, lc.fileOff, lc.done, ram, lc.base, lc.landed, lc.elsewhere, lc.Other(drives))
        invariant Untouched(old(ram), ram, lc.scratch, lc.base, lc.base + lc.done)
        decreases 0x90 - d
      {
        if d != home {
          ghost var before := ram;
          var ok, a, wrote := AltTry(lc, d);
          LowWrite(before, lc.scratch, lc.base, lc.base + lc.done, lc.scratch + SECTOR, wrote);
          BelowLoad(lc.content, lc.fileOff, lc.done, lc.scratch + SECTOR, wrote, before, lc.base, lc.landed, lc.elsewhere, lc.Other(drives));
          UntouchedMore(old(ram), before, ram, lc.scratch, lc.base, lc.base + lc.done, lc.base + lc.done);
          if ok {
            lc.alt := Some(a);
            InRamFound(lc.content, lc.fileOff, lc.done, ram, lc.base, lc.landed, lc.elsewhere, lc.Other(drives));
            break;
          }
        }
        d := d + 1;
      }
      AltLeave(home);
    }

    /** hook_second(): the same range from a second source, if there is one, and back to the boot drive. */
    method FromSecond(lc: Load, off: nat, len: nat) returns (ok: bool)
      requires Valid() && Loading(lc) && off + len <= lc.done
      modifies this, lc`elsewhere, lc`probed, lc`alt
      ensures Valid() && contained == old(contained) && drive == old(drive) && Refusals() >= old(Refusals())
      ensures Loading(lc) && Untouched(old(ram), ram, lc.scratch, lc.base, lc.base + lc.done)
      // only the bytes it delivered are no longer known to be the file's
      ensures old(lc.elsewhere) <= lc.elsewhere <= old(lc.elsewhere) + Offsets(off, len)
      ensures lc.probed && (old(lc.probed) ==> lc.alt == old(lc.alt))
      ensures lc.alt.None? ==> !ok && lc.elsewhere == old(lc.elsewhere)
      ensures ok ==> Offsets(off, len) <= lc.elsewhere
      ensures !ok && lc.alt.Some? ==> Refusals() > old(Refusals()) || BlockedAway(drives, lc.alt.value, lc.initrd, lc.fileOff + off + len)
      decreases 0, 10
    {
      hide InRam, Untouched, IsContent, IsTable, Offsets, SameFiles, Mounted, BlockedAway, Unfit;
      ghost var ram0 := ram;
      SameUntouched(ram, lc.scratch, lc.base, lc.base + lc.done);
      if !lc.probed {
        lc.probed := true;
        FindAlt(lc);
      }
      if lc.alt.None? {
        return false;
      }
      ghost var before := ram;
      ok := Fetch(lc, lc.alt.value, off, len);
      UntouchedMore(ram0, before, ram, lc.scratch, lc.base, lc.base + lc.done, lc.base + lc.done);
    }

    /** One range from the second source. */
    method Fetch(lc: Load, a: Alt, off: nat, len: nat) returns (ok: bool)
      requires Valid() && Loading(lc) && off + len <= lc.done && lc.alt == Some(a)
      modifies this, lc`elsewhere
      ensures Valid() && contained == old(contained) && drive == old(drive) && Refusals() >= old(Refusals())
      ensures Loading(lc) && Untouched(old(ram), ram, lc.scratch, lc.base, lc.base + lc.done)
      ensures old(lc.elsewhere) <= lc.elsewhere <= old(lc.elsewhere) + Offsets(off, len)
      ensures ok ==> Offsets(off, len) <= lc.elsewhere
      ensures !ok ==> Refusals() > old(Refusals()) || BlockedAway(drives, a, lc.initrd, lc.fileOff + off + len)
      decreases 0, 8
    {
      hide Write, InRam, Untouched, IsContent, IsTable, SameFiles, Slice, Offsets, Mounted, Away, BlockedAway;
      MountedSpc(a.v);
      var home := drive;
      ghost var before, wrote := ram, [];
      ok, wrote := ReadAway(a, lc.initrd, lc.fileOff + off, len, lc.base + off);
      Replaced(lc.content, lc.fileOff, lc.done, off, |wrote|, before, lc.scratch, lc.base, lc.landed, lc.elsewhere, lc.Other(drives).value);
      OffsetsPart(off, |wrote|, len);
      lc.elsewhere := lc.elsewhere + Offsets(off, |wrote|);
      AltLeave(home);
    }

    /** The read itself, on the other drive. */
    method ReadAway(a: Alt, second: bool, offset: nat, len: nat, dst: nat) returns (ok: bool, ghost wrote: seq<Byte>)
      requires |ioBuf| == batch * SECTOR && batch >= 1 && Mounted(a.v) && dst + len <= |ram|
      modifies this
      ensures |ioBuf| == batch * SECTOR && contained == old(contained) && Refusals() >= old(Refusals())
      ensures |wrote| <= len && ram == Write(old(ram), dst, wrote) && (ok ==> |wrote| == len)
      ensures wrote == Slice(Away(drives, a, second), offset, |wrote|)
      ensures !ok ==> Refusals() > old(Refusals()) || BlockedAway(drives, a, second, offset + len)
      decreases 0, 7
    {
      hide Write, Slice, IsContent, IsTable, Blocked;
      wrote := [];
      WriteNothing(ram, dst);
      NoSlice(Away(drives, a, second), offset);
      ok := Select(a.drive);
      if ok {
        Invalidate();
        ghost var table, m := Follow(drives(drive), a.v), 0;
        ghost var content := Away(drives, a, second);
        ok, m := ReadRange(content, table, a.v, a.FileOf(second), offset, len, dst, null);
        wrote := Slice(content, offset, m);
        if !ok {
          ExcusedMeans(table, a.v, a.FileOf(second), offset, len, old(Refusals()));
        }
      }
    }

    /**
     * load_file(): up to ATTEMPTS reads, each from the first byte not yet
     * delivered, with the cached sectors dropped in between.
     */
    method LoadFile(lc: Load) returns (ok: bool)
      requires Valid() && Loading(lc) && lc.done == 0
      modifies this, lc
      ensures Valid() && contained == old(contained) && drive == old(drive)
      // every byte was reported once and in order; RAM holds it still, or what a drive with the same files has in its place
      ensures lc.done <= lc.len && (ok ==> lc.done == lc.len) && lc.AltValid(drives)
      ensures Delivered(lc.content, lc.fileOff, lc.done, ram, lc.base, lc.landed, lc.elsewhere, lc.Other(drives))
      ensures Untouched(old(ram), ram, lc.scratch, lc.base, lc.base + lc.done)
      // and giving up has a reason: one no drive could help, or a refused read in each of the attempts
      ensures !ok ==> Excused(lc.table, lc.v, lc.file, lc.fileOff + lc.done, lc.len - lc.done, old(Refusals()))
      ensures !ok ==> Blocked(lc.table, lc.v, lc.file, lc.fileOff + lc.len) || Refusals() >= old(Refusals()) + ATTEMPTS
      ensures Willing(refuses) && !Blocked(lc.table, lc.v, lc.file, lc.fileOff + lc.len) ==> ok
    {
      hide InRam, Slice, Excused, Blocked, Untouched, IsContent, IsTable, Willing, Refused, SameFiles, Away, Mounted, Delivered;
      var t := 0;
      ok := false;
      SameUntouched(ram, lc.scratch, lc.base, lc.base + lc.done);
      while !ok && t < ATTEMPTS
        invariant 0 <= t <= ATTEMPTS
        invariant Valid() && contained == old(contained) && drive == old(drive) && Loading(lc) && Refusals() >= old(Refusals())
        invariant Untouched(old(ram), ram, lc.scratch, lc.base, lc.base + lc.done)
        invariant ok ==> lc.done == lc.len
        invariant t > 0 && !ok ==> Excused(lc.table, lc.v, lc.file, lc.fileOff + lc.done, lc.len - lc.done, old(Refusals()))
        invariant Blocked(lc.table, lc.v, lc.file, lc.fileOff + lc.len) || Refusals() >= old(Refusals()) + t
        decreases ATTEMPTS - t, !ok
      {
        ghost var before, upTo, was := ram, lc.base + lc.done, Refusals();
        ok := Attempt(lc);
        UntouchedMore(old(ram), before, ram, lc.scratch, lc.base, upTo, lc.base + lc.done);
        if !ok {
          StillExcused(lc.table, lc.v, lc.file, lc.fileOff + lc.done, lc.len - lc.done, was, old(Refusals()));
          t := t + 1;
        }
      }
      InRamLanded(lc.content, lc.fileOff, lc.done, ram, lc.base, lc.landed, lc.elsewhere, lc.Other(drives));
      if Willing(refuses) {
        NothingRefused(refuses, accesses);
      }
    }

    lemma StillExcused(table: Table, v: Volume, file: File, offset: nat, length: nat, was: nat, earlier: nat)
      requires Excused(table, v, file, offset, length, was) && earlier <= was
      ensures Excused(table, v, file, offset, length, earlier)
    {
      hide Hops, ClusterOf;
    }

    /** One attempt, from the first byte not yet delivered; after a failure the cached sectors are dropped. */
    method Attempt(lc: Load) returns (ok: bool)
      requires Valid() && Loading(lc)
      modifies this, lc
      ensures Valid() && contained == old(contained) && drive == old(drive) && Refusals() >= old(Refusals())
      ensures Loading(lc) && lc.done >= old(lc.done) && Untouched(old(ram), ram, lc.scratch, lc.base, lc.base + lc.done)
      ensures ok ==> lc.done == lc.len
      ensures !ok ==> Excused(lc.table, lc.v, lc.file, lc.fileOff + lc.done, lc.len - lc.done, old(Refusals()))
      ensures !ok ==> Blocked(lc.table, lc.v, lc.file, lc.fileOff + lc.len) || Refusals() > old(Refusals())
    {
      hide InRam, Slice, Untouched, IsContent, IsTable, Hops, ClusterOf;
      ghost var m;
      ok, m := ReadRange(lc.content, lc.table, lc.v, lc.file, lc.fileOff + lc.done, lc.len - lc.done, lc.base + lc.done, lc);
      if !ok {
        Invalidate();
        ExcusedMeans(lc.table, lc.v, lc.file, lc.fileOff + lc.done, lc.len - lc.done, old(Refusals()));
      }
    }

    /** fat_offset_lba(): the sector that holds byte `offset`. */
    method OffsetLba(ghost table: Table, v: Volume, file: File, offset: nat) returns (ok: bool, lba: nat)
      requires Valid() && Mounted(v) && IsTable(table, drives(drive), v)
      modifies this`slot1, this`slot2, this`error, this`contained, this`accesses
      ensures Valid() && contained == old(contained) && Refusals() >= old(Refusals())
      ensures ok ==> offset < file.size && lba == SectorLba(table, v, file.firstCluster, offset / SECTOR)
      ensures ok ==> v.dataStart <= lba < VolumeEnd(v)
      ensures !ok && offset < file.size && InRange(v.totalClusters, file.firstCluster) ==>
        Stopped(table, v, file.firstCluster, ClusterOf(v, offset), old(Refusals()))
    {
      hide Hops, Nth, Told, Times, ClusterOf;
      lba := 0;
      if offset >= file.size || !InRange(v.totalClusters, file.firstCluster) {
        return false, 0;
      }
      ghost var pos;
      var cur;
      ClusterOfIsIn(v, offset);
      ok, cur, pos := Seek(table, v, file.firstCluster, offset, ClusterOf(v, offset), offset);
      if !ok {
        return;
      }
      lba := ClusterLba(v, cur.w.cluster) + cur.sic;
      TimesOne(v.sectorsPerCluster);
      RunInVolume(v, cur.w.cluster, 0, cur.sic, 1);
      RunSector(table, v, file.firstCluster, pos, cur.w.cluster, 0, cur.sic);
      SectorOf(Times(pos, v.sectorsPerCluster) + cur.sic, cur.soff);
    }

    /** fat_mount(): both slots are dropped first, then the boot sector decides. */
    method Mount(partitionLba: nat, partitionSectors: nat) returns (ok: bool, v: Volume)
      requires Valid() && partitionLba + partitionSectors <= FatMount.TWO64
      modifies this`slot1, this`slot2, this`accesses
      ensures Valid() && !slot1.valid && !slot2.valid && old(Refusals()) <= Refusals() <= old(Refusals()) + 1
      ensures ok <==> Refusals() == old(Refusals()) && FatMount.WellFormed(FatMount.Decode(drives(drive)(partitionLba)), partitionSectors)
      ensures ok ==> FatMount.Mount(FatMount.Decode(drives(drive)(partitionLba)), partitionLba, partitionSectors) == Some(v)
      ensures ok ==> Mounted(v) && partitionLba == v.partitionLba && VolumeEnd(v) <= partitionLba + partitionSectors
      ensures ok ==> InRange(v.totalClusters, v.rootCluster) && FatMount.WellFormed(FatMount.Decode(drives(drive)(partitionLba)), partitionSectors)
    {
      Invalidate();
      v := Volume(0, 0, 0, 0, 0, 0, 0, 0);
      ok := Access();
      if !ok {
        return;
      }
      var b := FatMount.Decode(drives(drive)(partitionLba));
      FatMount.MountExact(b, partitionLba, partitionSectors);
      match FatMount.Mount(b, partitionLba, partitionSectors)
      case None =>
        ok := false;
      case Some(w) =>
        FatMount.MountSound(b, partitionLba, partitionSectors);
        v := w;
    }

    /**
     * fat_find_in_dir(): the first entry with this name, if it is of the
     * wanted kind; entry number `at` of the directory.
     */
    method FindInDir(ghost content: Content, ghost table: Table, v: Volume, dir: nat, name: seq<Byte>, wantDir: bool)
      returns (ok: bool, found: Found, ghost at: nat)
      requires Valid() && Mounted(v) && IsTable(table, drives(drive), v) && IsContent(content, drives(drive), table, v, dir)
      modifies this`slot1, this`slot2, this`ioBuf, this`error, this`contained, this`accesses
      ensures Valid() && contained == old(contained) && Refusals() >= old(Refusals())
      ensures ok ==> FirstMatch(content, name, at) && found == EntryFile(DirEntry(content, at))
      ensures ok ==> (wantDir <==> IsDirectory(DirEntry(content, at)[11]))
      ensures !ok ==> Refusals() > old(Refusals()) || Missing(content, table, v, dir, name, wantDir, at)
    {
      NoHops(table, v.totalClusters, dir);
      hide Hops, Nth, Advance, DirEntry, IsDirectory;
      ok, found, at := false, Found(0, 0), 0;
      if !InRange(v.totalClusters, dir) {
        return;
      }
      var w := Start(dir);
      ghost var pos := 0;
      while true
        invariant Valid() && contained == old(contained) && Refusals() >= old(Refusals())
        invariant InRange(v.totalClusters, w.cluster) && Nth(table, dir, pos) == w.cluster && w.hops <= v.totalClusters + 1
        invariant NoneOf(content, name, 0, 16 * Times(pos, v.sectorsPerCluster))
        invariant Hops(table, v.totalClusters, dir, pos) == Moved(w)
        decreases v.totalClusters + 1 - w.hops
      {
        var scan;
        scan, at := ScanCluster(content, table, v, dir, pos, w.cluster, name);
        if scan.Match? && wantDir == IsDirectory(scan.e[11]) {
          return true, EntryFile(scan.e), at;
        }
        if !scan.NotHere? {
          return;
        }
        var hop, next := Hop(table, v, w);
        OneMoreHop(table, v.totalClusters, dir, pos, w);
        if !hop {
          at := 16 * Times(pos + 1, v.sectorsPerCluster);
          return;
        }
        HopOn(table, v.totalClusters, dir, pos, w, next);
        HopCounts(table, v.totalClusters, w, next);
        w := next;
        pos := pos + 1;
      }
    }

    /** The sectors of cluster number pos of a directory, one after the other. */
    method ScanCluster(ghost content: Content, ghost table: Table, v: Volume, dir: nat, ghost pos: nat, c: nat, name: seq<Byte>)
      returns (scan: Scan, ghost at: nat)
      requires Valid() && Mounted(v) && IsContent(content, drives(drive), table, v, dir)
      requires InRange(v.totalClusters, c) && Nth(table, dir, pos) == c
      requires NoneOf(content, name, 0, 16 * Times(pos, v.sectorsPerCluster))
      modifies this`ioBuf, this`contained, this`accesses
      ensures Valid() && contained == old(contained)
      ensures scan.Match? ==> FirstMatch(content, name, at) && scan.e == DirEntry(content, at)
      ensures scan.NotHere? ==> NoneOf(content, name, 0, 16 * Times(pos + 1, v.sectorsPerCluster))
      ensures scan.Stop? ==> Refusals() > old(Refusals()) || (NoneOf(content, name, 0, at) && DirEntry(content, at)[0] == 0)
      ensures Refusals() >= old(Refusals())
    {
      hide Nth, Sectors, Slice, PassedOver, DirEntry;
      at := 0;
      ghost var first := Times(pos, v.sectorsPerCluster);
      var s := 0;
      while s < v.sectorsPerCluster
        invariant 0 <= s <= v.sectorsPerCluster && Valid() && contained == old(contained) && Refusals() >= old(Refusals())
        invariant NoneOf(content, name, 0, 16 * (first + s))
      {
        RunInVolume(v, c, 0, s, 1);
        var read := ReadSectors(v, ClusterLba(v, c) + s, 1);
        if !read {
          return Stop, 0;
        }
        RunBytes(content, drives(drive), table, v, dir, pos, c, 0, s, 0, 1, SECTOR, (first + s) * SECTOR, ioBuf);
        scan, at := ScanSector(content, ioBuf[0..SECTOR], first + s, name);
        if !scan.NotHere? {
          return;
        }
        s := s + 1;
      }
      scan := NotHere;
    }

    /**
     * disk_select(): the drive is current even if it is found unusable, the
     * staging buffer may be overwritten by the probe, and the slots still hold
     * the other drive's sectors until they are dropped.
     */
    method Select(d: nat) returns (ok: bool)
      modifies this`drive, this`ioBuf, this`accesses
      ensures drive == d && |ioBuf| == |old(ioBuf)| && Refusals() == old(Refusals()) + if ok then 0 else 1
    {
      drive := d;
      assert |Zeros(|ioBuf|)| == |ioBuf|;
      var any: seq<Byte> :| |any| == |ioBuf|;
      ioBuf := any;
      ok := Access();
    }

    /** The volume of a drive's ESP, if it has one that can be mounted. */
    ghost function VolumeOn(d: nat): Option<Volume> {
      if partition(d).None? || partition(d).value.0 + partition(d).value.1 > FatMount.TWO64 then None
      else FatMount.Mount(FatMount.Decode(drives(d)(partition(d).value.0)), partition(d).value.0, partition(d).value.1)
    }

    /** Drive d cannot be a second source. */
    ghost predicate Unfit(d: nat, sum: M.PayloadSum) {
      VolumeOn(d).None? || VolumeOn(d).value.sectorsPerCluster == 0 || Lacks(drives(d), VolumeOn(d).value, sum)
    }

    /** What GPT or MBR says of the drive selected. */
    method FindPartition() returns (p: Option<(nat, nat)>)
      modifies this`accesses
      ensures Refusals() >= old(Refusals())
      ensures p.Some? ==> p == partition(drive)
      ensures p.None? ==> partition(drive).None? || Refusals() > old(Refusals())
    {
      var ok := Access();
      p := if ok then partition(drive) else None;
    }
  }

  /** One load (KERNEL or INITRD): struct load_ctx. */
  class Load {
    ghost const content: Content
    ghost const table: Table
    const v: Volume
    const file: File
    const fileOff: nat
    const len: nat
    const base: nat
    const scratch: nat        // where the low buffers start
    const initrd: bool
    const sum: M.PayloadSum   // the manifest of this boot
    var done: nat
    var probed: bool
    var alt: Option<Alt>
    ghost var landed: seq<Byte>  // the bytes in RAM when they were reported
    ghost var elsewhere: set<nat>  // the offsets whose bytes now in RAM came from another drive

    constructor (ghost content: Content, ghost table: Table, v: Volume, file: File, fileOff: nat, len: nat, base: nat, scratch: nat,
                 initrd: bool, sum: M.PayloadSum, probed: bool, alt: Option<Alt>)
      ensures IsOf(content, table, v, file) && this.fileOff == fileOff && this.len == len && this.base == base && this.scratch == scratch
      ensures this.initrd == initrd && this.sum == sum && this.probed == probed && this.alt == alt
      ensures done == 0 && landed == [] && elsewhere == {}
    {
      this.content, this.table, this.v, this.file := content, table, v, file;
      this.fileOff, this.len, this.base, this.scratch := fileOff, len, base, scratch;
      this.initrd, this.sum, this.probed, this.alt := initrd, sum, probed, alt;
      done, landed, elsewhere := 0, [], {};
    }

    ghost predicate IsOf(content: Content, table: Table, v: Volume, file: File) {
      this.content == content && this.table == table && this.v == v && this.file == file
    }

    /** A second source that has been found is a mounted volume with the same two files. */
    ghost predicate AltValid(drives: nat -> Disk)
      reads this`alt, this`probed
    {
      alt.Some? ==> probed && Mounted(alt.value.v) && SameFiles(drives(alt.value.drive), alt.value, sum)
    }

    /** What the second source has of the file. */
    ghost function Other(drives: nat -> Disk): Option<Content>
      reads this`alt
    {
      if alt.None? || alt.value.v.sectorsPerCluster == 0 then None
      else Some(Away(drives, alt.value, initrd))
    }

    /** The load is of a file on the drive d. */
    ghost predicate Describes(d: Disk) {
      && Mounted(v) && IsTable(table, d, v) && IsContent(content, d, table, v, file.firstCluster)
      && scratch + LOW <= base
    }
  }

  // ---- Paths and second sources ----

  const EFI := Ascii("EFI")
  const ALPINE := Ascii("ALPINE")
  const KERNEL := Ascii("KERNEL")
  const INITRD := Ascii("INITRD")
  const CHECKSUM := Ascii("CHECKSUM")

  /** fat_pack_name(): a component as directory entries hold it. */
  function Pack(component: seq<Byte>): seq<Byte>
    requires |component| <= 8
  {
    component + seq(11 - |component|, _ => 0x20)
  }

  /** /EFI/ALPINE/leaf */
  function PathOf(leaf: seq<Byte>): seq<seq<Byte>>
    requires |leaf| <= 8
  {
    [Pack(EFI), Pack(ALPINE), Pack(leaf)]
  }

  function Listing(d: Disk, v: Volume, dir: nat): Content
    requires v.sectorsPerCluster > 0
  {
    ContentOf(d, Follow(d, v), v, dir)
  }

  /** Entry `at` of a directory is the first with the name and of the wanted kind. */
  ghost predicate Leads(d: Disk, v: Volume, dir: nat, name: seq<Byte>, wantDir: bool, at: nat)
    requires v.sectorsPerCluster > 0
  {
    FirstMatch(Listing(d, v, dir), name, at) && wantDir == IsDirectory(DirEntry(Listing(d, v, dir), at)[11])
  }

  /** The search of a directory finds nothing, for the reason `at` gives. */
  ghost predicate Gone(d: Disk, v: Volume, dir: nat, name: seq<Byte>, wantDir: bool, at: nat)
    requires v.sectorsPerCluster > 0
  {
    Missing(Listing(d, v, dir), Follow(d, v), v, dir, name, wantDir, at)
  }

  function Target(d: Disk, v: Volume, dir: nat, at: nat): File
    requires v.sectorsPerCluster > 0
  {
    var e := EntryFile(DirEntry(Listing(d, v, dir), at));
    File(e.cluster, e.size)
  }

  /** The path leads to the file. */
  ghost predicate Opens(d: Disk, v: Volume, dir: nat, names: seq<seq<Byte>>, file: File)
    requires v.sectorsPerCluster > 0
    decreases |names|
  {
    if |names| == 0 then false
    else if |names| == 1 then exists at :: Leads(d, v, dir, names[0], false, at) && file == Target(d, v, dir, at)
    else exists at :: Leads(d, v, dir, names[0], true, at) && Opens(d, v, Target(d, v, dir, at).firstCluster, names[1..], file)
  }

  /** The path breaks off: some component is missing where it is looked for. */
  ghost predicate Closed(d: Disk, v: Volume, dir: nat, names: seq<seq<Byte>>)
    requires v.sectorsPerCluster > 0
    decreases |names|
  {
    if |names| == 0 then false
    else if |names| == 1 then exists at :: Gone(d, v, dir, names[0], false, at)
    else
      || (exists at :: Gone(d, v, dir, names[0], true, at))
      || (exists at :: Leads(d, v, dir, names[0], true, at) && Closed(d, v, Target(d, v, dir, at).firstCluster, names[1..]))
  }

  lemma OpensStep(d: Disk, v: Volume, dir: nat, names: seq<seq<Byte>>, at: nat)
    requires v.sectorsPerCluster > 0 && names != []
    ensures Leads(d, v, dir, names[0], |names| > 1, at) ==>
      var f := Target(d, v, dir, at);
      if |names| == 1 then Opens(d, v, dir, names, f)
      else
        && (forall g :: Opens(d, v, f.firstCluster, names[1..], g) ==> Opens(d, v, dir, names, g))
        && (Closed(d, v, f.firstCluster, names[1..]) ==> Closed(d, v, dir, names))
    ensures Gone(d, v, dir, names[0], |names| > 1, at) ==> Closed(d, v, dir, names)
  {
    hide Gone, Leads;
  }

  /** Another drive, its volume, and the two files on it. */
  datatype Alt = Alt(drive: nat, v: Volume, kernel: File, initrd: File) {
    function FileOf(second: bool): File { if second then initrd else kernel }
  }

  /** What it has of one of the two. */
  ghost function Away(drives: nat -> Disk, a: Alt, second: bool): Content
    requires a.v.sectorsPerCluster > 0
  {
    Listing(drives(a.drive), a.v, a.FileOf(second).firstCluster)
  }

  /** It cannot serve the file up to `end`, whatever its drive does. */
  ghost predicate BlockedAway(drives: nat -> Disk, a: Alt, second: bool, end: nat)
    requires a.v.sectorsPerCluster > 0
  {
    Blocked(Follow(drives(a.drive), a.v), a.v, a.FileOf(second), end)
  }

  const NO_ALT := Alt(0, Volume(0, 0, 0, 0, 0, 0, 0, 0), File(0, 0), File(0, 0))

  function Text(d: Disk, v: Volume, file: File): seq<Byte>
    requires v.sectorsPerCluster > 0
  {
    Slice(Listing(d, v, file.firstCluster), 0, file.size)
  }

  function Chars(b: seq<Byte>): (t: string)
    ensures |t| == |b|
  {
    seq(|b|, i requires 0 <= i < |b| => b[i] as char)
  }

  /** Two manifests of the same kernel and initrd. */
  predicate SamePayload(m: M.PayloadSum, sum: M.PayloadSum) {
    m.kernel == sum.kernel && m.initrd.size == sum.initrd.size && m.initrd.sha == sum.initrd.sha
  }

  /** The text is a manifest of the same kernel and initrd; one that a comparison runs past may be taken for any. */
  ghost predicate Describes(text: string, sum: M.PayloadSum) {
    M.Unambiguous(text) ==> M.Parse(text).Parsed? && SamePayload(M.Parse(text).sum, sum)
  }

  /** The drive carries both files, and a manifest beside them that describes what this boot loads. */
  ghost predicate SameFiles(d: Disk, a: Alt, sum: M.PayloadSum) {
    && a.v.sectorsPerCluster > 0
    && Opens(d, a.v, a.v.rootCluster, PathOf(KERNEL), a.kernel) && a.kernel.size == sum.kernel.size
    && Opens(d, a.v, a.v.rootCluster, PathOf(INITRD), a.initrd) && a.initrd.size == sum.initrd.size
    && exists file ::
         && Opens(d, a.v, a.v.rootCluster, PathOf(CHECKSUM), file) && 0 < file.size <= SECTOR
         && Describes(Chars(Text(d, a.v, file)), sum)
  }

  /** The volume is no second source: a path breaks off, or what it leads to is something else. */
  ghost predicate Lacks(d: Disk, v: Volume, sum: M.PayloadSum)
    requires v.sectorsPerCluster > 0
  {
    || Closed(d, v, v.rootCluster, PathOf(KERNEL))
    || Closed(d, v, v.rootCluster, PathOf(INITRD))
    || Closed(d, v, v.rootCluster, PathOf(CHECKSUM))
    || exists kernel, initrd, file ::
         && Opens(d, v, v.rootCluster, PathOf(KERNEL), kernel) && Opens(d, v, v.rootCluster, PathOf(INITRD), initrd)
         && Opens(d, v, v.rootCluster, PathOf(CHECKSUM), file) && Differs(d, v, sum, kernel, initrd, file)
  }

  /** A manifest of no sensible size, one that cannot be read or does not say the same, or files of another size. */
  ghost predicate Differs(d: Disk, v: Volume, sum: M.PayloadSum, kernel: File, initrd: File, file: File)
    requires v.sectorsPerCluster > 0
  {
    || file.size == 0 || file.size > SECTOR || Blocked(Follow(d, v), v, file, file.size)
    || kernel.size != sum.kernel.size || initrd.size != sum.initrd.size
    || var text := Chars(Text(d, v, file));
       M.Unambiguous(text) ==> !(M.Parse(text).Parsed? && SamePayload(M.Parse(text).sum, sum))
  }

  // ---- RAM ----

  lemma SameUntouched(ram: seq<Byte>, scratch: nat, base: nat, upTo: nat)
    requires scratch + LOW <= base <= upTo <= |ram|
    ensures Untouched(ram, ram, scratch, base, upTo)
  {
  }

  /** Outside the low buffers and the delivered part [base, upTo), RAM is as it was. */
  ghost predicate Untouched(ram: seq<Byte>, ram': seq<Byte>, scratch: nat, base: nat, upTo: nat) {
    && |ram| == |ram'| && scratch + LOW <= base <= upTo <= |ram|
    && ram[..scratch] == ram'[..scratch]
    && ram[scratch + LOW..base] == ram'[scratch + LOW..base]
    && ram[upTo..] == ram'[upTo..]
  }

  lemma UntouchedSize(ram: seq<Byte>, ram': seq<Byte>, scratch: nat, base: nat, upTo: nat)
    requires Untouched(ram, ram', scratch, base, upTo)
    ensures |ram| == |ram'| && scratch + LOW <= base <= upTo <= |ram|
  {
  }

  lemma UntouchedMore(a: seq<Byte>, b: seq<Byte>, c: seq<Byte>, scratch: nat, base: nat, upTo: nat, upTo': nat)
    requires Untouched(a, b, scratch, base, upTo) && Untouched(b, c, scratch, base, upTo') && upTo <= upTo'
    ensures Untouched(a, c, scratch, base, upTo')
  {
    assert a[upTo'..] == a[upTo..][upTo' - upTo..];
    assert b[upTo'..] == b[upTo..][upTo' - upTo..];
  }

  lemma WriteMore(content: Content, offset: nat, m: nat, n: nat, ram: seq<Byte>, dst: nat)
    requires dst + m + n <= |ram|
    ensures Write(Write(ram, dst, Slice(content, offset, m)), dst + m, Slice(content, offset + m, n))
            == Write(ram, dst, Slice(content, offset, m + n))
  {
    SliceAppend(content, offset, m, n);
    WriteTwice(ram, dst, Slice(content, offset, m), Slice(content, offset + m, n));
  }

  lemma WriteTwice(ram: seq<Byte>, dst: nat, a: seq<Byte>, b: seq<Byte>)
    requires dst + |a| + |b| <= |ram|
    ensures Write(Write(ram, dst, a), dst + |a|, b) == Write(ram, dst, a + b)
  {
  }

  /**
   * The bytes reported so far are the file's. RAM still holds every one that
   * was not fetched from the second source since, and for those what that
   * source has in their place.
   */
  ghost predicate InRam(content: Content, fileOff: nat, done: nat, ram: seq<Byte>, base: nat, landed: seq<Byte>,
                        elsewhere: set<nat>, other: Option<Content>) {
    && base + done <= |ram|
    && landed == Slice(content, fileOff, done)
    && (forall p :: base <= p < base + done && p - base !in elsewhere ==> ram[p] == content(fileOff + (p - base)))
    && (forall i :: i in elsewhere ==> i < done && other.Some? && ram[base + i] == other.value(fileOff + i))
  }

  /**
   * Each byte was the file's when it was reported. Without a second source
   * RAM holds it still; with one it does where nothing came from there since,
   * and what that source has everywhere else.
   */
  ghost predicate Delivered(content: Content, fileOff: nat, done: nat, ram: seq<Byte>, base: nat, landed: seq<Byte>,
                            elsewhere: set<nat>, other: Option<Content>) {
    && landed == Slice(content, fileOff, done) && base + done <= |ram|
    && (forall p :: base <= p < base + done && p - base !in elsewhere ==> ram[p] == landed[p - base])
    && (other.None? ==> elsewhere == {})
    && (forall i :: i in elsewhere ==> i < done && other.Some? && ram[base + i] == other.value(fileOff + i))
  }

  lemma InRamLanded(content: Content, fileOff: nat, done: nat, ram: seq<Byte>, base: nat, landed: seq<Byte>,
                    elsewhere: set<nat>, other: Option<Content>)
    requires InRam(content, fileOff, done, ram, base, landed, elsewhere, other)
    ensures Delivered(content, fileOff, done, ram, base, landed, elsewhere, other)
  {
    forall p | base <= p < base + done && p - base !in elsewhere ensures ram[p] == landed[p - base] {
      SliceAt(content, fileOff, done, p - base);
    }
  }

  /** A second source that is found before anything came from one changes nothing. */
  lemma InRamFound(content: Content, fileOff: nat, done: nat, ram: seq<Byte>, base: nat, landed: seq<Byte>,
                   elsewhere: set<nat>, other: Option<Content>)
    requires InRam(content, fileOff, done, ram, base, landed, elsewhere, None)
    ensures InRam(content, fileOff, done, ram, base, landed, elsewhere, other)
  {
  }

  /** A piece written behind what has landed extends it. */
  lemma Landing(content: Content, fileOff: nat, done: nat, n: nat, ram0: seq<Byte>, ram: seq<Byte>, ram': seq<Byte>,
                scratch: nat, base: nat, landed: seq<Byte>, elsewhere: set<nat>, other: Option<Content>)
    requires base + done + n <= |ram| && Untouched(ram0, ram, scratch, base, base + done)
    requires InRam(content, fileOff, done, ram, base, landed, elsewhere, other)
    requires ram' == Write(ram, base + done, Slice(content, fileOff + done, n))
    ensures InRam(content, fileOff, done + n, ram', base, landed + ram'[base + done..base + done + n], elsewhere, other)
    ensures Untouched(ram0, ram', scratch, base, base + done + n)
  {
    hide Write, Slice, Untouched;
    UntouchedSize(ram0, ram, scratch, base, base + done);
    var piece := Slice(content, fileOff + done, n);
    SliceAppend(content, fileOff, done, n);
    WriteThere(ram, base + done, piece);
    WriteElsewhere(ram, base + done, piece);
    forall p | base <= p < base + done + n && p - base !in elsewhere
      ensures ram'[p] == content(fileOff + (p - base))
    {
      if p >= base + done {
        SliceAt(content, fileOff + done, n, p - base - done);
        assert ram'[base + done..base + done + n][p - base - done] == piece[p - base - done];
      }
    }
    HighWrite(ram, scratch, base, base + done + n, base + done, piece);
    UntouchedMore(ram0, ram, ram', scratch, base, base + done, base + done + n);
  }

  /** The offsets off .. off + m - 1. */
  function Offsets(off: nat, m: nat): (r: set<nat>)
    ensures forall i :: i in r <==> off <= i < off + m
  {
    if m == 0 then {} else Offsets(off, m - 1) + {off + m - 1}
  }

  /** Re-reading what has landed from the boot drive brings the file's bytes back. */
  lemma Rewritten(content: Content, fileOff: nat, done: nat, off: nat, m: nat,
                  ram: seq<Byte>, scratch: nat, base: nat, landed: seq<Byte>, elsewhere: set<nat>, other: Option<Content>)
    requires scratch + LOW <= base && off + m <= done
    requires InRam(content, fileOff, done, ram, base, landed, elsewhere, other)
    ensures var ram' := Write(ram, base + off, Slice(content, fileOff + off, m));
            && InRam(content, fileOff, done, ram', base, landed, elsewhere - Offsets(off, m), other)
            && Untouched(ram, ram', scratch, base, base + done)
  {
    hide Write, Offsets, Slice, Untouched;
    var data := Slice(content, fileOff + off, m);
    HighWrite(ram, scratch, base, base + done, base + off, data);
    var ram' := Write(ram, base + off, data);
    WriteThere(ram, base + off, data);
    WriteElsewhere(ram, base + off, data);
    forall p | base <= p < base + done && p - base !in elsewhere - Offsets(off, m)
      ensures ram'[p] == content(fileOff + (p - base))
    {
      var i := p - base;
      if off <= i < off + m {
        SliceAt(content, fileOff + off, m, i - off);
        assert ram'[p] == ram'[base + off..base + off + m][i - off] == data[i - off];
      } else {
        assert i !in Offsets(off, m) && ram'[p] == ram[p];
      }
    }
  }

  /** Bytes from the second source go to their own offsets and no others. */
  lemma Replaced(content: Content, fileOff: nat, done: nat, off: nat, m: nat,
                 ram: seq<Byte>, scratch: nat, base: nat, landed: seq<Byte>, elsewhere: set<nat>, other: Content)
    requires scratch + LOW <= base && off + m <= done
    requires InRam(content, fileOff, done, ram, base, landed, elsewhere, Some(other))
    ensures var ram' := Write(ram, base + off, Slice(other, fileOff + off, m));
            && InRam(content, fileOff, done, ram', base, landed, elsewhere + Offsets(off, m), Some(other))
            && Untouched(ram, ram', scratch, base, base + done)
  {
    hide Write, Offsets, Slice, Untouched;
    var data := Slice(other, fileOff + off, m);
    HighWrite(ram, scratch, base, base + done, base + off, data);
    var ram' := Write(ram, base + off, data);
    WriteThere(ram, base + off, data);
    WriteElsewhere(ram, base + off, data);
    forall p | base <= p < base + done && p - base !in elsewhere + Offsets(off, m)
      ensures ram'[p] == content(fileOff + (p - base))
    {
      assert p - base !in Offsets(off, m) && ram'[p] == ram[p];
    }
    forall i | i in elsewhere + Offsets(off, m) ensures i < done && ram'[base + i] == other(fileOff + i) {
      if off <= i < off + m {
        SliceAt(other, fileOff + off, m, i - off);
        assert ram'[base + i] == ram'[base + off..base + off + m][i - off] == data[i - off];
      } else {
        assert i in elsewhere && ram'[base + i] == ram[base + i];
      }
    }
  }

  /** A write below the load leaves it alone. */
  lemma BelowLoad(content: Content, fileOff: nat, done: nat, at: nat, data: seq<Byte>,
                  ram: seq<Byte>, base: nat, landed: seq<Byte>, elsewhere: set<nat>, other: Option<Content>)
    requires at + |data| <= base && InRam(content, fileOff, done, ram, base, landed, elsewhere, other)
    ensures InRam(content, fileOff, done, Write(ram, at, data), base, landed, elsewhere, other)
  {
    hide Write;
    WriteElsewhere(ram, at, data);
  }

  lemma NoSlice(content: Content, offset: nat)
    ensures Slice(content, offset, 0) == []
  {
  }

  lemma MountedSpc(v: Volume)
    requires Mounted(v)
    ensures v.sectorsPerCluster > 0
  {
  }

  lemma OffsetsPart(off: nat, m: nat, n: nat)
    requires m <= n
    ensures Offsets(off, m) <= Offsets(off, n)
  {
  }

  lemma WriteThere(ram: seq<Byte>, at: nat, data: seq<Byte>)
    requires at + |data| <= |ram|
    ensures Write(ram, at, data)[at..at + |data|] == data
  {
  }

  /** A write into what has been delivered touches nothing else. */
  lemma HighWrite(ram: seq<Byte>, scratch: nat, base: nat, upTo: nat, at: nat, data: seq<Byte>)
    requires scratch + LOW <= base <= at && at + |data| <= upTo <= |ram|
    ensures Untouched(ram, Write(ram, at, data), scratch, base, upTo)
  {
    hide Write;
    WriteElsewhere(ram, at, data);
  }

  /** A write into the low buffers touches nothing else. */
  lemma LowWrite(ram: seq<Byte>, scratch: nat, base: nat, upTo: nat, at: nat, data: seq<Byte>)
    requires scratch + LOW <= base <= upTo <= |ram| && scratch <= at && at + |data| <= scratch + LOW
    ensures Untouched(ram, Write(ram, at, data), scratch, base, upTo)
  {
    hide Write;
    WriteElsewhere(ram, at, data);
  }

  lemma WriteElsewhere(ram: seq<Byte>, at: nat, data: seq<Byte>)
    requires at + |data| <= |ram|
    ensures forall p :: 0 <= p < |ram| && !(at <= p < at + |data|) ==> Write(ram, at, data)[p] == ram[p]
  {
  }

  lemma WriteNothing(ram: seq<Byte>, at: nat)
    requires at <= |ram|
    ensures Write(ram, at, []) == ram
  {
  }

  /** A run never leaves the data region. */
  lemma RunInVolume(v: Volume, c: nat, j: nat, sic: nat, n: nat)
    requires c >= 2 && c + j < v.totalClusters + 2 && sic + n <= Times(j + 1, v.sectorsPerCluster)
    ensures v.dataStart <= ClusterLba(v, c) + sic && ClusterLba(v, c) + sic + n <= VolumeEnd(v)
  {
    TimesSum(c - 2, j + 1, v.sectorsPerCluster);
    TimesSum(c - 1 + j, v.totalClusters - (c - 1 + j), v.sectorsPerCluster);
  }
}
