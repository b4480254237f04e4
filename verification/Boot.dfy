/**
 * The integrity decisions of bios/stage2_main.c, from reading the options to
 * the jump: which manifest is believed, which mode governs, what is checked
 * before, during and after loading, and when the boot stops.
 */
module Boot {
  import opened Bytes
  import opened HashChain
  import opened Manifest
  import opened Wrappers
  import Blk = BlkSum
  import Tool = ManifestTool
  import Verify = BlkVerify

  const ATTEMPTS := 10
  const MAX_MANIFEST := 512
  const MAX_KERNEL_SIZE := 48 * 1024 * 1024
  const MAX_INITRD_SIZE := 512 * 1024 * 1024

  /** Why a boot stopped: the three integrity reasons, or anything else. */
  datatype Why = LayoutDiffers | BlockStayedWrong | DigestDiffers | Other

  datatype Outcome = Jumped | Died(why: Why)

  /** The mode that governs a boot: command line over manifest. */
  function Effective(option: Option<string>, m: Mode): Mode {
    if option.Some? && ParseMode(option.value).Some? then ParseMode(option.value).value else m
  }

  /** Enforce is asked for: by the option if it names a mode, by MODE otherwise. */
  ghost predicate Asked(option: Option<string>, m: Mode) {
    if option.Some? && option.value in ["off", "warn", "enforce"] then option.value == "enforce" else m == Enforce
  }

  /** payload_sum_check_layout() */
  predicate Fits(e: Entry, size: nat, offset: nat) {
    e.size == size && e.offset == offset
  }

  /** A BLKSUM descriptor and a CHECKSUM entry for the same file. */
  predicate SameFile(b: Blk.FileEntry, e: Entry) {
    b.size == e.size && b.offset == e.offset && b.sha == e.sha
  }

  // ---- What the outside does during a boot ----

  /** A small file that can be opened: its size, and what read i of it gives. */
  datatype TextFile = TextFile(size: nat, read: nat -> Option<nat -> char>)

  function TextRead(file: TextFile, i: nat): Option<string> {
    match file.read(i)
    case None => None
    case Some(text) => Some(seq(file.size, j requires 0 <= j => text(j)))
  }

  /**
   * CHECKSUM and BLKSUM, if they can be opened, with what each attempt to
   * read them gives; whether the kernel header, the memory map and the
   * initrd's address are fine; and the two loads.
   */
  datatype World = World(
    checksum: Option<TextFile>,
    blksum: Option<nat -> Option<Sector>>,
    headerOk: bool, memoryOk: bool, addressOk: bool,
    kernel: Verify.Env, kernelOk: bool,
    initrd: Verify.Env, initrdOk: bool)

  /** A read of the manifest that is tried again: it failed, or what arrived is malformed. */
  ghost predicate Retried(r: Option<string>) {
    r.None? || Parse(r.value).Malformed?
  }

  /** What the reads from number i on settle, of ten. */
  ghost function Settled(file: TextFile, i: nat): Option<PayloadSum>
    requires i <= ATTEMPTS
    decreases ATTEMPTS - i
  {
    if i == ATTEMPTS then None
    else
      var r := TextRead(file, i);
      if Retried(r) then Settled(file, i + 1)
      else if Parse(r.value).Parsed? then Some(Parse(r.value).sum) else None
  }

  predicate Sensible(file: Option<TextFile>) {
    file.Some? && 0 < file.value.size <= MAX_MANIFEST
  }

  /** The manifest a boot is to believe. */
  ghost function Recorded(file: Option<TextFile>): Option<PayloadSum> {
    if Sensible(file) then Settled(file.value, 0) else None
  }

  /** It is the one the first read parses to that is not tried again, within ten. */
  lemma {:induction false} SettledIff(file: TextFile, i: nat, m: PayloadSum)
    requires i <= ATTEMPTS
    ensures Settled(file, i) == Some(m) <==>
      exists n :: i <= n < ATTEMPTS && TextRead(file, n).Some? && Parse(TextRead(file, n).value) == Parsed(m)
        && forall j :: i <= j < n ==> Retried(TextRead(file, j))
    decreases ATTEMPTS - i
  {
    hide Parse, TextRead;
    if i == ATTEMPTS {
    } else if Retried(TextRead(file, i)) {
      SettledIff(file, i + 1, m);
    } else {
      assert Parse(TextRead(file, i).value) == Parsed(m) ==> Settled(file, i) == Some(m);
    }
  }

  /** Every text that may be read is decided by its characters alone. */
  ghost predicate Decided(file: Option<TextFile>) {
    file.Some? ==> forall i :: 0 <= i < ATTEMPTS && TextRead(file.value, i).Some? ==> Unambiguous(TextRead(file.value, i).value)
  }

  /** The same for the header sector of the table. */
  ghost function HeaderSettled(f: Compressor, sectors: nat -> Option<Sector>, i: nat): Option<Blk.Header>
    requires i <= ATTEMPTS
    decreases ATTEMPTS - i
  {
    if i == ATTEMPTS then None
    else if sectors(i).None? || Blk.ParseHeader(f, sectors(i).value).Bad? then HeaderSettled(f, sectors, i + 1)
    else
      var r := Blk.ParseHeader(f, sectors(i).value);
      if r.Ok? then Some(r.header) else None
  }

  lemma {:induction false} HeaderSettledIff(f: Compressor, sectors: nat -> Option<Sector>, i: nat, h: Blk.Header)
    requires i <= ATTEMPTS
    ensures HeaderSettled(f, sectors, i) == Some(h) <==>
      exists n :: i <= n < ATTEMPTS && sectors(n).Some? && Blk.ParseHeader(f, sectors(n).value) == Blk.Ok(h)
        && forall j :: i <= j < n ==> sectors(j).None? || Blk.ParseHeader(f, sectors(j).value).Bad?
    decreases ATTEMPTS - i
  {
    hide Blk.ParseHeader;
    if i == ATTEMPTS {
    } else if sectors(i).None? || Blk.ParseHeader(f, sectors(i).value).Bad? {
      HeaderSettledIff(f, sectors, i + 1, h);
    } else {
      assert Blk.ParseHeader(f, sectors(i).value) == Blk.Ok(h) ==> HeaderSettled(f, sectors, i) == Some(h);
    }
  }

  /** The table is there, its header good, and it is for the files of the manifest. */
  ghost predicate TableFits(f: Compressor, sectors: Option<nat -> Option<Sector>>, m: PayloadSum) {
    && sectors.Some? && HeaderSettled(f, sectors.value, 0).Some?
    && var h := HeaderSettled(f, sectors.value, 0).value; SameFile(h.kernel, m.kernel) && SameFile(h.initrd, m.initrd)
  }

  /** Every entry of a table for `len` bytes can be read, and the last is the digest of the file. */
  ghost predicate EndsIn(env: Verify.Env, len: nat, sha: Digest) {
    var n := Verify.BlockCount(len);
    n > 0 && Verify.Readable(env, n) && env.entry(n - 1) == Some(sha)
  }

  class Stage2 {
    const f: Compressor
    const drive: Verify.Drive
    var cap: nat                // the transfer cap in force
    var sum: PayloadSum
    var sumLoaded: bool
    var blk: Blk.Header
    var blkLoaded: bool
    var kernelRam: seq<Byte>
    var initrdRam: seq<Byte>
    /** The manifest payload_sum_load() took, if any. */
    ghost var accepted: Option<PayloadSum>

    constructor (f: Compressor, drive: Verify.Drive, cap: nat)
      requires drive.Possible(cap)
      ensures this.f == f && this.drive == drive && this.cap == cap && !sumLoaded && !blkLoaded && accepted == None
    {
      this.f, this.drive, this.cap := f, drive, cap;
      var zero := Entry(0, 0, Zeros(32));
      sum, sumLoaded := PayloadSum(zero, zero, Warn), false;
      var none := Blk.FileEntry(0, 0, 0, 0, Zeros(32));
      blk, blkLoaded := Blk.Header(none, none), false;
      kernelRam, initrdRam := [], [];
      accepted := None;
    }

    /** The table, when there is one, is for the files of the manifest. */
    ghost predicate Agreed()
      reads this
    {
      blkLoaded ==>
        && Blk.FileOk(blk.kernel) && Blk.FileOk(blk.initrd)
        && SameFile(blk.kernel, sum.kernel) && SameFile(blk.initrd, sum.initrd)
    }

    /** While the manifest counts, it is the accepted one under the governing mode. */
    ghost predicate Governed(option: Option<string>)
      reads this
    {
      sumLoaded ==>
        && accepted.Some?
        && sum == accepted.value.(mode := Effective(option, accepted.value.mode))
        && sum.mode != Off
    }

    /** The manifest takes part in the boot: one was accepted and the mode is not off. */
    ghost predicate Counts(option: Option<string>)
      reads this`accepted
    {
      accepted.Some? && Effective(option, accepted.value.mode) != Off
    }

    /** A manifest was accepted and enforce governs this boot. */
    ghost predicate Enforced(option: Option<string>)
      reads this`accepted
    {
      accepted.Some? && Effective(option, accepted.value.mode) == Enforce
    }

    /** payload_sum_load(): a file of a sensible size is read and parsed, at most ten times. */
    method LoadManifest(file: Option<TextFile>)
      requires !sumLoaded && accepted == None
      modifies this`sum, this`sumLoaded, this`accepted
      ensures sumLoaded <==> accepted.Some?
      ensures sumLoaded ==> accepted == Some(sum)
      ensures Decided(file) ==> accepted == Recorded(file)
      ensures accepted.Some? ==> Sensible(file) && InOrder(Parsed(accepted.value))
    {
      hide Parse, TextRead, Unambiguous;
      if file.None? || file.value.size == 0 || file.value.size > MAX_MANIFEST {
        return;
      }
      var r := Malformed;
      var i := 0;
      while i < ATTEMPTS
        invariant 0 <= i <= ATTEMPTS
        invariant !sumLoaded && accepted == None && r.Malformed?
        invariant Decided(file) ==> Settled(file.value, 0) == Settled(file.value, i)
      {
        var text := TextRead(file.value, i);
        r := Malformed;
        if text.Some? {
          r := ParseText(text.value);
          if r.Parsed? {
            sum := r.sum;
          } else {
            sum := *;
          }
          if !r.Malformed? {
            break;
          }
        }
        i := i + 1;
      }
      if r.Parsed? {
        sumLoaded := true;
        accepted := Some(sum);
      }
    }

    /** payload_sum_check_file(): only enforce stops; any other mode stops checking. */
    method CheckFile(e: Entry, size: nat, offset: nat) returns (died: bool)
      modifies this`sumLoaded
      ensures died <==> old(sumLoaded) && !Fits(e, size, offset) && sum.mode == Enforce
      ensures sumLoaded <==> old(sumLoaded) && (Fits(e, size, offset) || died)
    {
      if !sumLoaded || Fits(e, size, offset) {
        return false;
      }
      if sum.mode == Enforce {
        return true;
      }
      sumLoaded := false;
      return false;
    }

    /** blksum_load(): the table is used exactly when its header is good and agrees with the manifest. */
    method LoadTable(file: Option<nat -> Option<Sector>>)
      requires !blkLoaded
      modifies this`blk, this`blkLoaded
      ensures Agreed()
      ensures blkLoaded <==> sumLoaded && TableFits(f, file, sum)
      ensures blkLoaded ==> blk == HeaderSettled(f, file.value, 0).value
    {
      hide Blk.ParseHeader;
      if !sumLoaded || file.None? {
        return;
      }
      var r := Blk.Bad;
      var t := 0;
      while t < ATTEMPTS && r.Bad?
        invariant 0 <= t <= ATTEMPTS && !blkLoaded
        invariant if r.Bad? then HeaderSettled(f, file.value, 0) == HeaderSettled(f, file.value, t)
          else HeaderSettled(f, file.value, 0) == (if r.Ok? then Some(r.header) else None)
        invariant r.Ok? ==> Blk.FileOk(r.header.kernel) && Blk.FileOk(r.header.initrd)
      {
        var sec := file.value(t);
        if sec.Some? {
          r := Blk.ReadHeader(f, sec.value);
          if r.Ok? {
            Blk.HeaderIsOk(f, sec.value);
          }
        }
        t := t + 1;
      }
      if !r.Ok? {
        return;
      }
      blk := r.header;
      if SameFile(blk.kernel, sum.kernel) && SameFile(blk.initrd, sum.initrd) {
        blkLoaded := true;
      }
    }

    /** read_options(): the mode, the two sizes, and the table. */
    method ReadOptions(option: Option<string>, kernelSize: nat, initrdSize: nat, w: World) returns (died: bool)
      requires !sumLoaded && !blkLoaded && accepted == None
      modifies this`sum, this`sumLoaded, this`accepted, this`blk, this`blkLoaded
      ensures Decided(w.checksum) ==> accepted == Recorded(w.checksum)
      ensures accepted.Some? ==> Sensible(w.checksum) && InOrder(Parsed(accepted.value))
      ensures Governed(option)
      ensures died <==> Enforced(option) && !SizesFit(kernelSize, initrdSize)
      ensures !died ==> (sumLoaded <==> Counts(option) && SizesFit(kernelSize, initrdSize))
      ensures !died ==> Agreed() && (blkLoaded <==> sumLoaded && TableFits(f, w.blksum, accepted.value))
    {
      hide Parse, Recorded, Decided, HeaderSettled;
      LoadManifest(w.checksum);
      if sumLoaded {
        sum := sum.(mode := Effective(option, sum.mode));
        if sum.mode == Off {
          sumLoaded := false;
        }
      }
      died := CheckFile(sum.kernel, kernelSize, sum.kernel.offset);
      if !died {
        died := CheckFile(sum.initrd, initrdSize, 0);
      }
      if !died {
        LoadTable(w.blksum);
      }
    }

    ghost predicate SizesFit(kernelSize: nat, initrdSize: nat)
      requires accepted.Some?
      reads this`accepted
    {
      accepted.value.kernel.size == kernelSize && Fits(accepted.value.initrd, initrdSize, 0)
    }

    /**
     * load_file(): without a table RAM is what arrives. With one every block
     * is judged; enforce stops for one that stays wrong, and when it does not
     * stop and the table ends in the manifest's digest, RAM has that digest.
     */
    method LoadFile(e: Entry, b: Blk.FileEntry, len: nat, env: Verify.Env, readOk: bool, ghost payload: seq<Byte>) returns (ram: seq<Byte>, why: Option<Why>)
      requires len <= MAX_INITRD_SIZE && |payload| == len && drive.Possible(cap)
      requires blkLoaded && sumLoaded ==> Blk.FileOk(b) && SameFile(b, e) && e.size - e.offset == len
      modifies this`cap
      ensures |ram| == len && drive.Possible(cap) && cap <= old(cap)
      ensures why == Some(Other) <==> !readOk
      ensures why.None? || why == Some(Other) || why == Some(BlockStayedWrong)
      ensures !(blkLoaded && sumLoaded) ==> ram == Verify.Taken(env.arrives, 0, len) && why != Some(BlockStayedWrong)
      ensures blkLoaded && sumLoaded ==> Verify.Explained(f, env, drive, ram)
      // a stop for a block: enforce, and a block for which nothing that can be read is right
      ensures why == Some(BlockStayedWrong) ==> sum.mode == Enforce && Verify.Spoilt(f, env, drive, len)
      ensures readOk && blkLoaded && sumLoaded && sum.mode == Enforce && Verify.Hopeless(f, env, drive, len) ==> why == Some(BlockStayedWrong)
      ensures why.None? && blkLoaded && sumLoaded && sum.mode == Enforce && EndsIn(env, len, e.sha) ==> Hash(f, ram) == e.sha
      // the file's own bytes, judged by its own table, are taken as they are
      ensures Verify.Faithful(f, env, payload) ==> ram == payload && why != Some(BlockStayedWrong)
    {
      hide Hash, Verify.Explained, Verify.Spoilt, Verify.Hopeless, EndsIn;
      if !(blkLoaded && sumLoaded) {
        ram := Verify.Taken(env.arrives, 0, len);
        cap := drive.Shrunk(cap, env.arrivesCap(len));
        Arrived(f, env, payload);
        return ram, if readOk then None else Some(Other);
      }
      ram, why := CheckedLoad(e, b, len, env, payload);
      if !readOk {
        why := Some(Other);
      }
    }

    /** The load with every block judged as it lands. */
    method CheckedLoad(e: Entry, b: Blk.FileEntry, len: nat, env: Verify.Env, ghost payload: seq<Byte>) returns (ram: seq<Byte>, why: Option<Why>)
      requires len <= MAX_INITRD_SIZE && |payload| == len && drive.Possible(cap)
      requires Blk.FileOk(b) && SameFile(b, e) && e.size - e.offset == len
      modifies this`cap
      ensures |ram| == len && drive.Possible(cap) && cap <= old(cap)
      ensures Verify.Explained(f, env, drive, ram)
      ensures why.None? || why == Some(BlockStayedWrong)
      ensures why.Some? ==> sum.mode == Enforce && Verify.Spoilt(f, env, drive, len)
      ensures sum.mode == Enforce && Verify.Hopeless(f, env, drive, len) ==> why.Some?
      ensures why.None? && sum.mode == Enforce && EndsIn(env, len, e.sha) ==> Hash(f, ram) == e.sha
      ensures Verify.Faithful(f, env, payload) ==> ram == payload && why.None?
    {
      hide Hash, Verify.Accounted, Verify.Explained, Verify.Spoilt, Verify.Hopeless, Verify.CountsOf, Verify.Legal, Verify.Balanced, Verify.Faithful;
      var hooks := new Verify.Hooks(env, drive, Zeros(len), cap);
      var engine := new Verify.Engine(f, hooks, len, b.nblocks, 512);
      engine.Load();
      ram, cap := hooks.ram, hooks.cap;
      why := if engine.bad != 0 && sum.mode == Enforce then Some(BlockStayedWrong) else None;
      Told(engine, payload);
    }

    /** What a load that has ended says of the outside. */
    lemma Told(engine: Verify.Engine, payload: seq<Byte>)
      requires engine.Valid() && engine.landed == engine.length == |payload| && engine.next == engine.nblocks
      requires Verify.Accounted(engine.f, engine.h.env, engine.h.drive, engine.h.ram, engine.table, engine.caps, engine.verdicts, engine.length)
      ensures Verify.Explained(engine.f, engine.h.env, engine.h.drive, engine.h.ram)
      ensures engine.bad > 0 ==> Verify.Spoilt(engine.f, engine.h.env, engine.h.drive, engine.length)
      ensures Verify.Hopeless(engine.f, engine.h.env, engine.h.drive, engine.length) ==> engine.bad > 0
      ensures Verify.Faithful(engine.f, engine.h.env, payload) ==> engine.h.ram == payload && engine.bad == 0
    {
      hide Verify.Accounted, Verify.CountsOf, Verify.Legal, Verify.Spoilt, Verify.Faithful, Verify.HopelessBlock;
      var f, env, d := engine.f, engine.h.env, engine.h.drive;
      if engine.bad > 0 {
        Verify.BadIsSpoilt(f, env, d, engine.h.ram, engine.table, engine.caps, engine.verdicts);
      }
      if Verify.Hopeless(f, env, d, engine.length) {
        var k :| Verify.HopelessBlock(f, env, d, engine.length, k);
        Verify.HopelessReached(f, env, d, engine.length, k, engine.h.cap);
        Verify.HopelessIsBad(f, env, d, engine.h.ram, engine.table, engine.caps, engine.verdicts, k);
      }
      if Verify.Faithful(f, env, payload) {
        Verify.FaithfulLoad(f, env, d, engine.h.ram, engine.table, engine.caps, engine.verdicts, payload);
      }
    }

    /** payload_sum_verify(): the bytes in RAM, hashed a buffer at a time. */
    method DigestOf(ram: seq<Byte>, buffer: nat, want: Digest) returns (differs: bool)
      requires |ram| < TWO32 && buffer > 0
      ensures differs <==> Hash(f, ram) != want
    {
      hide Absorb, HashChain.Finish, Hash;
      var c := new Context(f);
      var left := |ram|;
      AbsorbedNothing(f);
      assert ram[..0] == [];
      while left > 0
        invariant 0 <= left <= |ram|
        invariant c.Valid() && fresh(c) && c.f == f && c.View() == Absorb(f, INIT, ram[..|ram| - left])
      {
        var n := if left < buffer then left else buffer;
        var p := |ram| - left;
        AbsorbAppend(f, INIT, ram[..p], ram[p..p + n]);
        assert ram[..p] + ram[p..p + n] == ram[..p + n];
        c.Update(ram[p..p + n]);
        left := left - n;
      }
      assert ram[..|ram|] == ram;
      FinishIsHash(f, ram);
      var got := c.Final();
      differs := got != want;
    }

    /** verify_loaded(): both ranges, right before the jump. */
    method VerifyLoaded(buffer: nat) returns (died: bool)
      requires |kernelRam| < TWO32 && |initrdRam| < TWO32 && buffer > 0
      ensures died <==> sumLoaded && sum.mode == Enforce && !Loaded(sum)
    {
      if !sumLoaded {
        return false;
      }
      var badKernel := DigestOf(kernelRam, buffer, sum.kernel.sha);
      var badInitrd := DigestOf(initrdRam, buffer, sum.initrd.sha);
      died := (badKernel || badInitrd) && sum.mode == Enforce;
    }

    /** What is in RAM is what a manifest records. */
    ghost predicate Loaded(m: PayloadSum)
      requires |kernelRam| < TWO32 && |initrdRam| < TWO32
      reads this
    {
      Hash(f, kernelRam) == m.kernel.sha && Hash(f, initrdRam) == m.initrd.sha
    }

    /**
     * stage2_main(), from the sizes found on the FAT to the jump. With an
     * accepted manifest and enforce in force, the jump is reached only with
     * the recorded files in RAM; in any other mode no boot stops for them;
     * and a boot that reads the very files its manifest was made for never
     * stops for them either.
     */
    method Run(option: Option<string>, kernelSize: nat, initrdSize: nat, setupSects: Byte, buffer: nat, w: World,
               ghost kernel: seq<Byte>, ghost initrd: seq<Byte>)
      returns (o: Outcome)
      requires !sumLoaded && !blkLoaded && accepted == None && buffer > 0 && drive.Possible(cap)
      requires |kernel| == kernelSize && |initrd| == initrdSize
      modifies this
      ensures |kernelRam| < TWO32 && |initrdRam| < TWO32
      // which manifest and which table are believed
      ensures Booted(kernelSize, initrdSize) && Decided(w.checksum) ==> accepted == Recorded(w.checksum)
      ensures accepted.Some? ==> Sensible(w.checksum) && InOrder(Parsed(accepted.value))
      ensures Booted(kernelSize, initrdSize) && Counts(option) && SizesFit(kernelSize, initrdSize) ==>
        (blkLoaded <==> TableFits(f, w.blksum, accepted.value))
      // a jump
      ensures o.Jumped? ==> Booted(kernelSize, initrdSize) && RealModeBytes(setupSects) < kernelSize
      ensures o.Jumped? ==> w.headerOk && w.memoryOk && w.addressOk && w.kernelOk && w.initrdOk
      ensures o.Jumped? ==> |kernelRam| == kernelSize - RealModeBytes(setupSects) && |initrdRam| == initrdSize
      ensures o.Jumped? && Enforced(option) ==>
        && Fits(accepted.value.kernel, kernelSize, RealModeBytes(setupSects)) && Fits(accepted.value.initrd, initrdSize, 0)
        && Loaded(accepted.value)
      ensures o.Jumped? && Enforced(option) && blkLoaded ==>
        && !Verify.Hopeless(f, w.kernel, drive, kernelSize - RealModeBytes(setupSects)) && !Verify.Hopeless(f, w.initrd, drive, initrdSize)
      // in every mode RAM holds what landed, or what the block checks made of it, and the files when they arrive
      ensures o.Jumped? ==>
        var len := kernelSize - RealModeBytes(setupSects);
        if Checking(option, kernelSize, initrdSize, setupSects, w)
        then Verify.Explained(f, w.kernel, drive, kernelRam) && Verify.Explained(f, w.initrd, drive, initrdRam)
        else kernelRam == Verify.Taken(w.kernel.arrives, 0, len) && initrdRam == Verify.Taken(w.initrd.arrives, 0, initrdSize)
      ensures o.Jumped? && FilesArrive(setupSects, w, kernel, initrd) ==>
        kernelRam == kernel[RealModeBytes(setupSects)..] && initrdRam == initrd
      // a stop
      ensures o.Died? && o.why != Other ==> Enforced(option) && Asked(option, accepted.value.mode)
      ensures o == Died(LayoutDiffers) <==>
        && Booted(kernelSize, initrdSize) && Enforced(option)
        && (!SizesFit(kernelSize, initrdSize) || (w.headerOk && OffsetDiffers(kernelSize, setupSects)))
      ensures o == Died(BlockStayedWrong) ==>
        && blkLoaded && RealModeBytes(setupSects) < kernelSize
        && (Verify.Spoilt(f, w.kernel, drive, kernelSize - RealModeBytes(setupSects)) || Verify.Spoilt(f, w.initrd, drive, initrdSize))
      ensures o == Died(DigestDiffers) ==>
        && !Loaded(accepted.value) && RealModeBytes(setupSects) < kernelSize
        && (blkLoaded ==>
              || !EndsIn(w.kernel, kernelSize - RealModeBytes(setupSects), accepted.value.kernel.sha)
              || !EndsIn(w.initrd, initrdSize, accepted.value.initrd.sha))
      ensures o == Died(Other) ==>
        || !Booted(kernelSize, initrdSize) || RealModeBytes(setupSects) >= kernelSize
        || !(w.headerOk && w.memoryOk && w.addressOk && w.kernelOk && w.initrdOk)
      // no false alarm: what arrives are the files the manifest was made for
      ensures accepted.Some? && MadeFor(f, accepted.value, kernel, initrd) && FilesArrive(setupSects, w, kernel, initrd) ==>
        o.Jumped? || o == Died(Other)
    {
      hide Parse, Hash, ParseMode, Decided, Recorded, TableFits, EndsIn, MadeFor, InOrder, Sensible,
           Verify.Explained, Verify.Taken, Verify.Spoilt, Verify.Hopeless, Verify.Faithful, RealModeBytes, Effective, Asked, Agreed;
      kernelRam, initrdRam := [], [];
      if kernelSize == 0 || kernelSize > MAX_KERNEL_SIZE || initrdSize == 0 || initrdSize > MAX_INITRD_SIZE {
        return Died(Other);
      }
      var why := Prepare(option, kernelSize, initrdSize, setupSects, w);
      if accepted.Some? {
        AskedIff(option, accepted.value.mode);
      }
      if accepted.Some? && MadeFor(f, accepted.value, kernel, initrd) {
        MadeForFits(f, accepted.value, kernel, initrd);
      }
      if why.Some? {
        return Died(why.value);
      }
      var realModeBytes := RealModeBytes(setupSects);
      why := LoadAndVerify(kernelSize - realModeBytes, initrdSize, w, buffer, kernel[realModeBytes..], initrd);
      o := if why.Some? then Died(why.value) else Jumped;
    }

    /** Both loads and the last look at RAM. */
    method LoadAndVerify(kernelLen: nat, initrdLen: nat, w: World, buffer: nat, ghost kernel: seq<Byte>, ghost initrd: seq<Byte>)
      returns (why: Option<Why>)
      requires kernelLen <= MAX_KERNEL_SIZE && initrdLen <= MAX_INITRD_SIZE && Agreed() && drive.Possible(cap) && buffer > 0
      requires |kernel| == kernelLen && |initrd| == initrdLen
      requires sumLoaded ==> sum.kernel.size - sum.kernel.offset == kernelLen && Fits(sum.initrd, initrdLen, 0)
      modifies this`kernelRam, this`initrdRam, this`cap
      ensures |kernelRam| < TWO32 && |initrdRam| < TWO32 && why != Some(LayoutDiffers)
      ensures why.None? ==> |kernelRam| == kernelLen && |initrdRam| == initrdLen && w.addressOk && w.kernelOk && w.initrdOk
      ensures why.None? ==>
        if blkLoaded && sumLoaded then Verify.Explained(f, w.kernel, drive, kernelRam) && Verify.Explained(f, w.initrd, drive, initrdRam)
        else kernelRam == Verify.Taken(w.kernel.arrives, 0, kernelLen) && initrdRam == Verify.Taken(w.initrd.arrives, 0, initrdLen)
      ensures why.None? && sumLoaded && sum.mode == Enforce ==> Loaded(sum)
      ensures why.None? && sumLoaded && blkLoaded && sum.mode == Enforce ==>
        !Verify.Hopeless(f, w.kernel, drive, kernelLen) && !Verify.Hopeless(f, w.initrd, drive, initrdLen)
      ensures why.Some? && why != Some(Other) ==> sumLoaded && sum.mode == Enforce
      ensures why == Some(Other) ==> !(w.addressOk && w.kernelOk && w.initrdOk)
      ensures why == Some(BlockStayedWrong) ==>
        blkLoaded && (Verify.Spoilt(f, w.kernel, drive, kernelLen) || Verify.Spoilt(f, w.initrd, drive, initrdLen))
      ensures why == Some(DigestDiffers) ==> !Loaded(sum)
      ensures why == Some(DigestDiffers) && blkLoaded ==>
        !EndsIn(w.kernel, kernelLen, sum.kernel.sha) || !EndsIn(w.initrd, initrdLen, sum.initrd.sha)
      // both files arrive: they are in RAM, and only a digest of other files can stop the boot for them
      ensures Verify.Faithful(f, w.kernel, kernel) && Verify.Faithful(f, w.initrd, initrd) ==>
        && why != Some(BlockStayedWrong) && (why.None? ==> kernelRam == kernel && initrdRam == initrd)
        && (why == Some(DigestDiffers) ==> Hash(f, kernel) != sum.kernel.sha || Hash(f, initrd) != sum.initrd.sha)
    {
      hide Hash, EndsIn, Verify.Explained, Verify.Taken, Verify.Spoilt, Verify.Hopeless, Verify.Faithful;
      why := LoadBoth(kernelLen, initrdLen, w, kernel, initrd);
      if why.None? {
        var died := VerifyLoaded(buffer);
        if died {
          why := Some(DigestDiffers);
        }
      }
    }

    /** Up to the loads: the options, the kernel's header against the manifest, and the memory map. */
    method Prepare(option: Option<string>, kernelSize: nat, initrdSize: nat, setupSects: Byte, w: World) returns (why: Option<Why>)
      requires !sumLoaded && !blkLoaded && accepted == None
      modifies this`sum, this`sumLoaded, this`accepted, this`blk, this`blkLoaded
      ensures Decided(w.checksum) ==> accepted == Recorded(w.checksum)
      ensures accepted.Some? ==> Sensible(w.checksum) && InOrder(Parsed(accepted.value))
      ensures Counts(option) && SizesFit(kernelSize, initrdSize) ==> (blkLoaded <==> TableFits(f, w.blksum, accepted.value))
      ensures Governed(option) && (why.None? || why == Some(LayoutDiffers) || why == Some(Other))
      ensures why == Some(LayoutDiffers) <==>
        Enforced(option) && (!SizesFit(kernelSize, initrdSize) || (w.headerOk && OffsetDiffers(kernelSize, setupSects)))
      ensures why == Some(Other) ==> RealModeBytes(setupSects) >= kernelSize || !w.headerOk || !w.memoryOk
      ensures why.None? ==> RealModeBytes(setupSects) < kernelSize && w.headerOk && w.memoryOk && Agreed()
      ensures why.None? ==>
        (sumLoaded <==> Counts(option) && SizesFit(kernelSize, initrdSize) && !OffsetDiffers(kernelSize, setupSects))
    {
      hide Parse, ParseMode, Decided, Recorded, TableFits, RealModeBytes;
      var died := ReadOptions(option, kernelSize, initrdSize, w);
      if died {
        return Some(LayoutDiffers);
      }
      var realModeBytes := RealModeBytes(setupSects);
      if !w.headerOk || realModeBytes >= kernelSize {
        return Some(Other);
      }
      died := CheckFile(sum.kernel, kernelSize, realModeBytes);
      why := if died then Some(LayoutDiffers) else if !w.memoryOk then Some(Other) else None;
    }

    /** The loads of this boot are judged block by block. */
    ghost predicate Checking(option: Option<string>, kernelSize: nat, initrdSize: nat, setupSects: Byte, w: World)
      reads this`accepted
    {
      && Counts(option) && SizesFit(kernelSize, initrdSize) && !OffsetDiffers(kernelSize, setupSects)
      && TableFits(f, w.blksum, accepted.value)
    }

    /** The kernel's image does not start where the manifest says. */
    ghost predicate OffsetDiffers(kernelSize: nat, setupSects: Byte)
      requires accepted.Some?
      reads this`accepted
    {
      RealModeBytes(setupSects) < kernelSize && !Fits(accepted.value.kernel, kernelSize, RealModeBytes(setupSects))
    }

    /** The two loads deliver the two files, and entries made for them. */
    ghost predicate FilesArrive(setupSects: Byte, w: World, kernel: seq<Byte>, initrd: seq<Byte>) {
      && 0x1f1 < |kernel| < TWO32 && |initrd| < TWO32 && kernel[0x1f1] == setupSects && RealModeBytes(setupSects) <= |kernel|
      && Verify.Faithful(f, w.kernel, kernel[RealModeBytes(setupSects)..]) && Verify.Faithful(f, w.initrd, initrd)
    }

    /** The sizes a boot goes on with. */
    ghost predicate Booted(kernelSize: nat, initrdSize: nat) {
      0 < kernelSize <= 48 * 1024 * 1024 && 0 < initrdSize <= 512 * 1024 * 1024
    }

    /** The kernel, then the initrd at the transfer cap the kernel left. */
    method LoadBoth(kernelLen: nat, initrdLen: nat, w: World, ghost kernel: seq<Byte>, ghost initrd: seq<Byte>) returns (why: Option<Why>)
      requires kernelLen <= MAX_KERNEL_SIZE && initrdLen <= MAX_INITRD_SIZE && Agreed() && drive.Possible(cap)
      requires |kernel| == kernelLen && |initrd| == initrdLen
      requires sumLoaded ==> sum.kernel.size - sum.kernel.offset == kernelLen && Fits(sum.initrd, initrdLen, 0)
      modifies this`kernelRam, this`initrdRam, this`cap
      ensures |kernelRam| < TWO32 && |initrdRam| < TWO32
      ensures why.None? ==> |kernelRam| == kernelLen && |initrdRam| == initrdLen && w.addressOk && w.kernelOk && w.initrdOk
      ensures why.None? || why == Some(Other) || why == Some(BlockStayedWrong)
      ensures why == Some(Other) ==> !(w.addressOk && w.kernelOk && w.initrdOk)
      ensures why.None? ==>
        if blkLoaded && sumLoaded then Verify.Explained(f, w.kernel, drive, kernelRam) && Verify.Explained(f, w.initrd, drive, initrdRam)
        else kernelRam == Verify.Taken(w.kernel.arrives, 0, kernelLen) && initrdRam == Verify.Taken(w.initrd.arrives, 0, initrdLen)
      ensures why == Some(BlockStayedWrong) ==>
        && sumLoaded && blkLoaded && sum.mode == Enforce
        && (Verify.Spoilt(f, w.kernel, drive, kernelLen) || Verify.Spoilt(f, w.initrd, drive, initrdLen))
      ensures why.None? && sumLoaded && blkLoaded && sum.mode == Enforce ==>
        && !Verify.Hopeless(f, w.kernel, drive, kernelLen) && !Verify.Hopeless(f, w.initrd, drive, initrdLen)
        && (EndsIn(w.kernel, kernelLen, sum.kernel.sha) ==> Hash(f, kernelRam) == sum.kernel.sha)
        && (EndsIn(w.initrd, initrdLen, sum.initrd.sha) ==> Hash(f, initrdRam) == sum.initrd.sha)
      ensures Verify.Faithful(f, w.kernel, kernel) && Verify.Faithful(f, w.initrd, initrd) ==>
        why != Some(BlockStayedWrong) && (why.None? ==> kernelRam == kernel && initrdRam == initrd)
    {
      hide Hash, EndsIn, Verify.Explained, Verify.Taken, Verify.Spoilt, Verify.Hopeless, Verify.Faithful;
      initrdRam := [];
      kernelRam, why := LoadFile(sum.kernel, blk.kernel, kernelLen, w.kernel, w.kernelOk, kernel);
      if why.Some? {
        return;
      }
      if !w.addressOk {
        return Some(Other);
      }
      initrdRam, why := LoadFile(sum.initrd, blk.initrd, initrdLen, w.initrd, w.initrdOk, initrd);
    }
  }

  lemma AskedIff(option: Option<string>, m: Mode)
    ensures Effective(option, m) == Enforce <==> Asked(option, m)
  {
  }

  lemma Arrived(f: Compressor, env: Verify.Env, payload: seq<Byte>)
    requires |payload| < TWO32
    ensures Verify.Faithful(f, env, payload) ==> Verify.Taken(env.arrives, 0, |payload|) == payload
  {
    hide Verify.ChainEntries;
  }

  /** The part of a bzImage that stays on disk. */
  function RealModeBytes(setupSects: Byte): nat {
    var n: int := if setupSects == 0 then 4 else setupSects;
    (n + 1) * 512
  }

  lemma AbsorbedNothing(f: Compressor)
    ensures Absorb(f, INIT, []) == INIT
  {
    Verify.AbsorbNothing(f, INIT);
  }

  // ---- What the installer writes passes the checks it is written for ----

  /** The offset stage2_main() computes from a kernel file it has read; None where it dies. */
  function LoaderOffset(kernel: seq<Byte>): Option<nat> {
    if |kernel| < 0x1f1 + 123 then None
    else if kernel[0x1fe..0x200] != [0x55, 0xaa] || Le32(kernel[0x202..0x206]) != 0x53726448 then None
    else if RealModeBytes(kernel[0x1f1]) >= |kernel| then None
    else Some(RealModeBytes(kernel[0x1f1]))
  }

  /** Loader and installer take the same files for kernels, and cut them at the same byte. */
  lemma OffsetsAgree(kernel: seq<Byte>)
    ensures LoaderOffset(kernel) == Blk.KernelRamOffset(kernel)
  {
    if |kernel| >= 0x206 {
      MagicIsWord(kernel[0x202..0x206]);
    }
  }

  lemma MagicIsWord(b: seq<Byte>)
    requires |b| == 4
    ensures Le32(b) == 0x53726448 <==> b == [0x48, 0x64, 0x72, 0x53]
  {
    var b0: int, b1: int, b2: int, b3: int := b[0], b[1], b[2], b[3];
    assert Le32(b) == b3 * 0x100_0000 + b2 * 0x1_0000 + b1 * 0x100 + b0;
  }

  /** payloadsum.New(): the manifest of a kernel and an initrd. */
  function NewManifest(f: Compressor, kernel: seq<Byte>, initrd: seq<Byte>, mode: Mode): Option<PayloadSum> {
    var offset := Blk.KernelRamOffset(kernel);
    if offset.None? || |kernel| >= TWO32 || |initrd| >= TWO32 then None
    else Some(PayloadSum(Entry(|kernel|, offset.value, Hash(f, kernel[offset.value..])), Entry(|initrd|, 0, Hash(f, initrd)), mode))
  }

  /** The manifest is the one the installer makes for these two files. */
  ghost predicate MadeFor(f: Compressor, m: PayloadSum, kernel: seq<Byte>, initrd: seq<Byte>) {
    NewManifest(f, kernel, initrd, m.mode) == Some(m)
  }

  lemma MadeForFits(f: Compressor, m: PayloadSum, kernel: seq<Byte>, initrd: seq<Byte>)
    requires MadeFor(f, m, kernel, initrd)
    ensures 0x1f1 < |kernel| < TWO32 && |initrd| < TWO32
    ensures var offset := RealModeBytes(kernel[0x1f1]);
      && offset < |kernel| && Fits(m.kernel, |kernel|, offset) && Fits(m.initrd, |initrd|, 0)
      && m.kernel.sha == Hash(f, kernel[offset..]) && m.initrd.sha == Hash(f, initrd)
  {
    hide Hash;
    OffsetsAgree(kernel);
  }

  /**
   * What the installer writes: the manifest of two files is read back as written, fits
   * the loader's buffer and the files, agrees with their table, and holds the
   * digests of exactly the bytes the loader places in RAM.
   */
  lemma InstallerAgrees(f: Compressor, kernel: seq<Byte>, initrd: seq<Byte>, mode: Mode)
    ensures var r := NewManifest(f, kernel, initrd, mode);
      r.Some? ==>
        var m := r.value;
        && 0 < |Encode(m)| <= MAX_MANIFEST && Parse(Encode(m)) == Parsed(m)
        && LoaderOffset(kernel).Some?
        && var offset := LoaderOffset(kernel).value;
        && Fits(m.kernel, |kernel|, offset) && Fits(m.initrd, |initrd|, 0)
        && m.kernel.sha == Hash(f, kernel[offset..]) && m.initrd.sha == Hash(f, initrd)
        && var h := Blk.HeaderOf(f, kernel, offset, initrd);
        && SameFile(h.kernel, m.kernel) && SameFile(h.initrd, m.initrd)
  {
    hide Parse, Encode, Hash;
    var r := NewManifest(f, kernel, initrd, mode);
    if r.Some? {
      OffsetsAgree(kernel);
      Tool.EncodeFits(r.value);
      RoundTrip(r.value);
    }
  }

  /** Every read of the file that works, of ten, gives what the installer wrote, and one does. */
  ghost predicate ReadsBack(file: TextFile, m: PayloadSum) {
    && (forall i :: 0 <= i < ATTEMPTS && TextRead(file, i).Some? ==> TextRead(file, i).value == Encode(m))
    && (exists i :: 0 <= i < ATTEMPTS && TextRead(file, i).Some?)
  }

  /** Then a boot believes the manifest the installer made, whatever reads fail before. */
  lemma InstalledIsRecorded(f: Compressor, kernel: seq<Byte>, initrd: seq<Byte>, mode: Mode, file: TextFile)
    requires NewManifest(f, kernel, initrd, mode).Some? && ReadsBack(file, NewManifest(f, kernel, initrd, mode).value)
    ensures var m := NewManifest(f, kernel, initrd, mode).value;
      Decided(Some(file)) && Recorded(Some(file)) == Some(m) && MadeFor(f, m, kernel, initrd)
  {
    hide Parse, Encode, Hash, TextRead, Unambiguous;
    var m := NewManifest(f, kernel, initrd, mode).value;
    InstallerAgrees(f, kernel, initrd, mode);
    EncodeUnambiguous(m);
    var n :| 0 <= n < ATTEMPTS && TextRead(file, n).Some?;
    SizeRead(file, n);
    SettledFrom(file, m, 0, n);
  }

  lemma SizeRead(file: TextFile, n: nat)
    requires TextRead(file, n).Some?
    ensures |TextRead(file, n).value| == file.size
  {
  }

  lemma {:induction false} SettledFrom(file: TextFile, m: PayloadSum, i: nat, n: nat)
    requires i <= n < ATTEMPTS && TextRead(file, n).Some? && ReadsBack(file, m) && Parse(Encode(m)) == Parsed(m)
    ensures Settled(file, i) == Some(m)
    decreases n - i
  {
    hide Parse, Encode, TextRead;
    if TextRead(file, i).Some? {
    } else {
      SettledFrom(file, m, i + 1, n);
    }
  }
}
