/**
 * The verify-and-heal engine of bios/blkverify.c: every 64 KiB block of a
 * file is checked against a table of hash-chain states as it lands in RAM,
 * re-read and second-sourced when it is wrong.
 */
module BlkVerify {
  import opened Bytes
  import opened HashChain
  import opened Wrappers

  const BLOCK := 65536
  const TRIES := 8
  const BAD_LIMIT := 3
  const TWO16 := 65536
  type U16 = n: int | 0 <= n < 65536
  /** Beyond this `(next + 1) * BLOCK` no longer fits 32 bits. */
  const MAX_LENGTH := 65535 * 65536

  // ---- Blocks, the table, and what it means for a block to be right ----

  function BlockCount(length: nat): (n: nat)
    ensures IsBlockCount(n, length)
  {
    length / BLOCK + if length % BLOCK != 0 then 1 else 0
  }

  /** n is the block count of a range: the last of n blocks holds its last byte. */
  predicate IsBlockCount(n: nat, length: nat) {
    length <= n * BLOCK < length + BLOCK
  }

  function BlockEnd(length: nat, k: nat): nat {
    if (k + 1) * BLOCK > length then length else (k + 1) * BLOCK
  }

  predicate IsLast(length: nat, k: nat) {
    (k + 1) * BLOCK >= length
  }

  function BlockBytes(ram: seq<Byte>, k: nat): seq<Byte>
    requires k * BLOCK < |ram|
  {
    ram[k * BLOCK..BlockEnd(|ram|, k)]
  }

  /** The table entry a chain gives for a block: its state, or the digest for the last block. */
  function EntryOf(f: Compressor, c: Chain, last: bool): Digest {
    if last then Finish(f, c) else StateBytes(c.h)
  }

  /** The chain before block k, from the table alone. */
  function Before(table: seq<Digest>, k: nat): Chain
    requires k <= |table|
  {
    if k == 0 then INIT else Chain(BytesState(table[k - 1]), k * BLOCK % TWO32, [])
  }

  /** Hashing block k's bytes from entry k-1 gives entry k. */
  ghost predicate BlockOk(f: Compressor, ram: seq<Byte>, table: seq<Digest>, k: nat)
    requires k * BLOCK < |ram| && k < |table|
  {
    EntryOf(f, Absorb(f, Before(table, k), BlockBytes(ram, k)), IsLast(|ram|, k)) == table[k]
  }

  lemma WholeBlocks(f: Compressor, c: Chain, data: seq<Byte>, n: nat)
    requires c.tail == [] && |data| == n * BLOCK
    ensures Absorb(f, c, data).tail == []
  {
    hide Drain;
    assert c.tail + data == data;
    BlocksAreWhole(n);
    DrainLength(f, c.h, data);
  }

  lemma BlocksAreWhole(n: nat)
    ensures n * BLOCK % 64 == 0
  {
    assert n * BLOCK == 64 * (n * 1024);
  }

  /** A block that is right leaves the chain exactly where the table says. */
  lemma NextChain(f: Compressor, ram: seq<Byte>, table: seq<Digest>, k: nat)
    requires (k + 1) * BLOCK < |ram| && k < |table| && BlockOk(f, ram, table, k)
    ensures Absorb(f, Before(table, k), BlockBytes(ram, k)) == Before(table, k + 1)
  {
    hide Absorb, StateBytes, BytesState, Finish;
    var b := BlockBytes(ram, k);
    var c := Absorb(f, Before(table, k), b);
    WholeBlocks(f, Before(table, k), b, 1);
    StateRoundTrip(c.h);
    NextTotal(k);
  }

  lemma NextTotal(k: nat)
    ensures (k * BLOCK % TWO32 + BLOCK) % TWO32 == (k + 1) * BLOCK % TWO32
  {
  }

  lemma {:induction false} ChainFromStart(f: Compressor, ram: seq<Byte>, table: seq<Digest>, k: nat)
    requires k * BLOCK < |ram| && k < |table|
    requires forall j :: 0 <= j < k ==> BlockOk(f, ram, table, j)
    ensures Absorb(f, INIT, ram[..k * BLOCK]) == Before(table, k)
  {
    if k == 0 {
      assert INIT.tail + ram[..0] == [];
    } else {
      ChainFromStart(f, ram, table, k - 1);
      NextChain(f, ram, table, k - 1);
      AbsorbAppend(f, INIT, ram[..(k - 1) * BLOCK], BlockBytes(ram, k - 1));
      assert ram[..(k - 1) * BLOCK] + BlockBytes(ram, k - 1) == ram[..k * BLOCK];
    }
  }

  /** When every block is right, the whole range hashes to the last entry. */
  lemma BlocksMakeTheFile(f: Compressor, ram: seq<Byte>, table: seq<Digest>)
    requires 0 < |ram| < TWO32 && IsBlockCount(|table|, |ram|)
    requires forall j :: 0 <= j < |table| ==> BlockOk(f, ram, table, j)
    ensures Hash(f, ram) == table[|table| - 1]
  {
    var k := |table| - 1;
    ChainFromStart(f, ram, table, k);
    AbsorbAppend(f, INIT, ram[..k * BLOCK], BlockBytes(ram, k));
    assert ram[..k * BLOCK] + BlockBytes(ram, k) == ram;
    assert BlockOk(f, ram, table, k);
    FinishIsHash(f, ram);
  }

  // ---- The table the installer writes (internal/payloadsum/blksum.go) ----

  function ChainEntry(f: Compressor, payload: seq<Byte>, k: nat): Digest
    requires |payload| < TWO32 && k * BLOCK < |payload|
  {
    if IsLast(|payload|, k) then Hash(f, payload)
    else StateBytes(Absorb(f, INIT, payload[..(k + 1) * BLOCK]).h)
  }

  function ChainEntries(f: Compressor, payload: seq<Byte>): (table: seq<Digest>)
    requires |payload| < TWO32
    ensures |table| == BlockCount(|payload|)
  {
    seq(BlockCount(|payload|), k requires 0 <= k * BLOCK < |payload| => ChainEntry(f, payload, k))
  }

  lemma ChainEntryAt(f: Compressor, payload: seq<Byte>, k: nat)
    requires |payload| < TWO32 && k * BLOCK < |payload|
    ensures Absorb(f, INIT, payload[..k * BLOCK]) == Before(ChainEntries(f, payload), k)
  {
    var data := payload[..k * BLOCK];
    if k == 0 {
      assert INIT.tail + data == [];
    } else {
      WholeBlocks(f, INIT, data, k);
      StateRoundTrip(Absorb(f, INIT, data).h);
      assert ChainEntry(f, payload, k - 1) == StateBytes(Absorb(f, INIT, data).h);
    }
  }

  /** The installer's table accepts every block of the payload it was made from. */
  lemma InstallerTableAccepts(f: Compressor, payload: seq<Byte>, k: nat)
    requires |payload| < TWO32 && k * BLOCK < |payload|
    ensures BlockOk(f, payload, ChainEntries(f, payload), k)
  {
    var table := ChainEntries(f, payload);
    ChainEntryAt(f, payload, k);
    var b := BlockBytes(payload, k);
    AbsorbAppend(f, INIT, payload[..k * BLOCK], b);
    assert payload[..k * BLOCK] + b == payload[..BlockEnd(|payload|, k)];
    if k + 1 == |table| {
      assert payload[..|payload|] == payload;
      FinishIsHash(f, payload);
    }
  }

  /** Whether block k is right depends on its own bytes and two entries only. */
  lemma BlockOkFrame(f: Compressor, ram: seq<Byte>, ram': seq<Byte>, table: seq<Digest>, table': seq<Digest>, k: nat)
    requires |ram| == |ram'| && k * BLOCK < |ram| && k < |table| <= |table'| && table == table'[..|table|]
    requires BlockBytes(ram, k) == BlockBytes(ram', k)
    ensures BlockOk(f, ram, table, k) == BlockOk(f, ram', table', k)
  {
    assert Before(table, k) == Before(table', k);
  }

  // ---- Bookkeeping ----

  /** How the check of one block ended. */
  datatype Verdict = Good | Healed(tries: nat) | SecondSource | Reported | Unreported {
    /** The block in RAM was seen to match. */
    predicate Kept() { Good? || Healed? || SecondSource? }
  }

  datatype Counts = Counts(healed: nat, second: nat, bad: nat, retries: nat, mismatches: nat, unreported: nat)

  const NONE := Counts(0, 0, 0, 0, 0, 0)

  function Bump(c: Counts, v: Verdict): Counts {
    match v
    case Good => c
    case Healed(t) => c.(mismatches := c.mismatches + 1, healed := c.healed + 1, retries := c.retries + t)
    case SecondSource => c.(mismatches := c.mismatches + 1, second := c.second + 1, retries := c.retries + TRIES)
    case Reported => c.(mismatches := c.mismatches + 1, bad := c.bad + 1, retries := c.retries + TRIES)
    case Unreported => c.(mismatches := c.mismatches + 1, bad := c.bad + 1, unreported := c.unreported + 1)
  }

  function CountsOf(log: seq<Verdict>): Counts {
    if log == [] then NONE else Bump(CountsOf(log[..|log| - 1]), log[|log| - 1])
  }

  /** What may follow when `bad` blocks have already stayed wrong. */
  predicate MayFollow(bad: nat, v: Verdict) {
    && (v.Healed? ==> 1 <= v.tries <= TRIES)
    && (v.Healed? || v.SecondSource? || v.Reported? ==> bad < BAD_LIMIT)
    && (v.Unreported? ==> bad >= BAD_LIMIT)
  }

  predicate Legal(log: seq<Verdict>) {
    log == [] || (Legal(log[..|log| - 1]) && MayFollow(CountsOf(log[..|log| - 1]).bad, log[|log| - 1]))
  }

  /** The laws between the counters after any number of blocks. */
  ghost predicate Balanced(c: Counts, blocks: nat) {
    var reports := if c.bad < BAD_LIMIT then c.bad else BAD_LIMIT;
    && c.mismatches == c.healed + c.second + c.bad <= blocks
    && c.unreported == c.bad - reports
    && c.healed + TRIES * (c.second + reports) <= c.retries <= TRIES * (c.healed + c.second + reports)
  }

  lemma {:induction false} LegalIsBalanced(log: seq<Verdict>)
    requires Legal(log)
    ensures Balanced(CountsOf(log), |log|)
  {
    if log == [] {
    } else {
      LegalIsBalanced(log[..|log| - 1]);
    }
  }

  function AllHealedLast(n: nat): seq<Verdict> {
    seq(n, _ => Healed(TRIES))
  }

  lemma {:induction false} AllHealedLastCounts(n: nat)
    ensures Legal(AllHealedLast(n)) && CountsOf(AllHealedLast(n)) == Counts(n, 0, 0, TRIES * n, n, 0)
  {
    if n == 0 {
    } else {
      AllHealedLastCounts(n - 1);
      assert AllHealedLast(n)[..n - 1] == AllHealedLast(n - 1);
    }
  }

  /**
   * The 16-bit retry counter never wraps on files of n blocks exactly when
   * n is at most 8191 - one short of the largest initrd the loader accepts.
   */
  lemma RetriesFitIff(n: nat)
    ensures (forall log :: Legal(log) && |log| <= n ==> CountsOf(log).retries < TWO16) <==> n <= 8191
  {
    if n <= 8191 {
      forall log | Legal(log) && |log| <= n
        ensures CountsOf(log).retries < TWO16
      {
        LegalIsBalanced(log);
      }
    } else {
      AllHealedLastCounts(8192);
      assert CountsOf(AllHealedLast(8192)).retries == TWO16;
    }
  }

  /** No counter but `retries` is at its 16-bit limit. */
  ghost predicate Room(c: Counts) {
    c.healed < 65535 && c.second < 65535 && c.bad < 65535 && c.mismatches < 65535 && c.unreported < 65535
  }

  lemma {:induction false} NoBadMeansKept(log: seq<Verdict>)
    requires CountsOf(log).bad == 0
    ensures forall k :: 0 <= k < |log| ==> log[k].Kept()
  {
    if log == [] {
    } else {
      NoBadMeansKept(log[..|log| - 1]);
    }
  }

  lemma CountsAppend(log: seq<Verdict>, v: Verdict)
    ensures CountsOf(log + [v]) == Bump(CountsOf(log), v)
    ensures Legal(log) && MayFollow(CountsOf(log).bad, v) ==> Legal(log + [v])
  {
    assert (log + [v])[..|log|] == log;
  }

  // ---- What the engine calls out to ----

  /** The transfer sizes of a build: at most `limit` sectors, or on a CD whole native sectors. */
  datatype Drive = Drive(cd: bool, limit: nat) {
    /** The sizes it can be at. */
    predicate Possible(c: nat) {
      1 <= limit <= 127 && if cd then c == 4 || c == 8 || c == 12 || c == 16 else 1 <= c <= limit
    }

    /** disk_set_chunk() of the disk and of the CD build. */
    function Granted(n: nat): nat {
      if cd then (if n / 4 < 1 then 4 else if n / 4 > 4 then 16 else n / 4 * 4)
      else if n > limit then limit else n
    }

    /** The size after a disk access that asked for n: it may only shrink. */
    function Shrunk(c: nat, n: nat): nat {
      if Possible(n) && n <= c then n else c
    }
  }

  function Halved(cap: nat, times: nat): (r: nat)
    ensures r <= cap
  {
    if times == 0 then cap else Halved(cap, times - 1) / 2
  }

  /** The transfer size of re-read i (from 0) when the cap was `cap`. */
  function SizeOf(cap: nat, i: nat): (r: nat)
    ensures cap >= 1 ==> 1 <= r <= cap
  {
    if Halved(cap, i) < 1 then 1 else Halved(cap, i)
  }

  /** Shifting right is dividing by a power of two. */
  lemma {:induction false} HalvedIsShift(cap: nat, i: nat)
    ensures Halved(cap, i) == cap / Pow2(i)
  {
    if i == 0 {
    } else {
      HalvedIsShift(cap, i - 1);
      DivTwice(cap, Pow2(i - 1));
    }
  }

  lemma DivTwice(a: nat, b: nat)
    requires b > 0
    ensures a / b / 2 == a / (2 * b)
  {
    var q, r := a / b, a % b;
    Regroup(q / 2, b);
    if q % 2 == 0 {
      assert q == 2 * (q / 2);
      DivUnique(a, 2 * b, q / 2, r);
    } else {
      assert q == 2 * (q / 2) + 1;
      DivUnique(a, 2 * b, q / 2, b + r);
    }
  }

  lemma Regroup(p: nat, b: nat)
    ensures (2 * p) * b == p * (2 * b) && (2 * p + 1) * b == p * (2 * b) + b
  {
  }

  /** The smallest transfer a build makes. */
  function Smallest(d: Drive): nat {
    if d.cd then 4 else 1
  }

  /** From whatever size a block starts at, each re-read runs at half the one before, and the last at the smallest. */
  lemma SizesFall(d: Drive, cap: nat)
    requires d.Possible(cap)
    ensures d.Granted(SizeOf(cap, 7)) == Smallest(d)
    ensures forall i {:trigger SizeOf(cap, i)} :: 0 <= i < 8 && cap / Pow2(i) >= 1 ==> SizeOf(cap, i) == cap / Pow2(i)
  {
    forall i {:trigger SizeOf(cap, i)} | 0 <= i < TRIES ensures Halved(cap, i) == cap / Pow2(i) {
      HalvedIsShift(cap, i);
    }
    assert Pow2(7) == 128 by {
      assert Pow2(4) == 16;
    }
    HalvedIsShift(cap, 7);
  }

  /** A re-read starts from a size the build can be at, and never a larger one. */
  lemma NarrowFits(d: Drive, cap: nat, i: nat)
    requires d.Possible(cap)
    ensures var n := d.Granted(SizeOf(cap, i)); d.Possible(n) && n <= cap
    ensures 1 <= SizeOf(cap, i) <= cap <= 127 && d.Granted(cap) == cap
  {
    hide SizeOf;
  }

  /** What one more read of a block gives: whether it says it worked, what it leaves at every offset, and the size it shrinks to. */
  datatype Reply = Reply(ok: bool, bytes: nat -> Byte, cap: nat)

  /**
   * All that the outside does during one load. The bytes as they first land,
   * by offset; entry k of the table, or none if it cannot be read; re-read t
   * of block k at a transfer size; the second source, if the build has one;
   * and the size every access shrinks to. Each is asked for once.
   */
  datatype Env = Env(
    arrives: nat -> Byte,
    arrivesCap: nat -> nat,
    entry: nat -> Option<Digest>,
    entryCap: nat -> nat,
    reread: (nat, nat, nat) -> Reply,
    second: Option<(nat, nat) -> Reply>,
    reportCap: nat -> nat)

  function Taken(g: nat -> Byte, off: nat, len: nat): (r: seq<Byte>)
    ensures |r| == len
    ensures forall i :: 0 <= i < len ==> r[i] == g(off + i)
  {
    seq(len, i requires 0 <= i => g(off + i))
  }

  /** A block, the chain before it and the entry it is judged by. */
  datatype Block = Block(k: nat, off: nat, len: nat, before: Chain, want: Digest, last: bool)

  /** The hooks: RAM, the drives and the transfer cap. */
  class Hooks {
    const env: Env
    const drive: Drive
    var ram: seq<Byte>
    var cap: nat

    ghost predicate Valid()
      reads this
    {
      drive.Possible(cap)
    }

    constructor (env: Env, drive: Drive, ram: seq<Byte>, cap: nat)
      requires drive.Possible(cap)
      ensures Valid() && this.env == env && this.drive == drive && this.ram == ram && this.cap == cap
    {
      this.env, this.drive, this.ram, this.cap := env, drive, ram, cap;
    }

    method SetCap(n: nat)
      requires Valid()
      modifies this`cap
      ensures Valid()
      ensures cap == if 1 <= n <= 127 then drive.Granted(n) else old(cap)
    {
      if 1 <= n <= 127 {
        cap := drive.Granted(n);
      }
    }

    /** The next bytes of the file land. */
    method Land(off: nat, len: nat)
      requires Valid() && off + len <= |ram|
      modifies this`ram, this`cap
      ensures Valid() && cap == drive.Shrunk(old(cap), env.arrivesCap(off + len))
      ensures ram == Write(old(ram), off, Taken(env.arrives, off, len))
    {
      ram := Write(ram, off, Taken(env.arrives, off, len));
      cap := drive.Shrunk(cap, env.arrivesCap(off + len));
    }

    method Entry(k: nat) returns (want: Option<Digest>)
      requires Valid()
      modifies this`cap
      ensures Valid() && cap == drive.Shrunk(old(cap), env.entryCap(k)) && want == env.entry(k)
    {
      want := env.entry(k);
      cap := drive.Shrunk(cap, env.entryCap(k));
    }

    /** Block b again, from the boot drive. */
    method Reread(b: Block, t: nat) returns (ok: bool)
      requires Valid() && b.off + b.len <= |ram|
      modifies this`ram, this`cap
      ensures Valid()
      ensures var r := env.reread(b.k, t, old(cap));
        ok == r.ok && ram == Write(old(ram), b.off, Data(b, r)) && cap == drive.Shrunk(old(cap), r.cap)
    {
      ok := Arrive(b, env.reread(b.k, t, cap));
    }

    /** Block b from another drive. */
    method Second(b: Block) returns (ok: bool)
      requires Valid() && b.off + b.len <= |ram| && env.second.Some?
      modifies this`ram, this`cap
      ensures Valid()
      ensures var r := Other(env, b, old(cap));
        ok == r.ok && ram == Write(old(ram), b.off, Data(b, r)) && cap == drive.Shrunk(old(cap), r.cap)
    {
      ok := Arrive(b, Other(env, b, cap));
    }

    method Arrive(b: Block, r: Reply) returns (ok: bool)
      requires Valid() && b.off + b.len <= |ram|
      modifies this`ram, this`cap
      ensures Valid()
      ensures ok == r.ok && ram == Write(old(ram), b.off, Data(b, r)) && cap == drive.Shrunk(old(cap), r.cap)
    {
      ram := Write(ram, b.off, Data(b, r));
      cap := drive.Shrunk(cap, r.cap);
      ok := r.ok;
    }

    /** The report of a block looks its sector up. */
    method Report(b: Block)
      requires Valid()
      modifies this`cap
      ensures Valid() && cap == drive.Shrunk(old(cap), env.reportCap(b.k))
    {
      cap := drive.Shrunk(cap, env.reportCap(b.k));
    }
  }

  // ---- What a block comes to ----

  function Came(env: Env, b: Block): seq<Byte> {
    Taken(env.arrives, b.off, b.len)
  }

  /** Re-read i of a block when the cap was `cap`. */
  function Again(env: Env, d: Drive, b: Block, cap: nat, i: nat): Reply {
    env.reread(b.k, i, d.Granted(SizeOf(cap, i)))
  }

  function Other(env: Env, b: Block, cap: nat): Reply
    requires env.second.Some?
  {
    env.second.value(b.k, cap)
  }

  function Data(b: Block, r: Reply): (data: seq<Byte>)
    ensures |data| == b.len
  {
    Taken(r.bytes, b.off, b.len)
  }

  /** Hashed from the chain before the block, the bytes give its entry. */
  predicate Gives(f: Compressor, b: Block, data: seq<Byte>) {
    EntryOf(f, Absorb(f, b.before, data), b.last) == b.want
  }

  predicate Right(f: Compressor, b: Block, r: Reply) {
    r.ok && Gives(f, b, Data(b, r))
  }

  /** None of the first n re-reads, the size halved each time, is right. */
  ghost predicate NoneRight(f: Compressor, env: Env, d: Drive, b: Block, cap: nat, n: nat) {
    forall i :: 0 <= i < n ==> !Right(f, b, Again(env, d, b, cap, i))
  }

  /**
   * What a verdict says of the outside: a block is accepted as it came
   * exactly when it is right, healed by the first re-read that is, taken from
   * the second source when no re-read is and that one is, and given up only
   * when nothing that can be read is right - or, unread, after the limit.
   */
  ghost predicate Tells(f: Compressor, env: Env, d: Drive, b: Block, cap: nat, v: Verdict) {
    && (v.Good? <==> Gives(f, b, Came(env, b)))
    && match v
       case Good => true
       case Unreported => true
       case Healed(t) =>
         && 1 <= t <= TRIES && NoneRight(f, env, d, b, cap, t - 1) && Right(f, b, Again(env, d, b, cap, t - 1))
       case SecondSource =>
         && NoneRight(f, env, d, b, cap, TRIES) && env.second.Some? && Right(f, b, Other(env, b, cap))
       case Reported =>
         && NoneRight(f, env, d, b, cap, TRIES) && (env.second.Some? ==> !Right(f, b, Other(env, b, cap)))
  }

  /** The bytes a block is left with. */
  function Leaves(env: Env, d: Drive, b: Block, cap: nat, v: Verdict): (data: seq<Byte>)
    ensures |data| == b.len
  {
    match v
    case Good => Came(env, b)
    case Unreported => Came(env, b)
    case Healed(t) => Data(b, Again(env, d, b, cap, if t == 0 then 0 else t - 1))
    case _ => Data(b, if env.second.Some? then Other(env, b, cap) else Again(env, d, b, cap, TRIES - 1))
  }

  /** The transfer cap a block leaves: a re-read that heals keeps its size, otherwise the old one comes back. */
  function CapAfter(env: Env, d: Drive, b: Block, cap: nat, v: Verdict): nat {
    match v
    case Good => cap
    case Unreported => cap
    case Healed(t) => var i := if t == 0 then 0 else t - 1; d.Shrunk(d.Granted(SizeOf(cap, i)), Again(env, d, b, cap, i).cap)
    case SecondSource => SecondCap(env, d, b, cap)
    case Reported => d.Shrunk(SecondCap(env, d, b, cap), env.reportCap(b.k))
  }

  function SecondCap(env: Env, d: Drive, b: Block, cap: nat): nat {
    if env.second.Some? then d.Shrunk(cap, Other(env, b, cap).cap) else cap
  }

  lemma CapNeverRaised(env: Env, d: Drive, b: Block, cap: nat, v: Verdict)
    requires d.Possible(cap)
    ensures d.Possible(CapAfter(env, d, b, cap, v)) && CapAfter(env, d, b, cap, v) <= cap
  {
    hide SizeOf;
    if v.Healed? {
      NarrowFits(d, cap, if v.tries == 0 then 0 else v.tries - 1);
    }
  }

  /** What the outside does and how many blocks stayed bad before leave one verdict only. */
  lemma VerdictDetermined(f: Compressor, env: Env, d: Drive, b: Block, cap: nat, bad: nat, v: Verdict, v': Verdict)
    requires Tells(f, env, d, b, cap, v) && MayFollow(bad, v)
    requires Tells(f, env, d, b, cap, v') && MayFollow(bad, v')
    ensures v == v'
  {
    hide Gives, Right, Again, Other;
  }

  /** A block that the last re-read gets right, at the smallest size there is, is healed by it or by one before. */
  lemma SmallestHeals(f: Compressor, env: Env, d: Drive, b: Block, cap: nat, bad: nat, v: Verdict)
    requires d.Possible(cap) && Tells(f, env, d, b, cap, v) && MayFollow(bad, v) && bad < 3
    requires !Gives(f, b, Came(env, b)) && Right(f, b, env.reread(b.k, 7, Smallest(d)))
    ensures v.Healed?
  {
    hide Gives, Right, SizeOf;
    SizesFall(d, cap);
    assert Right(f, b, Again(env, d, b, cap, 7));
  }

  // ---- What a load comes to ----

  /** Block k of a range, judged by a table. */
  function BlockOf(table: seq<Digest>, length: nat, k: nat): Block
    requires k < |table| && k * BLOCK < length
  {
    Block(k, k * BLOCK, BlockEnd(length, k) - k * BLOCK, Before(table, k), table[k], IsLast(length, k))
  }

  /** Block k was judged by the entry the table has for it, with that verdict, and RAM holds what it was left with. */
  ghost predicate Ended(f: Compressor, env: Env, d: Drive, ram: seq<Byte>, table: seq<Digest>, cap: nat, v: Verdict, k: nat)
    requires k < |table| && k * BLOCK < |ram|
  {
    var b := BlockOf(table, |ram|, k);
    env.entry(k) == Some(b.want) && d.Possible(cap) && Tells(f, env, d, b, cap, v) && BlockBytes(ram, k) == Leaves(env, d, b, cap, v)
  }

  /** Every byte in RAM and every verdict accounted for by the outside: the judged blocks, and what has landed behind them. */
  ghost predicate Accounted(f: Compressor, env: Env, d: Drive, ram: seq<Byte>, table: seq<Digest>, caps: seq<nat>, verdicts: seq<Verdict>, landed: nat) {
    && |table| == |caps| == |verdicts| && landed <= |ram| && (|table| > 0 ==> (|table| - 1) * BLOCK < |ram|)
    && (forall k :: 0 <= k < |table| ==> Ended(f, env, d, ram, table, caps[k], verdicts[k], k))
    && (forall p :: |table| * BLOCK <= p < landed ==> ram[p] == env.arrives(p))
  }

  /** A block with an accepting verdict is right in RAM. */
  lemma EndedKept(f: Compressor, env: Env, d: Drive, ram: seq<Byte>, table: seq<Digest>, cap: nat, v: Verdict, k: nat)
    requires k < |table| && k * BLOCK < |ram| && Ended(f, env, d, ram, table, cap, v, k) && v.Kept()
    ensures BlockOk(f, ram, table, k)
  {
    hide Absorb, EntryOf, Before, BlockBytes, Again, Other;
  }

  lemma EndedFrame(f: Compressor, env: Env, d: Drive, ram: seq<Byte>, ram': seq<Byte>, table: seq<Digest>, table': seq<Digest>,
                   cap: nat, v: Verdict, k: nat)
    requires |ram| == |ram'| && k < |table| && k * BLOCK < |ram| && table <= table' && BlockBytes(ram, k) == BlockBytes(ram', k)
    requires Ended(f, env, d, ram, table, cap, v, k)
    ensures Ended(f, env, d, ram', table', cap, v, k)
  {
    hide Tells, Leaves, BlockBytes, BytesState;
    assert Before(table, k) == Before(table', k) && table[k] == table'[k];
  }

  /** Writing a whole block leaves the others alone. */
  lemma OtherBlockKept(ram: seq<Byte>, k: nat, data: seq<Byte>, j: nat)
    requires k * BLOCK < |ram| && |data| == BlockEnd(|ram|, k) - k * BLOCK && j * BLOCK < |ram| && j != k
    ensures BlockBytes(Write(ram, k * BLOCK, data), j) == BlockBytes(ram, j)
  {
    WriteKeeps(ram, k * BLOCK, data, j * BLOCK, BlockEnd(|ram|, j));
  }

  lemma WriteKeeps(ram: seq<Byte>, at: nat, data: seq<Byte>, lo: nat, hi: nat)
    requires at + |data| <= |ram| && lo <= hi <= |ram| && (hi <= at || at + |data| <= lo)
    ensures Write(ram, at, data)[lo..hi] == ram[lo..hi]
  {
    assert forall i :: lo <= i < hi ==> Write(ram, at, data)[i] == ram[i];
  }

  lemma WriteGives(ram: seq<Byte>, at: nat, data: seq<Byte>)
    requires at + |data| <= |ram|
    ensures Write(ram, at, data)[at..at + |data|] == data
  {
  }

  lemma WriteOver(ram: seq<Byte>, at: nat, a: seq<Byte>, b: seq<Byte>)
    requires |a| == |b| && at + |a| <= |ram|
    ensures Write(Write(ram, at, a), at, b) == Write(ram, at, b)
  {
  }

  lemma WriteSame(ram: seq<Byte>, at: nat, len: nat)
    requires at + len <= |ram|
    ensures Write(ram, at, ram[at..at + len]) == ram
  {
  }

  /** One more block judged: it is accounted for, and so is everything else still. */
  lemma OneMoreBlock(f: Compressor, env: Env, d: Drive, ram: seq<Byte>, table: seq<Digest>, caps: seq<nat>, verdicts: seq<Verdict>,
                     landed: nat, want: Digest, cap: nat, v: Verdict)
    requires Accounted(f, env, d, ram, table, caps, verdicts, landed)
    requires |table| * BLOCK < |ram| && BlockEnd(|ram|, |table|) <= landed && d.Possible(cap)
    requires env.entry(|table|) == Some(want) && Tells(f, env, d, BlockOf(table + [want], |ram|, |table|), cap, v)
    ensures var k := |table|; var b := BlockOf(table + [want], |ram|, k);
      Accounted(f, env, d, Write(ram, b.off, Leaves(env, d, b, cap, v)), table + [want], caps + [cap], verdicts + [v], landed)
  {
    hide Tells, Leaves, Ended, Write, BlockBytes;
    var k, table' := |table|, table + [want];
    var b := BlockOf(table', |ram|, k);
    var data := Leaves(env, d, b, cap, v);
    var ram' := Write(ram, b.off, data);
    forall j | 0 <= j < |table'| ensures Ended(f, env, d, ram', table', (caps + [cap])[j], (verdicts + [v])[j], j) {
      if j < k {
        OtherBlockKept(ram, k, data, j);
        EndedFrame(f, env, d, ram, ram', table, table', caps[j], verdicts[j], j);
      } else {
        EndedNow(f, env, d, ram, table', cap, v, k);
      }
    }
    forall p | |table'| * BLOCK <= p < landed ensures ram'[p] == env.arrives(p) {
      WriteBehind(ram, b.off, data, p);
    }
  }

  lemma EndedNow(f: Compressor, env: Env, d: Drive, ram: seq<Byte>, table: seq<Digest>, cap: nat, v: Verdict, k: nat)
    requires k + 1 == |table| && k * BLOCK < |ram| && d.Possible(cap) && env.entry(k) == Some(table[k])
    requires Tells(f, env, d, BlockOf(table, |ram|, k), cap, v)
    ensures var b := BlockOf(table, |ram|, k); Ended(f, env, d, Write(ram, b.off, Leaves(env, d, b, cap, v)), table, cap, v, k)
  {
    hide Tells, Leaves, Before, Write;
    WriteGives(ram, k * BLOCK, Leaves(env, d, BlockOf(table, |ram|, k), cap, v));
  }

  lemma WriteBehind(ram: seq<Byte>, at: nat, data: seq<Byte>, p: nat)
    requires at + |data| <= p < |ram|
    ensures Write(ram, at, data)[p] == ram[p]
  {
  }

  /** Bytes that land behind the judged blocks. */
  lemma MoreLanded(f: Compressor, env: Env, d: Drive, ram: seq<Byte>, table: seq<Digest>, caps: seq<nat>, verdicts: seq<Verdict>, landed: nat, n: nat)
    requires Accounted(f, env, d, ram, table, caps, verdicts, landed) && landed + n <= |ram|
    requires |table| > 0 ==> BlockEnd(|ram|, |table| - 1) <= landed
    ensures Accounted(f, env, d, Write(ram, landed, Taken(env.arrives, landed, n)), table, caps, verdicts, landed + n)
  {
    hide Ended, Taken, Write, BlockBytes;
    var data := Taken(env.arrives, landed, n);
    var ram' := Write(ram, landed, data);
    forall k | 0 <= k < |table| ensures Ended(f, env, d, ram', table, caps[k], verdicts[k], k) {
      EndsInOrder(|ram|, k, |table| - 1);
      HeadKept(ram, landed, data, k);
      EndedFrame(f, env, d, ram, ram', table, table, caps[k], verdicts[k], k);
    }
    forall p | |table| * BLOCK <= p < landed + n ensures ram'[p] == env.arrives(p) {
      LandedAt(env.arrives, ram, landed, n, p);
    }
  }

  lemma LandedLess(f: Compressor, env: Env, d: Drive, ram: seq<Byte>, table: seq<Digest>, caps: seq<nat>, verdicts: seq<Verdict>, landed: nat, more: nat)
    requires Accounted(f, env, d, ram, table, caps, verdicts, more) && landed <= more
    ensures Accounted(f, env, d, ram, table, caps, verdicts, landed)
  {
    hide Ended;
  }

  lemma HeadKept(ram: seq<Byte>, landed: nat, data: seq<Byte>, k: nat)
    requires landed + |data| <= |ram| && k * BLOCK < |ram| && BlockEnd(|ram|, k) <= landed
    ensures BlockBytes(Write(ram, landed, data), k) == BlockBytes(ram, k)
  {
    WriteKeeps(ram, landed, data, k * BLOCK, BlockEnd(|ram|, k));
  }

  lemma LandedAt(g: nat -> Byte, ram: seq<Byte>, landed: nat, n: nat, p: nat)
    requires landed + n <= |ram| && p < landed + n && (p < landed ==> ram[p] == g(p))
    ensures Write(ram, landed, Taken(g, landed, n))[p] == g(p)
  {
    if p >= landed {
      assert Write(ram, landed, Taken(g, landed, n))[p] == Taken(g, landed, n)[p - landed];
    }
  }

  lemma EndsInOrder(length: nat, j: nat, k: nat)
    requires j <= k
    ensures BlockEnd(length, j) <= BlockEnd(length, k)
  {
  }

  /** A block that has landed and not been judged is as it came. */
  lemma AsItCame(f: Compressor, env: Env, d: Drive, ram: seq<Byte>, table: seq<Digest>, caps: seq<nat>, verdicts: seq<Verdict>, landed: nat, b: Block)
    requires Accounted(f, env, d, ram, table, caps, verdicts, landed)
    requires b.off == |table| * BLOCK < |ram| && b.off + b.len == BlockEnd(|ram|, |table|) <= landed
    ensures ram[b.off..b.off + b.len] == Came(env, b)
  {
    hide Ended;
    forall i | 0 <= i < b.len ensures ram[b.off..b.off + b.len][i] == Came(env, b)[i] {
      assert ram[b.off + i] == env.arrives(b.off + i);
    }
  }

  /** After a block the chain is the one the table says: from its own bytes when accepted, from its entry otherwise. */
  lemma ChainGoesOn(f: Compressor, env: Env, d: Drive, ram: seq<Byte>, table: seq<Digest>, cap: nat, v: Verdict, k: nat, sha: Chain)
    requires k + 1 == |table| && (k + 1) * BLOCK < |ram| && Ended(f, env, d, ram, table, cap, v, k)
    requires if v.Kept() then sha == Absorb(f, Before(table, k), Leaves(env, d, BlockOf(table, |ram|, k), cap, v)) else sha == ResumedAt(table[k], k)
    ensures sha == Before(table, k + 1)
  {
    if v.Kept() {
      EndedKept(f, env, d, ram, table, cap, v, k);
      NextChain(f, ram, table, k);
    }
    hide Absorb, Before, Leaves, Tells, BlockBytes, BlockOk;
  }

  /** The chain behind block k, from its entry. */
  function ResumedAt(want: Digest, k: nat): Chain {
    Chain(BytesState(want), (k + 1) * BLOCK % TWO32, [])
  }

  // ---- What follows for a whole load ----

  /** RAM is what a load leaves: the outside accounts for all of it, and every block up to an entry that cannot be read was judged. */
  ghost predicate Explained(f: Compressor, env: Env, d: Drive, ram: seq<Byte>) {
    exists table, caps, verdicts ::
      && Accounted(f, env, d, ram, table, caps, verdicts, |ram|) && Legal(verdicts)
      && (|table| == BlockCount(|ram|) || env.entry(|table|).None?)
  }

  /** All blocks accepted: RAM hashes to the last entry. */
  lemma KeptMakeTheFile(f: Compressor, env: Env, d: Drive, ram: seq<Byte>, table: seq<Digest>, caps: seq<nat>, verdicts: seq<Verdict>)
    requires Accounted(f, env, d, ram, table, caps, verdicts, |ram|)
    requires 0 < |ram| < TWO32 && IsBlockCount(|table|, |ram|) && CountsOf(verdicts).bad == 0
    ensures Hash(f, ram) == table[|table| - 1]
  {
    hide Ended, Hash, BlockOk;
    NoBadMeansKept(verdicts);
    forall k | 0 <= k < |table| ensures BlockOk(f, ram, table, k) {
      EndedKept(f, env, d, ram, table, caps[k], verdicts[k], k);
    }
    BlocksMakeTheFile(f, ram, table);
  }

  /** The bytes that land are the payload's, and every entry that can be read is the one the installer made for it. */
  ghost predicate Faithful(f: Compressor, env: Env, payload: seq<Byte>)
    requires |payload| < TWO32
  {
    && (forall p :: 0 <= p < |payload| ==> env.arrives(p) == payload[p])
    && (forall k :: 0 <= k < BlockCount(|payload|) && env.entry(k).Some? ==> env.entry(k).value == ChainEntries(f, payload)[k])
  }

  /** No false alarm: a faithful load is accepted as it lies, block by block, and is the payload. */
  lemma FaithfulLoad(f: Compressor, env: Env, d: Drive, ram: seq<Byte>, table: seq<Digest>, caps: seq<nat>, verdicts: seq<Verdict>, payload: seq<Byte>)
    requires Accounted(f, env, d, ram, table, caps, verdicts, |ram|) && |ram| == |payload| < TWO32 && Faithful(f, env, payload)
    ensures ram == payload && (forall k :: 0 <= k < |verdicts| ==> verdicts[k].Good?) && CountsOf(verdicts) == NONE
  {
    hide Ended, Faithful, CountsOf;
    forall k | 0 <= k < |table| ensures verdicts[k].Good? && BlockBytes(ram, k) == BlockBytes(payload, k) {
      hide BlockBytes;
      FaithfulTable(f, env, d, ram, table, caps, verdicts, payload);
      FaithfulBlock(f, env, d, ram, table, caps[k], verdicts[k], payload, k);
    }
    forall p | 0 <= p < |ram| ensures ram[p] == payload[p] {
      var k := p / BLOCK;
      if k < |table| {
        assert BlockBytes(ram, k)[p - k * BLOCK] == BlockBytes(payload, k)[p - k * BLOCK];
      } else {
        FaithfulByte(f, env, payload, p);
      }
    }
    AllGoodCounts(verdicts);
  }

  lemma FaithfulByte(f: Compressor, env: Env, payload: seq<Byte>, p: nat)
    requires p < |payload| < TWO32 && Faithful(f, env, payload)
    ensures env.arrives(p) == payload[p]
  {
    hide ChainEntries;
  }

  lemma FaithfulTable(f: Compressor, env: Env, d: Drive, ram: seq<Byte>, table: seq<Digest>, caps: seq<nat>, verdicts: seq<Verdict>, payload: seq<Byte>)
    requires Accounted(f, env, d, ram, table, caps, verdicts, |ram|) && |ram| == |payload| < TWO32 && Faithful(f, env, payload)
    ensures |table| <= BlockCount(|payload|) && table == ChainEntries(f, payload)[..|table|]
  {
    hide ChainEntries, Tells, Leaves;
    forall k | 0 <= k < |table| ensures table[k] == ChainEntries(f, payload)[k] {
      assert Ended(f, env, d, ram, table, caps[k], verdicts[k], k);
    }
  }

  lemma FaithfulBlock(f: Compressor, env: Env, d: Drive, ram: seq<Byte>, table: seq<Digest>, cap: nat, v: Verdict, payload: seq<Byte>, k: nat)
    requires |ram| == |payload| < TWO32 && k * BLOCK < |ram| && k < |table| <= BlockCount(|payload|) && table == ChainEntries(f, payload)[..|table|]
    requires Faithful(f, env, payload) && Ended(f, env, d, ram, table, cap, v, k)
    ensures v.Good? && BlockBytes(ram, k) == BlockBytes(payload, k)
  {
    hide ChainEntries, Absorb, EntryOf, Before, BytesState;
    InstallerTableAccepts(f, payload, k);
    BlockOkFrame(f, payload, payload, table, ChainEntries(f, payload), k);
    var b := BlockOf(table, |ram|, k);
    forall i | 0 <= i < b.len ensures Came(env, b)[i] == BlockBytes(payload, k)[i] {
      FaithfulByte(f, env, payload, b.off + i);
    }
    assert Came(env, b) == BlockBytes(payload, k);
  }

  lemma {:induction false} AllGoodCounts(log: seq<Verdict>)
    requires forall k :: 0 <= k < |log| ==> log[k].Good?
    ensures CountsOf(log) == NONE
  {
    if log == [] {
    } else {
      AllGoodCounts(log[..|log| - 1]);
    }
  }

  /** A block that stayed bad is one for which nothing that could be read was right, or comes after three of those. */
  lemma {:induction false} BadMeansReported(log: seq<Verdict>)
    requires Legal(log) && CountsOf(log).bad > 0
    ensures exists k :: 0 <= k < |log| && log[k].Reported?
  {
    var p, v := log[..|log| - 1], log[|log| - 1];
    if CountsOf(p).bad > 0 {
      BadMeansReported(p);
      var k :| 0 <= k < |p| && p[k].Reported?;
      assert log[k].Reported?;
    } else {
      assert v.Reported?;
    }
  }

  lemma {:induction false} BadCounts(log: seq<Verdict>, k: nat)
    requires k < |log| && !log[k].Kept()
    ensures CountsOf(log).bad > 0
  {
    if k == |log| - 1 {
    } else {
      BadCounts(log[..|log| - 1], k);
    }
  }

  /** The entries from the start of the table that can be read, as far as n. */
  predicate Readable(env: Env, n: nat) {
    forall k :: 0 <= k < n ==> env.entry(k).Some?
  }

  function Entries(env: Env, n: nat): (table: seq<Digest>)
    requires Readable(env, n)
    ensures |table| == n
  {
    seq(n, k requires 0 <= k < n => env.entry(k).value)
  }

  /** Block k does not match as it comes, and at transfer sizes from `cap` down nothing that can be read of it does. */
  ghost predicate StaysWrong(f: Compressor, env: Env, d: Drive, length: nat, k: nat, cap: nat) {
    && k * BLOCK < length && d.Possible(cap) && Readable(env, k + 1)
    && Tells(f, env, d, BlockOf(Entries(env, k + 1), length, k), cap, Reported)
  }

  /** Some block stays wrong from some size on. */
  ghost predicate Spoilt(f: Compressor, env: Env, d: Drive, length: nat) {
    exists k, cap :: StaysWrong(f, env, d, length, k, cap)
  }

  /** Some block stays wrong whatever the size. */
  ghost predicate Hopeless(f: Compressor, env: Env, d: Drive, length: nat) {
    exists k :: HopelessBlock(f, env, d, length, k)
  }

  ghost predicate HopelessBlock(f: Compressor, env: Env, d: Drive, length: nat, k: nat) {
    k * BLOCK < length && forall cap :: d.Possible(cap) ==> StaysWrong(f, env, d, length, k, cap)
  }

  lemma AccountedTable(f: Compressor, env: Env, d: Drive, ram: seq<Byte>, table: seq<Digest>, caps: seq<nat>, verdicts: seq<Verdict>, landed: nat, n: nat)
    requires Accounted(f, env, d, ram, table, caps, verdicts, landed) && n <= |table|
    ensures Readable(env, n) && Entries(env, n) == table[..n]
  {
    hide Tells, Leaves;
    forall k | 0 <= k < n ensures env.entry(k) == Some(table[k]) {
      assert Ended(f, env, d, ram, table, caps[k], verdicts[k], k);
    }
  }

  lemma SameBlock(table: seq<Digest>, length: nat, k: nat)
    requires k < |table| && k * BLOCK < length
    ensures BlockOf(table[..k + 1], length, k) == BlockOf(table, length, k)
  {
  }

  /** A load with a bad block has one that stays wrong. */
  lemma BadIsSpoilt(f: Compressor, env: Env, d: Drive, ram: seq<Byte>, table: seq<Digest>, caps: seq<nat>, verdicts: seq<Verdict>)
    requires Accounted(f, env, d, ram, table, caps, verdicts, |ram|) && Legal(verdicts) && CountsOf(verdicts).bad > 0
    ensures Spoilt(f, env, d, |ram|)
  {
    hide Tells, Leaves, BlockOf, CountsOf, Legal;
    BadMeansReported(verdicts);
    var k :| 0 <= k < |verdicts| && verdicts[k].Reported?;
    AccountedTable(f, env, d, ram, table, caps, verdicts, |ram|, k + 1);
    SameBlock(table, |ram|, k);
    assert Ended(f, env, d, ram, table, caps[k], verdicts[k], k);
    assert StaysWrong(f, env, d, |ram|, k, caps[k]);
  }

  /** A hopeless block lies before any entry that cannot be read. */
  lemma HopelessReached(f: Compressor, env: Env, d: Drive, length: nat, k: nat, cap: nat)
    requires HopelessBlock(f, env, d, length, k) && d.Possible(cap)
    ensures k * BLOCK < length && Readable(env, k + 1)
  {
    assert StaysWrong(f, env, d, length, k, cap);
  }

  /** A load that got to a hopeless block has a bad one. */
  lemma HopelessIsBad(f: Compressor, env: Env, d: Drive, ram: seq<Byte>, table: seq<Digest>, caps: seq<nat>, verdicts: seq<Verdict>, k: nat)
    requires Accounted(f, env, d, ram, table, caps, verdicts, |ram|) && k < |table| && HopelessBlock(f, env, d, |ram|, k)
    ensures CountsOf(verdicts).bad > 0
  {
    hide Leaves, BlockOf, CountsOf, Gives, Again, Other;
    AccountedTable(f, env, d, ram, table, caps, verdicts, |ram|, k + 1);
    SameBlock(table, |ram|, k);
    assert Ended(f, env, d, ram, table, caps[k], verdicts[k], k);
    assert StaysWrong(f, env, d, |ram|, k, caps[k]);
    BadCounts(verdicts, k);
  }

  // ---- The engine ----

  class Engine {
    const f: Compressor
    const h: Hooks
    const length: nat
    const nblocks: nat
    const scratchLen: nat
    var sha: Chain
    var landed: nat
    var next: nat
    var off: bool
    var healed: U16
    var second: U16
    var bad: U16
    var retries: U16
    var mismatches: U16
    var unreported: U16
    ghost var table: seq<Digest>      // the entries read so far
    ghost var caps: seq<nat>          // the transfer cap each block was judged at
    ghost var verdicts: seq<Verdict>  // how each ended

    /** The 16-bit counters hold the true counts, `retries` modulo 2^16. */
    ghost predicate Counted()
      reads this
    {
      Legal(verdicts) && Counters(CountsOf(verdicts))
    }

    ghost predicate Counters(c: Counts)
      reads this
    {
      && healed == c.healed && second == c.second && bad == c.bad && retries == c.retries % TWO16
      && mismatches == c.mismatches && unreported == c.unreported
    }

    ghost predicate Shape()
      reads this, h
    {
      && h.Valid() && |h.ram| == length <= MAX_LENGTH && IsBlockCount(nblocks, length) && scratchLen > 0
      && next <= nblocks && landed <= length
      && Counted() && |table| == |caps| == |verdicts| <= nblocks
    }

    /**
     * Everything known once n blocks have been looked at: what was judged is
     * accounted for, checking is off exactly from the first entry that cannot
     * be read, and otherwise the chain is where the table says.
     */
    ghost predicate Checked(n: nat)
      reads this, h
    {
      && Shape() && n <= nblocks && Accounted(f, h.env, h.drive, h.ram, table, caps, verdicts, landed)
      && (off ==> |table| < n && h.env.entry(|table|).None?)
      && (!off ==> |table| == n && (n < nblocks ==> sha == Before(table, n)))
    }

    ghost predicate Valid()
      reads this, h
    {
      Checked(next) && (next > 0 ==> BlockEnd(length, next - 1) <= landed)
    }

    /** Every complete block has been looked at, and no other. */
    ghost predicate CaughtUp()
      reads this
    {
      next < nblocks ==> landed < BlockEnd(length, next)
    }

    constructor (f: Compressor, h: Hooks, length: nat, nblocks: nat, scratchLen: nat)
      requires h.Valid() && |h.ram| == length <= MAX_LENGTH && IsBlockCount(nblocks, length) && scratchLen > 0
      ensures this.f == f && this.h == h && this.length == length && this.nblocks == nblocks
      ensures Valid() && landed == next == 0 && !off && table == [] && verdicts == []
    {
      this.f, this.h, this.length, this.nblocks, this.scratchLen := f, h, length, nblocks, scratchLen;
      sha, landed, next, off := INIT, 0, 0, false;
      healed, second, bad, retries, mismatches, unreported := 0, 0, 0, 0, 0, 0;
      table, caps, verdicts := [], [], [];
    }

    /** The chain runs on over [start, start + len) of RAM, read back a scratch buffer at a time. */
    method HashRange(start: nat, len: nat)
      requires scratchLen > 0 && start + len <= |h.ram| && |sha.tail| < 64
      modifies this`sha
      ensures sha == Absorb(f, old(sha), h.ram[start..start + len])
    {
      ghost var c := sha;
      var done := 0;
      AbsorbNothing(f, c);
      while done < len
        invariant 0 <= done <= len
        invariant sha == Absorb(f, c, h.ram[start..start + done])
      {
        var n := if len - done < scratchLen then len - done else scratchLen;
        var piece := h.ram[start + done..start + done + n];
        AbsorbAppend(f, c, h.ram[start..start + done], piece);
        assert h.ram[start..start + done] + piece == h.ram[start..start + done + n];
        sha := Absorb(f, sha, piece);
        done := done + n;
      }
    }

    /** The block lies in RAM and can be hashed. */
    ghost predicate Ready(b: Block)
      reads this, h
    {
      h.Valid() && scratchLen > 0 && b.off + b.len <= |h.ram| && |b.before.tail| < 64
    }

    /** Hash a block again from the chain before it. */
    method Rehash(b: Block) returns (match_: bool)
      requires Ready(b)
      modifies this`sha
      ensures sha == Absorb(f, b.before, h.ram[b.off..b.off + b.len])
      ensures match_ <==> Gives(f, b, h.ram[b.off..b.off + b.len])
    {
      sha := b.before;
      HashRange(b.off, b.len);
      match_ := EntryOf(f, sha, b.last) == b.want;
    }

    /** Re-read t of a block at the cap in force, judged by what arrived. */
    method TryOnce(b: Block, t: nat) returns (m: bool)
      requires Ready(b)
      modifies this`sha, h`ram, h`cap
      ensures Ready(b)
      ensures var r := h.env.reread(b.k, t, old(h.cap));
        && h.ram == Write(old(h.ram), b.off, Data(b, r)) && h.cap == h.drive.Shrunk(old(h.cap), r.cap)
        && (m <==> Right(f, b, r)) && (m ==> sha == Absorb(f, b.before, Data(b, r)))
    {
      hide Gives, Absorb, Write, Data;
      ghost var r := h.env.reread(b.k, t, h.cap);
      WriteGives(h.ram, b.off, Data(b, r));
      m := h.Reread(b, t);
      if m {
        m := Rehash(b);
      }
    }

    /** The transfer size of try t. */
    method Narrow(cap0: nat, t: nat)
      requires h.Valid() && h.drive.Possible(cap0) && 1 <= t
      modifies h`cap
      ensures h.Valid() && h.cap == h.drive.Granted(SizeOf(cap0, t - 1)) <= cap0
    {
      NarrowFits(h.drive, cap0, t - 1);
      var size := Halved(cap0, t - 1);
      if size < 1 {
        size := 1;
      }
      h.SetCap(size);
    }

    /**
     * Up to TRIES re-reads of a block with the transfer size halved each
     * time; returns the number of the try that healed it, or 0 with the old
     * size restored.
     */
    method Reread(b: Block, ghost count: nat) returns (tries: nat)
      requires Ready(b) && retries == count % TWO16
      modifies this`sha, this`retries, h`ram, h`cap
      ensures Ready(b) && tries <= TRIES && retries == (count + if tries == 0 then TRIES else tries) % TWO16
      ensures var t := if tries == 0 then TRIES else tries; h.ram == Write(old(h.ram), b.off, Data(b, Again(h.env, h.drive, b, old(h.cap), t - 1)))
      ensures tries == 0 ==> NoneRight(f, h.env, h.drive, b, old(h.cap), TRIES) && h.cap == old(h.cap)
      ensures tries > 0 ==> HealedBy(b, old(h.cap), tries)
    {
      hide Gives, Absorb, Right, SizeOf, Write, Data;
      var cap0 := h.cap;
      var t := 1;
      while t <= TRIES
        invariant 1 <= t <= TRIES + 1 && Ready(b) && |h.ram| == |old(h.ram)|
        invariant retries == (count + t - 1) % TWO16
        invariant NoneRight(f, h.env, h.drive, b, cap0, t - 1)
        invariant if t == 1 then h.ram == old(h.ram) else h.ram == Write(old(h.ram), b.off, Data(b, Again(h.env, h.drive, b, cap0, t - 2)))
      {
        Narrow(cap0, t);
        Wrap16(count + t - 1);
        retries := (retries + 1) % TWO16;
        ghost var ram0, r := h.ram, Again(h.env, h.drive, b, cap0, t - 1);
        var m := TryOnce(b, t - 1);
        Overwritten(old(h.ram), ram0, b, if t == 1 then None else Some(Again(h.env, h.drive, b, cap0, t - 2)), r);
        if m {
          return t;
        }
        t := t + 1;
      }
      NarrowFits(h.drive, cap0, 0);
      h.SetCap(cap0);
      tries := 0;
    }

    /** Try `tries` was the first that was right: its bytes are hashed, and its size stays. */
    ghost predicate HealedBy(b: Block, cap: nat, tries: nat)
      reads this, h
    {
      && tries > 0 && var r := Again(h.env, h.drive, b, cap, tries - 1);
      && NoneRight(f, h.env, h.drive, b, cap, tries - 1) && Right(f, b, r)
      && sha == Absorb(f, b.before, Data(b, r))
      && h.cap == h.drive.Shrunk(h.drive.Granted(SizeOf(cap, tries - 1)), r.cap)
    }

    /** A block from another drive, if there is one, judged like any other read. */
    method FromSecond(b: Block) returns (ok: bool)
      requires Ready(b)
      modifies this`sha, h`ram, h`cap
      ensures Ready(b) && h.cap == SecondCap(h.env, h.drive, b, old(h.cap))
      ensures h.env.second.None? ==> !ok && h.ram == old(h.ram)
      ensures h.env.second.Some? ==> var r := Other(h.env, b, old(h.cap));
        h.ram == Write(old(h.ram), b.off, Data(b, r)) && (ok <==> Right(f, b, r)) && (ok ==> sha == Absorb(f, b.before, Data(b, r)))
    {
      hide Gives, Absorb, Write, Data;
      ok := false;
      if h.env.second.Some? {
        WriteGives(h.ram, b.off, Data(b, Other(h.env, b, h.cap)));
        ok := h.Second(b);
        if ok {
          ok := Rehash(b);
        }
      }
    }

    /** What a verdict leaves behind: RAM, cap, and the chain to go on from. */
    ghost predicate Leaving(b: Block, cap: nat, ram0: seq<Byte>, v: Verdict)
      requires b.off + b.len <= |ram0|
      reads this, h
    {
      && h.ram == Write(ram0, b.off, Leaves(h.env, h.drive, b, cap, v)) && h.cap == CapAfter(h.env, h.drive, b, cap, v)
      && (v.Kept() ==> sha == Absorb(f, b.before, Leaves(h.env, h.drive, b, cap, v)))
      && (!v.Kept() && !b.last ==> sha == ResumedAt(b.want, b.k))
    }

    /** A block that does not match, after BAD_LIMIT bad ones: counted only. */
    method GiveUp(b: Block, ghost c: Counts)
      requires Ready(b) && Counters(c) && Room(c) && h.ram[b.off..b.off + b.len] == Came(h.env, b)
      modifies this`sha, this`bad, this`mismatches, this`unreported
      ensures Ready(b) && Counters(Bump(c, Unreported)) && Leaving(b, h.cap, h.ram, Unreported)
    {
      WriteSame(h.ram, b.off, b.len);
      mismatches := mismatches + 1;
      bad := bad + 1;
      unreported := unreported + 1;
      Resume(b);
    }

    /** A block that does not match: re-read it, try the second source, or report it and resume the chain. */
    method Heal(b: Block, ghost c: Counts) returns (ghost v: Verdict)
      requires Ready(b) && Counters(c) && Room(c) && c.bad < BAD_LIMIT && !Gives(f, b, Came(h.env, b))
      modifies this`sha, this`healed, this`second, this`bad, this`retries, this`mismatches, h`ram, h`cap
      ensures Ready(b) && MayFollow(c.bad, v) && Counters(Bump(c, v))
      ensures Tells(f, h.env, h.drive, b, old(h.cap), v) && Leaving(b, old(h.cap), old(h.ram), v)
    {
      hide Gives, Absorb, Right, SizeOf, Write, Data, NoneRight;
      ghost var ram0, cap0 := h.ram, h.cap;
      mismatches := mismatches + 1;
      var t := Reread(b, c.retries);
      if t > 0 {
        healed := healed + 1;
        return Healed(t);
      }
      ghost var last := Again(h.env, h.drive, b, cap0, TRIES - 1);
      var other := FromSecond(b);
      if h.env.second.Some? {
        WriteOver(ram0, b.off, Data(b, last), Data(b, Other(h.env, b, cap0)));
      }
      if other {
        second := second + 1;
        return SecondSource;
      }
      bad := bad + 1;
      h.Report(b);
      Resume(b);
      return Reported;
    }

    method Mismatch(b: Block, ghost c: Counts) returns (ghost v: Verdict)
      requires Ready(b) && Counters(c) && Room(c) && !Gives(f, b, Came(h.env, b)) && h.ram[b.off..b.off + b.len] == Came(h.env, b)
      modifies this`sha, this`healed, this`second, this`bad, this`retries, this`mismatches, this`unreported, h`ram, h`cap
      ensures Ready(b) && MayFollow(c.bad, v) && Counters(Bump(c, v))
      ensures Tells(f, h.env, h.drive, b, old(h.cap), v) && Leaving(b, old(h.cap), old(h.ram), v)
    {
      hide Gives, NoneRight, Write;
      if bad >= BAD_LIMIT {
        GiveUp(b, c);
        v := Unreported;
      } else {
        v := Heal(b, c);
      }
    }

    /** Judges block k, which has just been completed, by entry k. */
    method Judge(b: Block)
      requires Checked(b.k) && b.k < nblocks && next == b.k + 1 && !off && BlockEnd(length, b.k) <= landed
      requires h.env.entry(b.k) == Some(b.want) && b == BlockOf(table + [b.want], length, b.k)
      modifies this`sha, this`healed, this`second, this`bad, this`retries, this`mismatches, this`unreported,
               this`table, this`caps, this`verdicts, h`ram, h`cap
      ensures Checked(b.k + 1) && Judged(b, old(h.cap), old(h.ram), old(table), old(caps), old(verdicts))
    {
      hide Gives, Absorb, Legal, CountsOf, Tells, Accounted, Leaves, CapAfter, Write, Bump, MayFollow;
      ghost var ram0, cap0 := h.ram, h.cap;
      AsItCame(f, h.env, h.drive, h.ram, table, caps, verdicts, landed, b);
      var m := Rehash(b);
      ghost var v := Good;
      if m {
        AcceptedAsItCame(b);
      } else {
        LegalIsBalanced(verdicts);
        v := Mismatch(b, CountsOf(verdicts));
      }
      Conclude(b, cap0, ram0, v);
    }

    lemma AcceptedAsItCame(b: Block)
      requires Ready(b) && Gives(f, b, Came(h.env, b)) && h.ram[b.off..b.off + b.len] == Came(h.env, b) && sha == Absorb(f, b.before, Came(h.env, b))
      ensures Tells(f, h.env, h.drive, b, h.cap, Good) && Leaving(b, h.cap, h.ram, Good)
      ensures forall c :: Bump(c, Good) == c && MayFollow(c.bad, Good)
    {
      WriteSame(h.ram, b.off, b.len);
    }

    /** One more entry, cap and verdict; the verdict, what RAM and cap came to and nothing else follow from the outside. */
    ghost predicate Judged(b: Block, cap: nat, ram0: seq<Byte>, table0: seq<Digest>, caps0: seq<nat>, verdicts0: seq<Verdict>)
      requires b.off + b.len <= |ram0|
      reads this, h
    {
      && table == table0 + [b.want] && caps == caps0 + [cap] && |verdicts| == |verdicts0| + 1 && verdicts0 <= verdicts
      && var v := verdicts[|verdicts0|];
      && Tells(f, h.env, h.drive, b, cap, v) && MayFollow(CountsOf(verdicts0).bad, v)
      && h.ram == Write(ram0, b.off, Leaves(h.env, h.drive, b, cap, v)) && h.cap == CapAfter(h.env, h.drive, b, cap, v)
    }

    /** Records the verdict on block k. */
    ghost method Conclude(b: Block, cap: nat, ram0: seq<Byte>, v: Verdict)
      requires Sized() && b.k < nblocks && next == b.k + 1 && !off && |table| == |caps| == |verdicts| == b.k && BlockEnd(length, b.k) <= landed
      requires h.env.entry(b.k) == Some(b.want) && b == BlockOf(table + [b.want], length, b.k) && |ram0| == length && h.drive.Possible(cap)
      requires Accounted(f, h.env, h.drive, ram0, table, caps, verdicts, landed)
      requires Legal(verdicts) && MayFollow(CountsOf(verdicts).bad, v) && Counters(Bump(CountsOf(verdicts), v))
      requires Tells(f, h.env, h.drive, b, cap, v) && Leaving(b, cap, ram0, v)
      modifies this`table, this`caps, this`verdicts
      ensures Checked(b.k + 1) && Judged(b, cap, ram0, old(table), old(caps), old(verdicts))
    {
      hide Absorb, Legal, CountsOf, Bump, MayFollow, Accounted, Before, Leaves, Tells, CapAfter, Write, BytesState;
      OneMoreBlock(f, h.env, h.drive, ram0, table, caps, verdicts, landed, b.want, cap, v);
      CountsAppend(verdicts, v);
      LastBlock(nblocks, length, b.k);
      if b.k + 1 < nblocks {
        EndedNow(f, h.env, h.drive, ram0, table + [b.want], cap, v, b.k);
        ChainGoesOn(f, h.env, h.drive, h.ram, table + [b.want], cap, v, b.k, sha);
      }
      table, caps, verdicts := table + [b.want], caps + [cap], verdicts + [v];
    }

    ghost predicate Sized()
      reads this, h
    {
      h.Valid() && |h.ram| == length <= MAX_LENGTH && IsBlockCount(nblocks, length) && scratchLen > 0 && landed <= length
    }

    /** Checks block k, which has just been completed. */
    method CheckBlock(k: nat)
      requires Checked(k) && k < nblocks && next == k + 1 && BlockEnd(length, k) <= landed
      modifies this`sha, this`off, this`healed, this`second, this`bad, this`retries, this`mismatches, this`unreported,
               this`table, this`caps, this`verdicts, h`ram, h`cap
      ensures Checked(k + 1)
      // off is set exactly by an entry that cannot be read and never taken back, and nothing is judged or touched while it is
      ensures off <==> old(off) || h.env.entry(k).None?
      ensures off ==> h.ram == old(h.ram) && table == old(table) && caps == old(caps) && verdicts == old(verdicts)
      ensures off ==> h.cap == if old(off) then old(h.cap) else h.drive.Shrunk(old(h.cap), h.env.entryCap(k))
      // otherwise the outside alone decides the verdict, the block's bytes in RAM and the cap
      ensures !off ==> var cap := h.drive.Shrunk(old(h.cap), h.env.entryCap(k));
        && k == |old(table)| && k * BLOCK < length == |old(h.ram)|
        && Judged(BlockOf(old(table) + [h.env.entry(k).value], length, k), cap, old(h.ram), old(table), old(caps), old(verdicts))
    {
      hide Accounted, Legal, CountsOf, Judged;
      if off {
        return;
      }
      var want := h.Entry(k);
      if want.None? {
        off := true;
        return;
      }
      LastBlock(nblocks, length, k);
      var end := if length - k * BLOCK < BLOCK then length else k * BLOCK + BLOCK;
      var b := Block(k, k * BLOCK, end - k * BLOCK, sha, want.value, k + 1 == nblocks);
      assert b == BlockOf(table + [b.want], length, k) by {
        BeforeSame(table, b.want, k);
      }
      Judge(b);
    }

    /** `bytes` more bytes are in RAM; checks every block that is now complete. */
    method Landed(bytes: nat)
      requires Valid() && landed + bytes <= length
      requires Accounted(f, h.env, h.drive, h.ram, table, caps, verdicts, landed + bytes)
      modifies this, h`ram, h`cap
      ensures Valid() && CaughtUp() && landed == old(landed) + bytes && next >= old(next) && h.cap <= old(h.cap)
      ensures old(table) <= table && old(caps) <= caps && old(verdicts) <= verdicts
    {
      hide Accounted, Before, IsBlockCount, CountsOf, Legal, BlockEnd;
      landed := landed + bytes;
      while next < nblocks
        invariant Valid() && landed == old(landed) + bytes && next >= old(next) && h.cap <= old(h.cap)
        invariant old(table) <= table && old(caps) <= caps && old(verdicts) <= verdicts
        decreases nblocks - next
      {
        EndFits();
        var end := (next + 1) * BLOCK % TWO32;
        if end > length {
          end := length;
        }
        if landed < end {
          break;
        }
        CheckNext();
      }
    }

    /** The 32-bit end of the next block never wraps. */
    lemma EndFits()
      requires Shape() && next < nblocks
      ensures var end := (next + 1) * BLOCK % TWO32; BlockEnd(length, next) == if end > length then length else end
    {
    }

    method CheckNext()
      requires Valid() && next < nblocks && BlockEnd(length, next) <= landed
      modifies this`next, this`sha, this`off, this`healed, this`second, this`bad, this`retries, this`mismatches, this`unreported,
               this`table, this`caps, this`verdicts, h`ram, h`cap
      ensures Valid() && next == old(next) + 1 && h.cap <= old(h.cap)
      ensures old(table) <= table && old(caps) <= caps && old(verdicts) <= verdicts
    {
      hide Accounted, CountsOf, Legal, Before, BlockEnd, Tells, Leaves, CapAfter, Write, MayFollow;
      next := next + 1;
      CheckBlock(next - 1);
      if !off {
        var k := next - 1;
        ghost var cap := h.drive.Shrunk(old(h.cap), h.env.entryCap(k));
        CapNeverRaised(h.env, h.drive, BlockOf(table, length, k), cap, verdicts[k]);
      }
    }

    /**
     * A whole load, in pieces of any sizes: the outside accounts for every
     * byte in RAM and every verdict; checking ended early exactly if an entry
     * could not be read; and if none was missing and no block stayed bad,
     * RAM hashes to the table's last entry.
     */
    method Load()
      requires Valid() && landed == next == 0 && !off && table == [] && verdicts == []
      modifies this, h`ram, h`cap
      ensures Valid() && landed == length && next == nblocks && h.cap <= old(h.cap)
      ensures Accounted(f, h.env, h.drive, h.ram, table, caps, verdicts, length)
      ensures off <==> !Readable(h.env, nblocks)
      ensures !off ==> |table| == nblocks
      ensures off ==> |table| < nblocks && h.env.entry(|table|).None?
      ensures !off && bad == 0 && length > 0 ==> h.env.entry(nblocks - 1) == Some(Hash(f, h.ram))
      ensures Legal(verdicts) && Counters(CountsOf(verdicts)) && Balanced(CountsOf(verdicts), |verdicts|)
    {
      hide Accounted, Before, CountsOf, Legal, Hash, Balanced, Write, Taken;
      while landed < length
        invariant Valid() && CaughtUp() && h.cap <= old(h.cap)
        decreases length - landed
      {
        var n: int := *;
        if n <= 0 || n > length - landed {
          n := length - landed;
        }
        MoreLanded(f, h.env, h.drive, h.ram, table, caps, verdicts, landed, n);
        LandedLess(f, h.env, h.drive, Write(h.ram, landed, Taken(h.env.arrives, landed, n)), table, caps, verdicts, landed, landed + n);
        h.Land(landed, n);
        Landed(n);
      }
      Whole();
      LegalIsBalanced(verdicts);
    }

    /** What is known once the whole range has landed. */
    lemma Whole()
      requires Valid() && CaughtUp() && landed == length
      ensures next == nblocks && (off <==> !Readable(h.env, nblocks))
      ensures !off && bad == 0 && length > 0 ==> h.env.entry(nblocks - 1) == Some(Hash(f, h.ram))
    {
      hide Accounted, Hash, CountsOf, Legal;
      if !off {
        AccountedTable(f, h.env, h.drive, h.ram, table, caps, verdicts, length, nblocks);
        if bad == 0 && length > 0 {
          KeptMakeTheFile(f, h.env, h.drive, h.ram, table, caps, verdicts);
          assert Entries(h.env, nblocks)[nblocks - 1] == table[nblocks - 1];
        }
      }
    }

    /** The blocks after a bad one are judged from what the table says it should have been. */
    method Resume(b: Block)
      modifies this`sha
      ensures sha == if b.last then old(sha) else ResumedAt(b.want, b.k)
    {
      if !b.last {
        sha := Chain(BytesState(b.want), (b.k * BLOCK + BLOCK) % TWO32, []);
      }
    }
  }

  /** A re-read lands on what the one before it left. */
  lemma Overwritten(ram: seq<Byte>, ram0: seq<Byte>, b: Block, was: Option<Reply>, r: Reply)
    requires b.off + b.len <= |ram| && ram0 == if was.None? then ram else Write(ram, b.off, Data(b, was.value))
    ensures Write(ram0, b.off, Data(b, r)) == Write(ram, b.off, Data(b, r))
  {
    if was.Some? {
      WriteOver(ram, b.off, Data(b, was.value), Data(b, r));
    }
  }

  lemma Wrap16(n: nat)
    ensures (n % TWO16 + 1) % TWO16 == (n + 1) % TWO16
  {
  }

  lemma AbsorbNothing(f: Compressor, c: Chain)
    requires |c.tail| < 64
    ensures Absorb(f, c, []) == c
  {
    assert c.tail + [] == c.tail;
  }

  lemma LastBlock(n: nat, length: nat, k: nat)
    requires IsBlockCount(n, length) && k < n
    ensures IsLast(length, k) <==> k + 1 == n
  {
  }

  lemma BeforeSame(table: seq<Digest>, want: Digest, k: nat)
    requires |table| == k
    ensures Before(table + [want], k) == Before(table, k) && (table + [want])[k] == want
  {
  }
}
