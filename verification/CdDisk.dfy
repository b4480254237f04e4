/**
 * The CD build's disk (bios/cdrom_disk.c): 512-byte units served from
 * 2048-byte sectors, over INT 13h or, once that fails, over ATAPI.
 */
module CdDisk {
  import opened Bytes

  const NATIVE := 2048
  const UNITS := 4
  const BATCH := 4
  const ATTEMPTS := 10
  const CHUNK_LIMIT := 127

  type Native = s: seq<Byte> | |s| == 2048 witness Zeros(2048)

  /** One read command: where, how many native sectors, over which backend, and whether it worked. */
  datatype Command = Command(lba: nat, count: nat, int13: bool, ok: bool)

  /** The stream of units a disc of native sectors holds. */
  function UnitAt(disc: nat -> Native, u: nat): Sector {
    disc(u / UNITS)[512 * (u % UNITS)..512 * (u % UNITS) + 512]
  }

  /** n native sectors in a row. */
  function Batch(disc: nat -> Native, lba: nat, n: nat): (b: seq<Byte>)
    ensures |b| == NATIVE * n
  {
    if n == 0 then [] else Batch(disc, lba, n - 1) + disc(lba + n - 1)
  }

  /** The units of a batch are the units of the stream. */
  lemma {:induction false} BatchUnit(disc: nat -> Native, lba: nat, n: nat, k: nat)
    requires k < UNITS * n
    ensures Batch(disc, lba, n)[512 * k..512 * k + 512] == UnitAt(disc, UNITS * lba + k)
  {
    var b, last := Batch(disc, lba, n - 1), disc(lba + n - 1);
    if k < UNITS * (n - 1) {
      BatchUnit(disc, lba, n - 1, k);
      assert (b + last)[512 * k..512 * k + 512] == b[512 * k..512 * k + 512];
    } else {
      var d := k - UNITS * (n - 1);
      assert (UNITS * lba + k) / UNITS == lba + n - 1 && (UNITS * lba + k) % UNITS == d;
      assert (b + last)[512 * k..512 * k + 512] == last[512 * d..512 * d + 512];
    }
  }

  /** Cutting a native sector number to 32 bits is cutting the unit number to 34. */
  lemma Cut(cur: nat)
    ensures UNITS * (cur / UNITS % TWO32) + cur % UNITS == cur % (UNITS * TWO32)
    ensures cur < UNITS * TWO32 ==> cur % (UNITS * TWO32) == cur
  {
    var q := cur / UNITS;
    var a, b := q / TWO32, q % TWO32;
    assert cur == UNITS * TWO32 * a + (UNITS * b + cur % UNITS);
    Remainder(a, UNITS * b + cur % UNITS);
  }

  lemma Remainder(a: nat, r: nat)
    requires r < UNITS * TWO32
    ensures (UNITS * TWO32 * a + r) % (UNITS * TWO32) == r
  {
  }

  // ---- Which unit is served for which ----

  /** Unit numbers whose native sector number fits 32 bits. */
  const LIMIT := UNITS * TWO32

  /** The units a full batch from unit `cur` on holds. */
  function Span(cur: nat, cap: nat): (n: nat)
    requires cap > 0
    ensures n > 0
  {
    UNITS * cap - cur % UNITS
  }

  /** Where the batch that serves unit `u` of a request from `lba` on starts. */
  function StartOf(lba: nat, cap: nat, u: nat): (s: nat)
    requires cap > 0 && lba <= u
    ensures lba <= s <= u < s + Span(s, cap)
    decreases u - lba
  {
    if u < lba + Span(lba, cap) then lba else StartOf(lba + Span(lba, cap), cap, u)
  }

  /** The unit that is served for it: the batch is cut to 34 bits as a whole. */
  function Served(lba: nat, cap: nat, u: nat): nat
    requires cap > 0 && lba <= u
  {
    var s := StartOf(lba, cap, u);
    s % LIMIT + (u - s)
  }

  lemma {:induction false} StartMonotone(lba: nat, cap: nat, u: nat, v: nat)
    requires cap > 0 && lba <= u <= v
    ensures StartOf(lba, cap, u) <= StartOf(lba, cap, v)
    decreases u - lba
  {
    if u < lba + Span(lba, cap) {
    } else {
      StartMonotone(lba + Span(lba, cap), cap, u, v);
    }
  }

  lemma ServedRight(lba: nat, cap: nat, u: nat)
    requires cap > 0 && lba <= u
    ensures Served(lba, cap, u) == u <==> StartOf(lba, cap, u) < LIMIT
    ensures StartOf(lba, cap, u) >= LIMIT ==> Served(lba, cap, u) + LIMIT <= u
  {
    var s := StartOf(lba, cap, u);
    hide StartOf;
    Wraps(s);
  }

  lemma Wraps(s: nat)
    ensures if s < LIMIT then s % LIMIT == s else s % LIMIT + LIMIT <= s
  {
  }

  /** A request is served rightly exactly when its last batch starts below the limit. */
  lemma RightIff(lba: nat, cap: nat, count: nat)
    requires cap > 0 && count > 0
    ensures (forall u :: lba <= u < lba + count ==> Served(lba, cap, u) == u) <==> StartOf(lba, cap, lba + count - 1) < LIMIT
  {
    hide Served, StartOf;
    var last := lba + count - 1;
    ServedRight(lba, cap, last);
    forall u | lba <= u < lba + count && StartOf(lba, cap, last) < LIMIT
      ensures Served(lba, cap, u) == u
    {
      StartMonotone(lba, cap, u, last);
      ServedRight(lba, cap, u);
    }
  }

  function Filled(b: Byte): (s: Native)
    ensures forall i :: 0 <= i < NATIVE ==> s[i] == b
  {
    seq(2048, _ => b)
  }

  function MarkedSector(n: nat, m: nat): Native {
    Filled(if m == n then 1 else 0)
  }

  /** A disc with one native sector that is not zero. */
  function Marked(n: nat): nat -> Native {
    m => MarkedSector(n, m)
  }

  lemma UnitOf(disc: nat -> Native, u: nat, b: Byte)
    requires disc(u / UNITS) == Filled(b)
    ensures UnitAt(disc, u)[0] == b
  {
    hide Filled;
  }

  /** Beyond it there is a disc of which the wrong bytes are served. */
  lemma WrongDisc(lba: nat, cap: nat, u: nat)
    requires cap > 0 && lba <= u && StartOf(lba, cap, u) >= LIMIT
    ensures UnitAt(Marked(u / UNITS), Served(lba, cap, u)) != UnitAt(Marked(u / UNITS), u)
  {
    hide Served, StartOf, UnitAt, Filled;
    var v, d := Served(lba, cap, u), Marked(u / UNITS);
    ServedRight(lba, cap, u);
    assert v / UNITS < u / UNITS;
    UnitOf(d, v, 0);
    UnitOf(d, u, 1);
  }

  /** The last unit below the limit and four beyond it: one batch of four sectors serves them rightly. */
  lemma AcrossTheLimit()
    ensures StartOf(LIMIT - 1, 4, LIMIT + 3) < LIMIT
  {
  }

  /** Ten commands in a row over one backend, none of which worked. */
  ghost predicate GivenUp(log: seq<Command>, log': seq<Command>, lba: nat, n: nat, int13: bool) {
    && log <= log' && |log'| == |log| + ATTEMPTS
    && forall i :: |log| <= i < |log'| ==> log'[i] == Command(lba, n, int13, false)
  }

  /** At most ten in a row, of which exactly the last worked. */
  ghost predicate Answered(log: seq<Command>, log': seq<Command>, lba: nat, n: nat, int13: bool) {
    && log <= log' && |log| < |log'| <= |log| + ATTEMPTS
    && forall i :: |log| <= i < |log'| ==> log'[i] == Command(lba, n, int13, i == |log'| - 1)
  }

  class Cd {
    const disc: nat -> Native
    const refuses: (nat, nat, nat, bool) -> bool  // whether command n, for so many sectors from one on, fails
    const present: bool                    // the BIOS says it can read the drive
    const atapi: bool                      // atapi_init() finds a drive
    var useInt13: bool
    var atapiProbed: bool
    var atapiReady: bool
    var cap: nat
    var buf: seq<Byte>
    var retries: nat
    var commands: nat
    /** Every command sent, and how often atapi_init() ran. */
    ghost var log: seq<Command>
    ghost var inits: nat

    ghost predicate Valid()
      reads this
    {
      && 1 <= cap <= BATCH
      && inits == (if atapiProbed then 1 else 0)
      && (!useInt13 ==> atapiProbed)
      && (atapiReady <==> atapiProbed && atapi) && commands == |log|
      && forall i :: 0 <= i < |log| ==> 1 <= log[i].count <= BATCH && (log[i].ok <==> !refuses(i, log[i].lba, log[i].count, log[i].int13))
    }

    /** From one moment to a later one: commands are only added, and none over INT 13h once it is given up. */
    twostate predicate Onward()
      reads this
    {
      && old(log) <= log
      && (!old(useInt13) ==> !useInt13 && forall i :: |old(log)| <= i < |log| ==> !log[i].int13)
    }

    /** disk_init(): INT 13h when a real read works, ATAPI otherwise. */
    constructor (disc: nat -> Native, refuses: (nat, nat, nat, bool) -> bool, present: bool, atapi: bool)
      ensures Valid() && this.disc == disc && this.refuses == refuses && this.present == present && this.atapi == atapi && cap == BATCH
      ensures useInt13 <==> present && !refuses(0, 0, 1, true)
      ensures useInt13 ==> log == [Command(0, 1, true, true)] && inits == 0
      ensures !useInt13 ==> inits == 1 && forall i :: 0 <= i < |log| ==> log[i] == Command(0, 1, true, false)
    {
      this.disc, this.refuses, this.present, this.atapi, commands := disc, refuses, present, atapi, 0;
      cap, buf, retries, inits := BATCH, Zeros(NATIVE * BATCH), 0, 0;
      atapiProbed, atapiReady, useInt13, log := false, false, false, [];
      new;
      if present {
        var ok := Send(0, 1, true);
        if ok {
          useInt13 := true;
          return;
        }
      }
      InitAtapi();
    }

    method SetChunk(n: nat)
      requires Valid()
      modifies this`cap
      ensures Valid()
      ensures cap == if 1 <= n <= 127 then (if n < 8 then 1 else if n >= 16 then 4 else n / 4) else old(cap)
    {
      if n < 1 || n > CHUNK_LIMIT {
        return;
      }
      cap := n / 4;
      if cap < 1 {
        cap := 1;
      }
      if cap > BATCH {
        cap := BATCH;
      }
    }

    method InitAtapi()
      requires !atapiProbed
      modifies this`atapiReady, this`atapiProbed, this`inits
      ensures atapiProbed && inits == old(inits) + 1 && (atapiReady <==> atapi)
    {
      atapiReady := atapi;
      inits := inits + 1;
      atapiProbed := true;
    }

    /** One command: it delivers what it reports. */
    method Send(lba: nat, n: nat, int13: bool) returns (ok: bool)
      requires 1 <= n <= BATCH
      modifies this`buf, this`log, this`commands
      ensures ok ==> buf == Batch(disc, lba, n)
      ensures log == old(log) + [Command(lba, n, int13, ok)] && commands == old(commands) + 1
      ensures ok <==> !refuses(old(commands), lba, n, int13)
    {
      ok := !refuses(commands, lba, n, int13);
      commands := commands + 1;
      if ok {
        buf := Batch(disc, lba, n);
      } else {
        buf := *;
      }
      log := log + [Command(lba, n, int13, ok)];
    }

    /** Up to ten tries over one backend. */
    method Try(lba: nat, n: nat, int13: bool) returns (ok: bool)
      requires Valid() && 1 <= n <= BATCH
      modifies this`buf, this`log, this`commands, this`retries
      ensures Valid() && old(log) <= log
      ensures if ok then Answered(old(log), log, lba, n, int13) else GivenUp(old(log), log, lba, n, int13)
      ensures ok ==> buf == Batch(disc, lba, n)
      ensures retries == old(retries) + |log| - |old(log)| - if ok then 1 else 0
    {
      var attempt := 0;
      while attempt < ATTEMPTS
        invariant 0 <= attempt <= ATTEMPTS && |log| == |old(log)| + attempt && retries == old(retries) + attempt
        invariant Valid() && old(log) <= log
        invariant forall i :: |old(log)| <= i < |log| ==> log[i] == Command(lba, n, int13, false)
      {
        var sent := Send(lba, n, int13);
        if sent {
          return true;
        }
        retries := retries + 1;
        attempt := attempt + 1;
      }
      ok := false;
    }

    /** native_read_batch_raw() */
    method ReadBatch(lba: nat, n: nat) returns (ok: bool)
      requires Valid() && 1 <= n <= BATCH
      modifies this`buf, this`log, this`commands, this`retries, this`useInt13, this`atapiReady, this`atapiProbed, this`inits
      ensures Valid() && Onward()
      ensures ok ==> buf == Batch(disc, lba, n)
      // every command that failed is counted
      ensures retries == old(retries) + |log| - |old(log)| - if ok then 1 else 0
      ensures old(useInt13) && !useInt13 ==> exists mid :: GivenUp(old(log), mid, lba, n, true) && mid <= log
      ensures !ok ==> !useInt13 && (!atapi || exists mid :: old(log) <= mid && GivenUp(mid, log, lba, n, false))
    {
      if useInt13 {
        var done := Try(lba, n, true);
        if done {
          return true;
        }
        assert GivenUp(old(log), log, lba, n, true);
        useInt13 := false;
        if !atapiProbed {
          InitAtapi();
        }
      }
      if !atapiReady {
        return false;
      }
      ok := Try(lba, n, false);
    }

    /**
     * disk_read_lba(): for every start, count and cap, each unit is the one
     * its batch serves; all are the wanted ones when the last batch starts
     * where native sector numbers still fit the 32 bits they are cut to.
     */
    method ReadLba(lba: nat, count: nat, dst: array<Sector>, at: nat) returns (ok: bool)
      requires Valid() && at + count <= dst.Length
      modifies this`buf, this`log, this`commands, this`retries, this`useInt13, this`atapiReady, this`atapiProbed, this`inits, dst
      ensures Valid() && Onward()
      ensures forall i :: 0 <= i < dst.Length && !(at <= i < at + count) ==> dst[i] == old(dst[i])
      ensures ok ==> forall i :: at <= i < at + count ==> dst[i] == UnitAt(disc, Served(lba, cap, lba + (i - at)))
      ensures ok && (count > 0 ==> StartOf(lba, cap, lba + count - 1) < LIMIT) ==>
        forall i :: at <= i < at + count ==> dst[i] == UnitAt(disc, lba + (i - at))
      ensures !ok ==> !useInt13 && (!atapi || exists mid, x, n :: old(log) <= mid && GivenUp(mid, log, x, n, false))
    {
      hide UnitAt, Batch, GivenUp, Served, StartOf, Span;
      var cur, remaining := lba, count;
      while remaining > 0
        invariant Valid() && Onward() && 0 <= remaining <= count && cur == lba + count - remaining
        invariant forall i :: 0 <= i < dst.Length && !(at <= i < at + count) ==> dst[i] == old(dst[i])
        invariant remaining > 0 ==> forall u :: u >= cur ==> StartOf(lba, cap, u) == StartOf(cur, cap, u)
        invariant forall i :: at <= i < at + (count - remaining) ==> dst[i] == UnitAt(disc, Served(lba, cap, lba + (i - at)))
        decreases remaining
      {
        var sub := cur % UNITS;
        var n := (sub + remaining + UNITS - 1) / UNITS;
        if n > cap {
          n := cap;
        }
        var done := ReadBatch(cur / UNITS % TWO32, n);
        if !done {
          return false;
        }
        var avail := n * UNITS - sub;
        var take := if avail < remaining then avail else remaining;
        Whole(cur, cap, n, take, remaining);
        CopyUnits(lba, cur, sub, n, take, dst, at + (count - remaining));
        cur, remaining := cur + take, remaining - take;
      }
      if count > 0 {
        RightIff(lba, cap, count);
      }
      ok := true;
    }

    /** A batch is full unless it is the last. */
    lemma Whole(cur: nat, cap: nat, n: nat, take: nat, remaining: nat)
      requires cap > 0 && remaining > 0
      requires n == (var m := (cur % UNITS + remaining + UNITS - 1) / UNITS; if m > cap then cap else m)
      requires take == (var avail := n * UNITS - cur % UNITS; if avail < remaining then avail else remaining)
      ensures 0 < take <= Span(cur, cap) && (take < remaining ==> take == Span(cur, cap))
      ensures take < remaining ==> forall u :: u >= cur + take ==> StartOf(cur, cap, u) == StartOf(cur + take, cap, u)
      ensures forall u :: cur <= u < cur + take ==> StartOf(cur, cap, u) == cur
    {
    }

    /** Unit k of a batch from `cur` on is the one served for `cur + k`. */
    lemma UnitServed(lba: nat, cur: nat, n: nat, k: nat)
      requires cur % UNITS + k < UNITS * n && cap > 0 && lba <= cur && StartOf(lba, cap, cur + k) == cur
      ensures var p := 512 * (cur % UNITS + k);
        |Batch(disc, cur / UNITS % TWO32, n)| >= p + 512
        && Batch(disc, cur / UNITS % TWO32, n)[p..p + 512] == UnitAt(disc, Served(lba, cap, cur + k))
    {
      hide UnitAt, Batch, StartOf;
      Cut(cur);
      BatchUnit(disc, cur / UNITS % TWO32, n, cur % UNITS + k);
    }

    /** The copy loop: `take` units of the batch, from unit `sub` on. */
    method CopyUnits(ghost lba: nat, ghost cur: nat, sub: nat, ghost n: nat, take: nat, dst: array<Sector>, at: nat)
      requires sub == cur % UNITS && sub + take <= UNITS * n && cap > 0 && lba <= cur
      requires buf == Batch(disc, cur / UNITS % TWO32, n) && at + take <= dst.Length
      requires forall u :: cur <= u < cur + take ==> StartOf(lba, cap, u) == cur
      modifies dst
      ensures forall i :: 0 <= i < dst.Length && !(at <= i < at + take) ==> dst[i] == old(dst[i])
      ensures forall i :: at <= i < at + take ==> dst[i] == UnitAt(disc, Served(lba, cap, cur + (i - at)))
    {
      hide UnitAt, Batch, StartOf, Served;
      var k := 0;
      while k < take
        invariant 0 <= k <= take
        invariant forall i :: 0 <= i < dst.Length && !(at <= i < at + k) ==> dst[i] == old(dst[i])
        invariant forall i :: at <= i < at + k ==> dst[i] == UnitAt(disc, Served(lba, cap, cur + (i - at)))
      {
        UnitServed(lba, cur, n, k);
        dst[at + k] := buf[512 * (sub + k)..512 * (sub + k) + 512];
        k := k + 1;
      }
    }
  }
}
