/**
 * How a read becomes BIOS calls (bios/disk_policy.c): chunks of at most the
 * current size, halved and tried again when the BIOS refuses one.
 */
module DiskPolicy {
  import opened Bytes

  const CHUNK_LIMIT := 127

  /** One INT 13h read. */
  datatype Call = Call(lba: nat, count: nat, ok: bool)

  function Log2(n: nat): nat {
    if n <= 1 then 0 else 1 + Log2(n / 2)
  }

  /** Log2 is the floor of the logarithm. */
  lemma {:induction false} Log2IsFloor(n: nat)
    requires n >= 1
    ensures Pow2(Log2(n)) <= n < Pow2(Log2(n) + 1)
  {
    if n <= 1 {
    } else {
      Log2IsFloor(n / 2);
    }
  }

  lemma {:induction false} Log2Monotone(n: nat, m: nat)
    requires n <= m
    ensures Log2(n) <= Log2(m)
  {
    if n <= 1 {
    } else {
      Log2Monotone(n / 2, m / 2);
    }
  }

  lemma Log2Half(n: nat, m: nat)
    requires 1 < n <= m
    ensures Log2(n / 2) + 1 <= Log2(m)
  {
    Log2Monotone(n, m);
  }

  /** Every call came out as the BIOS has it. */
  ghost predicate Answered(refuses: (nat, nat, nat) -> bool, log: seq<Call>) {
    forall i :: 0 <= i < |log| ==> (log[i].ok <==> !refuses(i, log[i].lba, log[i].count))
  }

  /** The chunk after some calls: half the last request for several sectors that was refused, or the old one. */
  function ChunkAfter(chunk: nat, calls: seq<Call>): nat {
    if calls == [] then chunk
    else
      var last := calls[|calls| - 1];
      if !last.ok && last.count > 1 then last.count / 2 else ChunkAfter(chunk, calls[..|calls| - 1])
  }

  function LargestAfter(largest: nat, calls: seq<Call>): nat {
    if calls == [] then largest
    else
      var last, before := calls[|calls| - 1], LargestAfter(largest, calls[..|calls| - 1]);
      if last.ok && last.count > before then last.count else before
  }

  function RefusedIn(calls: seq<Call>): nat {
    if calls == [] then 0 else RefusedIn(calls[..|calls| - 1]) + if calls[|calls| - 1].ok then 0 else 1
  }

  datatype Tally = Tally(chunk: nat, largest: nat, failures: nat)

  /** What is left behind after some calls is what they say. */
  ghost predicate Tallied(before: Tally, calls: seq<Call>, after: Tally) {
    && after.chunk == ChunkAfter(before.chunk, calls)
    && after.largest == LargestAfter(before.largest, calls)
    && after.failures == before.failures + RefusedIn(calls)
  }

  lemma NoCalls(before: Tally, log: seq<Call>)
    ensures Tallied(before, log[|log|..], before)
  {
  }

  lemma Once(t: Tally, c: Call)
    ensures Tallied(t, [c],
      Tally(if !c.ok && c.count > 1 then c.count / 2 else t.chunk, if c.ok && c.count > t.largest then c.count else t.largest,
        t.failures + if c.ok then 0 else 1))
  {
    assert [c][..0] == [];
  }

  lemma Twice(t: Tally, calls: seq<Call>, c: Call, d: Call)
    requires calls == [c, d] && !c.ok && c.count == d.count == 1
    ensures Tallied(t, calls, Tally(t.chunk, if d.ok && t.largest < 1 then 1 else t.largest, t.failures + if d.ok then 1 else 2))
  {
    Once(t, c);
    assert calls[..1] == [c];
  }

  lemma {:induction false} MoreCalls(t: Tally, calls: seq<Call>, t': Tally, more: seq<Call>, t'': Tally)
    requires Tallied(t, calls, t') && Tallied(t', more, t'')
    ensures Tallied(t, calls + more, t'')
  {
    if more == [] {
      assert calls + more == calls;
    } else {
      var rest := more[..|more| - 1];
      MoreCalls(t, calls, t', rest, Tally(ChunkAfter(t'.chunk, rest), LargestAfter(t'.largest, rest), t'.failures + RefusedIn(rest)));
      assert (calls + more)[..|calls + more| - 1] == calls + rest;
    }
  }

  class Disk {
    const sectors: nat -> Sector
    const refuses: (nat, nat, nat) -> bool  // whether call n, for so many sectors from one on, fails
    var limit: nat
    var chunk: nat
    var cap: nat
    var calls: nat
    var failures: nat
    var largest: nat
    /** Every call made, in order. */
    ghost var log: seq<Call>

    ghost predicate Valid()
      reads this
    {
      && 1 <= chunk <= CHUNK_LIMIT && 1 <= limit <= CHUNK_LIMIT && calls == |log|
      && Answered(refuses, log)
    }

    constructor (sectors: nat -> Sector, refuses: (nat, nat, nat) -> bool)
      ensures Valid() && this.sectors == sectors && this.refuses == refuses && log == []
      ensures limit == chunk == cap == 127 && failures == largest == 0
    {
      this.sectors, this.refuses := sectors, refuses;
      limit, chunk, cap, calls, failures, largest := CHUNK_LIMIT, CHUNK_LIMIT, CHUNK_LIMIT, 0, 0, 0;
      log := [];
    }

    method SetChunk(n: nat)
      requires Valid()
      modifies this`chunk, this`cap
      ensures Valid()
      ensures chunk == if 1 <= n <= 127 then (if n > limit then limit else n) else old(chunk)
      ensures cap == if 1 <= n <= 127 then chunk else old(cap)
    {
      if n < 1 || n > CHUNK_LIMIT {
        return;
      }
      chunk := if n > limit then limit else n;
      cap := chunk;
    }

    /** A BIOS read: it delivers what it reports, and may leave anything behind when it fails. */
    method Int13Read(lba: nat, n: nat, buf: array<Sector>, at: nat) returns (ok: bool)
      requires Valid() && at + n <= buf.Length
      modifies buf, this`calls, this`log
      ensures Valid() && (ok <==> !refuses(old(calls), lba, n))
      ensures ok ==> forall i :: at <= i < at + n ==> buf[i] == sectors(lba + (i - at))
      ensures forall i :: 0 <= i < buf.Length && !(at <= i < at + n) ==> buf[i] == old(buf[i])
      ensures log == old(log) + [Call(lba, n, ok)] && calls == old(calls) + 1
    {
      ok := !refuses(calls, lba, n);
      var i := 0;
      while i < n
        modifies buf
        invariant 0 <= i <= n
        invariant ok ==> forall j :: at <= j < at + i ==> buf[j] == sectors(lba + (j - at))
        invariant forall j :: 0 <= j < buf.Length && !(at <= j < at + i) ==> buf[j] == old(buf[j])
      {
        assert |Zeros(512)| == 512;
        var garbage: seq<Byte> :| |garbage| == 512;
        buf[at + i] := if ok then sectors(lba + i) else garbage;
        i := i + 1;
      }
      log := log + [Call(lba, n, ok)];
      calls := calls + 1;
    }

    /** One request, and one retry of a single sector; a refused larger one halves the chunk. */
    method Request(lba: nat, n: nat, buf: array<Sector>, at: nat) returns (ok: bool)
      requires Valid() && 1 <= n && at + n <= buf.Length && n <= chunk
      modifies buf, this`chunk, this`calls, this`failures, this`largest, this`log
      ensures Valid()
      ensures ok ==> forall i :: at <= i < at + n ==> buf[i] == sectors(lba + (i - at))
      ensures forall i :: 0 <= i < buf.Length && !(at <= i < at + n) ==> buf[i] == old(buf[i])
      ensures |log| - |old(log)| <= 2 && chunk == if ok || n == 1 then old(chunk) else n / 2
      ensures !ok && n > 1 ==> log == old(log) + [Call(lba, n, false)]
      ensures !ok && n == 1 ==> log == old(log) + [Call(lba, 1, false), Call(lba, 1, false)]
      ensures old(log) <= log
        && Tallied(old(Tally(chunk, largest, failures)), log[|old(log)|..], Tally(chunk, largest, failures + if ok || n > 1 then 0 else 1))
    {
      hide Answered;
      ok := Int13Read(lba, n, buf, at);
      assert log[|old(log)|..] == [Call(lba, n, ok)];
      Once(old(Tally(chunk, largest, failures)), Call(lba, n, ok));
      if !ok {
        failures := failures + 1;
        if n > 1 {
          chunk := n / 2;
          return;
        }
        ok := Int13Read(lba, 1, buf, at);
        assert log == old(log) + [Call(lba, 1, false), Call(lba, 1, ok)];
        Twice(old(Tally(chunk, largest, failures)), log[|old(log)|..], Call(lba, 1, false), Call(lba, 1, ok));
        if !ok {
          return;
        }
      }
      if n > largest {
        largest := n;
      }
    }

    /**
     * disk_read_lba(): whatever the BIOS refuses, it ends; success is the
     * whole request, failure one sector refused twice in a row.
     */
    method ReadLba(lba: nat, count: nat, buf: array<Sector>, at: nat) returns (ok: bool)
      requires Valid() && at + count <= buf.Length
      modifies buf, this`chunk, this`calls, this`failures, this`largest, this`log
      ensures Valid() && chunk <= old(chunk)
      // the chunk, the largest transfer that worked, and the refusals but for one that ends the read
      ensures old(log) <= log
        && Tallied(old(Tally(chunk, largest, failures)), log[|old(log)|..], Tally(chunk, largest, failures + if ok then 0 else 1))
      ensures ok ==> forall i :: at <= i < at + count ==> buf[i] == sectors(lba + (i - at))
      ensures forall i :: 0 <= i < buf.Length && !(at <= i < at + count) ==> buf[i] == old(buf[i])
      ensures calls - old(calls) <= 2 * count + Log2(old(chunk))
      ensures !ok ==> |log| >= |old(log)| + 2 && var x := log[|log| - 1];
        x == log[|log| - 2] && x.count == 1 && !x.ok && lba <= x.lba < lba + count
    {
      hide Answered, Log2, Tallied;
      ghost var before := Tally(chunk, largest, failures);
      NoCalls(before, log);
      var done := 0;
      while done < count
        invariant Valid() && 0 <= done <= count && chunk <= old(chunk) && old(log) <= log
        invariant Tallied(before, log[|old(log)|..], Tally(chunk, largest, failures))
        invariant forall i :: at <= i < at + done ==> buf[i] == sectors(lba + (i - at))
        invariant forall i :: 0 <= i < buf.Length && !(at <= i < at + count) ==> buf[i] == old(buf[i])
        invariant calls - old(calls) + 2 * (count - done) + Log2(chunk) <= 2 * count + Log2(old(chunk))
        decreases count - done, chunk
      {
        var n := if count - done < chunk then count - done else chunk;
        ghost var was, now := log, Tally(chunk, largest, failures);
        var st := Request(lba + done, n, buf, at + done);
        MoreCalls(before, was[|old(log)|..], now, log[|was|..], Tally(chunk, largest, failures + if st || n > 1 then 0 else 1));
        assert was[|old(log)|..] + log[|was|..] == log[|old(log)|..];
        if st {
          done := done + n;
        } else if n > 1 {
          Log2Half(n, now.chunk);
        } else {
          return false;
        }
      }
      ok := true;
    }
  }
}
