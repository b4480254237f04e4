/**
 * The memory-map check of bios/e820_range.c: is a destination all RAM, and
 * none of it anything else?
 */
module E820 {
  const U64_MAX := 0xffff_ffff_ffff_ffff

  type U64 = n: int | 0 <= n <= 0xffff_ffff_ffff_ffff

  datatype Entry = Entry(addr: U64, size: U64, ram: bool)

  datatype Verdict = Fine | NotRam | BeyondRam | Reserved

  /** The end of a range, saturated. */
  function EndOf(addr: U64, size: U64): (r: U64)
    ensures addr <= r
  {
    var end: int := addr + size;
    if end > U64_MAX then U64_MAX else end
  }

  // ---- What the check is about: addresses ----

  predicate Inside(e: Entry, x: int) {
    e.size > 0 && e.addr <= x < EndOf(e.addr, e.size)
  }

  ghost predicate Covered(entries: seq<Entry>, x: int) {
    exists i :: 0 <= i < |entries| && entries[i].ram && Inside(entries[i], x)
  }

  ghost predicate Taken(entries: seq<Entry>, x: int) {
    exists i :: 0 <= i < |entries| && !entries[i].ram && Inside(entries[i], x)
  }

  predicate Overlap(a: U64, alen: U64, b: U64, blen: U64) {
    alen != 0 && blen != 0 && a < EndOf(b, blen) && b < EndOf(a, alen)
  }

  /** Two ranges overlap exactly when they share an address; the first is where the later one starts. */
  lemma OverlapIsShared(start: U64, len: U64, e: Entry)
    ensures Overlap(start, len, e.addr, e.size) ==>
      var x := if e.addr > start then e.addr else start; start <= x < EndOf(start, len) && Inside(e, x)
    ensures forall x :: start <= x < EndOf(start, len) && Inside(e, x) ==> Overlap(start, len, e.addr, e.size)
  {
  }

  /** One pass: how far the RAM entries around `cur` reach. */
  method Reach(entries: seq<Entry>, cur: U64) returns (best: U64, ghost which: nat)
    ensures best >= cur
    ensures best == cur ==> !Covered(entries, cur)
    ensures best > cur ==> which < |entries| && EndOf(entries[which].addr, entries[which].size) == best
    ensures forall x :: cur <= x < best ==> Covered(entries, x)
  {
    best, which := cur, 0;
    var i := 0;
    while i < |entries|
      invariant 0 <= i <= |entries| && best >= cur
      invariant best > cur ==> which < i && entries[which].ram && entries[which].addr <= cur && entries[which].size > 0 && EndOf(entries[which].addr, entries[which].size) == best
      invariant best == cur ==> forall j :: 0 <= j < i && entries[j].ram ==> !Inside(entries[j], cur)
    {
      var end := EndOf(entries[i].addr, entries[i].size);
      if entries[i].ram && entries[i].size != 0 && entries[i].addr <= cur && cur < end && end > best {
        best, which := end, i;
      }
      i := i + 1;
    }
    forall x | cur <= x < best ensures Covered(entries, x) {
      assert Inside(entries[which], x);
    }
  }

  /** The highest end of any RAM entry. */
  method Top(entries: seq<Entry>) returns (top: U64)
    ensures forall x :: x >= top ==> !Covered(entries, x)
    ensures top == 0 || exists i :: 0 <= i < |entries| && entries[i].ram && EndOf(entries[i].addr, entries[i].size) == top
  {
    top := 0;
    var i := 0;
    while i < |entries|
      invariant 0 <= i <= |entries|
      invariant forall j :: 0 <= j < i && entries[j].ram ==> EndOf(entries[j].addr, entries[j].size) <= top
      invariant top == 0 || exists j :: 0 <= j < i && entries[j].ram && EndOf(entries[j].addr, entries[j].size) == top
    {
      if entries[i].ram && EndOf(entries[i].addr, entries[i].size) > top {
        top := EndOf(entries[i].addr, entries[i].size);
      }
      i := i + 1;
    }
  }

  /** The second half: the first entry that takes part of the range away. */
  method FindTaken(entries: seq<Entry>, start: U64, len: U64) returns (taken: bool, bad: U64)
    ensures taken ==> start <= bad < EndOf(start, len) && Taken(entries, bad)
    ensures !taken ==> bad == start && forall x :: start <= x < EndOf(start, len) ==> !Taken(entries, x)
  {
    var i := 0;
    while i < |entries|
      invariant 0 <= i <= |entries|
      invariant forall j, x :: 0 <= j < i && !entries[j].ram && start <= x < EndOf(start, len) ==> !Inside(entries[j], x)
    {
      OverlapIsShared(start, len, entries[i]);
      if !entries[i].ram && Overlap(start, len, entries[i].addr, entries[i].size) {
        bad := if entries[i].addr > start then entries[i].addr else start;
        return true, bad;
      }
      i := i + 1;
    }
    return false, start;
  }

  /** The covering loop: where it stops, and in how many passes. */
  method Cover(entries: seq<Entry>, start: U64, end: U64) returns (cur: U64, ghost passes: nat)
    requires start <= end
    ensures start <= cur && passes <= |entries| + 1
    ensures forall x :: start <= x < cur ==> Covered(entries, x)
    ensures cur < end ==> !Covered(entries, cur)
  {
    cur, passes := start, 0;
    ghost var used: set<nat> := {};
    while cur < end
      invariant start <= cur && passes == |used|
      invariant forall i :: i in used ==> i < |entries| && EndOf(entries[i].addr, entries[i].size) <= cur
      invariant forall x :: start <= x < cur ==> Covered(entries, x)
      decreases U64_MAX - cur
    {
      Bounded(used, |entries|);
      var best, which := Reach(entries, cur);
      passes := passes + 1;
      if best == cur {
        return;
      }
      used := used + {which};
      cur := best;
    }
    Bounded(used, |entries|);
  }

  lemma {:induction false} Bounded(s: set<nat>, n: nat)
    requires forall i :: i in s ==> i < n
    ensures |s| <= n
  {
    if n > 0 {
      Bounded(s - {n - 1}, n - 1);
    } else {
      assert s == {};
    }
  }

  /** Every address of the range is RAM and nothing else. */
  ghost predicate Usable(entries: seq<Entry>, start: int, len: int) {
    forall x :: start <= x < start + len ==> Covered(entries, x) && !Taken(entries, x)
  }

  /** e820_range_check(), exactly. */
  method Check(entries: seq<Entry>, start: U64, len: U64) returns (r: Verdict, bad: U64, ghost passes: nat)
    ensures r == Fine <==> Usable(entries, start, len)
    ensures passes <= |entries| + 1
    ensures r == Fine ==> bad == start
    ensures r == BeyondRam ==> forall x :: x >= bad ==> !Covered(entries, x)
    ensures (r == NotRam || r == BeyondRam) && start + len <= U64_MAX ==>
      start <= bad < start + len && !Covered(entries, bad) && forall x :: start <= x < bad ==> Covered(entries, x)
    ensures r == NotRam && start + len <= U64_MAX ==>
      exists i :: 0 <= i < |entries| && entries[i].ram && EndOf(entries[i].addr, entries[i].size) > bad
    ensures r == Reserved ==>
      start <= bad < start + len && Taken(entries, bad) && forall x :: start <= x < start + len ==> Covered(entries, x)
  {
    bad, passes := start, 0;
    if len == 0 {
      return Fine, bad, passes;
    }
    var sum: int := start + len;
    if sum > U64_MAX {
      assert !Covered(entries, sum - 1);
      return NotRam, bad, passes;
    }
    var end: U64 := sum;
    var cur;
    cur, passes := Cover(entries, start, end);
    if cur < end {
      bad := cur;
      var top := Top(entries);
      return if cur >= top then BeyondRam else NotRam, bad, passes;
    }
    var taken;
    taken, bad := FindTaken(entries, start, len);
    r := if taken then Reserved else Fine;
  }
}
