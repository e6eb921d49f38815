/** The lazily sorted database of byte runs in `python/identify_filenames.py`, against a linear scan. */
module ByteRunDb {
  import opened Bytes

  /** `(runstart, runend, fileinfo)`; `info` stands for the file's place in Python's order of such tuples. */
  datatype Extent = Extent(start: int, end: int, info: nat)

  /** An argument that is an `int`, or is something else. */
  datatype Arg = Int(value: int) | Other

  /** Comparing an info tuple with a string raises an exception. */
  datatype Outcome = TypeError | Found(extent: Option<Extent>)

  predicate Contains(e: Extent, pos: int) { e.start <= pos < e.end }

  /** The reference: the first extent, in the order they were added, that contains the position. */
  function LinearScan(s: seq<Extent>, pos: int): Option<Extent> {
    if s == [] then None else if Contains(s[0], pos) then Some(s[0]) else LinearScan(s[1..], pos)
  }

  // ---- Sorting ----

  predicate Leq(a: Extent, b: Extent) {
    a.start < b.start || (a.start == b.start && (a.end < b.end || (a.end == b.end && a.info <= b.info)))
  }

  predicate IsSorted(s: seq<Extent>) { forall i, j :: 0 <= i < j < |s| ==> Leq(s[i], s[j]) }

  function Insert(e: Extent, s: seq<Extent>): (r: seq<Extent>)
    ensures multiset(r) == multiset{e} + multiset(s)
  {
    if s == [] || Leq(e, s[0]) then [e] + s
    else
      assert s == [s[0]] + s[1..];
      [s[0]] + Insert(e, s[1..])
  }

  /** `list.sort`. */
  function Sorted(s: seq<Extent>): (r: seq<Extent>)
    ensures multiset(r) == multiset(s)
  {
    if s == [] then []
    else
      assert s == [s[0]] + s[1..];
      Insert(s[0], Sorted(s[1..]))
  }

  lemma {:induction false} InsertSorts(e: Extent, s: seq<Extent>)
    requires IsSorted(s)
    ensures IsSorted(Insert(e, s))
  {
    if s != [] && !Leq(e, s[0]) {
      InsertSorts(e, s[1..]);
      var r := Insert(e, s[1..]);
      forall j | 0 <= j < |r| ensures Leq(s[0], r[j]) {
        assert r[j] in multiset(r);
        assert r[j] == e || r[j] in s[1..];
      }
    }
  }

  lemma {:induction false} SortSorts(s: seq<Extent>)
    ensures IsSorted(Sorted(s))
  {
    if s != [] {
      SortSorts(s[1..]);
      InsertSorts(s[0], Sorted(s[1..]));
    }
  }

  // ---- Searching ----

  /** Whether an extent is less than `(pos, 0, "")`; ties in both numbers are the ones that raise. */
  predicate Below(e: Extent, pos: int) { e.start < pos || (e.start == pos && e.end < 0) }

  predicate Incomparable(e: Extent, pos: int) { e.start == pos && e.end == 0 }

  function CountBelow(s: seq<Extent>, pos: int): (p: nat)
    ensures p <= |s|
  {
    if s == [] || !Below(s[0], pos) then 0 else 1 + CountBelow(s[1..], pos)
  }

  lemma {:induction false} CountBelowIs(s: seq<Extent>, pos: int, p: nat)
    requires p <= |s| && (forall i :: 0 <= i < p ==> Below(s[i], pos)) && (p < |s| ==> !Below(s[p], pos))
    ensures CountBelow(s, pos) == p
  {
    if p > 0 {
      CountBelowIs(s[1..], pos, p - 1);
    }
  }

  /** What the search looks at in a sorted list. */
  function Nearest(s: seq<Extent>, pos: int): Option<Extent> {
    var p := CountBelow(s, pos);
    if p < |s| && s[p].start == pos then Some(s[p])
    else if p > 0 && Contains(s[p - 1], pos) then Some(s[p - 1])
    else None
  }

  /** `bisect.bisect_left`. */
  method BisectLeft(a: seq<Extent>, pos: int) returns (p: nat, ok: bool)
    requires IsSorted(a)
    ensures !ok <==> exists e :: e in a && Incomparable(e, pos)
    ensures ok ==> p == CountBelow(a, pos)
  {
    var lo, hi := 0, |a|;
    while lo < hi
      invariant 0 <= lo <= hi <= |a|
      invariant forall i :: 0 <= i < lo ==> Below(a[i], pos)
      invariant forall i :: hi <= i < |a| ==> !Below(a[i], pos) && !Incomparable(a[i], pos)
    {
      var mid := (lo + hi) / 2;
      if Incomparable(a[mid], pos) {
        return 0, false;
      }
      if Below(a[mid], pos) {
        assert forall i :: 0 <= i < mid ==> Leq(a[i], a[mid]);
        lo := mid + 1;
      } else {
        assert forall i :: mid < i < |a| ==> Leq(a[mid], a[i]);
        hi := mid;
      }
    }
    CountBelowIs(a, pos, lo);
    return lo, true;
  }

  /** `byterundb`. */
  class Database {
    var rary: seq<Extent>
    var sorted: bool
    ghost var added: seq<Extent>

    ghost predicate Valid()
      reads this
    {
      multiset(rary) == multiset(added) && (sorted ==> IsSorted(rary))
    }

    constructor ()
      ensures Valid() && added == []
    {
      rary, sorted, added := [], true, [];
    }

    method AddExtent(offset: Arg, length: Arg, info: nat)
      requires Valid()
      modifies this
      ensures Valid()
      ensures added == old(added) + if offset.Int? && length.Int? then
                                      [Extent(offset.value, offset.value + length.value, info)] else []
    {
      if offset.Other? || length.Other? {
        return;
      }
      var e := Extent(offset.value, offset.value + length.value, info);
      rary := rary + [e];
      sorted := false;
      added := added + [e];
    }

    /** `search_offset`. On tidy extents it answers as a linear scan of what was added does. */
    method SearchOffset(pos: int) returns (outcome: Outcome)
      requires Valid()
      modifies this
      ensures Valid() && sorted && added == old(added)
      ensures outcome == TypeError || outcome == Found(Nearest(rary, pos))
      ensures outcome == TypeError <==> exists e :: e in added && Incomparable(e, pos)
      ensures Tidy(added) ==> outcome == Found(LinearScan(added, pos))
    {
      hide Nearest, LinearScan, Incomparable, IsSorted, Sorted, Leq;
      if !sorted {
        SortSorts(rary);
        rary := Sorted(rary);
        sorted := true;
      }
      SameMembers(rary, added);
      var p, ok := BisectLeft(rary, pos);
      if Tidy(added) {
        NearestIsLinear(rary, added, pos);
        TidyComparable(rary, pos);
      }
      if !ok {
        return TypeError;
      }
      outcome := Decide(p, pos);
    }

    /** The two looks at the list after the bisection. */
    method Decide(p: nat, pos: int) returns (outcome: Outcome)
      requires p == CountBelow(rary, pos)
      ensures outcome == Found(Nearest(rary, pos))
    {
      if p < |rary| && rary[p].start == pos {
        return Found(Some(rary[p]));
      }
      if p == 0 {
        return Found(None);
      }
      if rary[p - 1].start <= pos < rary[p - 1].end {
        return Found(Some(rary[p - 1]));
      }
      return Found(None);
    }
  }

  // ---- What the search finds ----

  /** Offsets are not negative and lengths are positive. */
  predicate Positive(s: seq<Extent>) { forall e :: e in s ==> 0 <= e.start < e.end }

  /** Also, different extents have no position in common. */
  predicate Tidy(s: seq<Extent>) {
    Positive(s) && forall a, b :: a in s && b in s && a != b ==> a.end <= b.start || b.end <= a.start
  }

  lemma SameMembers(a: seq<Extent>, b: seq<Extent>)
    requires multiset(a) == multiset(b)
    ensures forall e :: e in a <==> e in b
  {
    forall e ensures e in a <==> e in b {
      assert e in a <==> e in multiset(a);
      assert e in b <==> e in multiset(b);
    }
  }

  lemma TidyComparable(s: seq<Extent>, pos: int)
    requires Positive(s)
    ensures forall e :: e in s ==> !Incomparable(e, pos)
  {}

  lemma {:induction false} CountBelowSplits(s: seq<Extent>, pos: int)
    requires IsSorted(s)
    ensures forall i :: 0 <= i < |s| ==> (Below(s[i], pos) <==> i < CountBelow(s, pos))
  {
    if s != [] {
      CountBelowSplits(s[1..], pos);
      forall i | 0 <= i < |s| ensures Below(s[i], pos) <==> i < CountBelow(s, pos) {
        if i > 0 {
          assert s[i] == s[1..][i - 1] && Leq(s[0], s[i]);
        }
      }
    }
  }

  /** An extent that starts at the position and that the bisection does not pass. */
  predicate StartsHere(e: Extent, pos: int) { e.start == pos && e.end >= 0 }

  ghost predicate SomeStartsHere(s: seq<Extent>, pos: int) { exists e :: e in s && StartsHere(e, pos) }

  /** The extent the search decides for: the first in order that starts at the position, and
      without one the last in order before it, if that contains the position. */
  ghost predicate Chosen(s: seq<Extent>, e: Extent, pos: int) {
    if SomeStartsHere(s, pos) then
      StartsHere(e, pos) && forall d :: d in s && StartsHere(d, pos) ==> Leq(e, d)
    else
      Below(e, pos) && Contains(e, pos) && forall d :: d in s && Below(d, pos) ==> Leq(d, e)
  }

  /** The extents before `p` are below the position and end in the greatest of
      them; those from `p` on are not, and begin with the least. */
  predicate SplitsAt(s: seq<Extent>, p: nat, pos: int) {
    && p <= |s|
    && (forall k :: 0 <= k < p ==> Below(s[k], pos) && Leq(s[k], s[p - 1]))
    && (forall k :: p <= k < |s| ==> !Below(s[k], pos) && Leq(s[p], s[k]))
  }

  lemma SortedSplits(s: seq<Extent>, pos: int)
    requires IsSorted(s)
    ensures SplitsAt(s, CountBelow(s, pos), pos)
  {
    CountBelowSplits(s, pos);
    hide CountBelow;
  }

  lemma FirstHere(s: seq<Extent>, p: nat, pos: int)
    requires SplitsAt(s, p, pos) && p < |s| && s[p].start == pos
    ensures s[p] in s && SomeStartsHere(s, pos) && Chosen(s, s[p], pos)
    ensures Contains(s[p], pos) <==> forall e :: e in s && StartsHere(e, pos) ==> pos < e.end
  {
    assert s[p] in s && StartsHere(s[p], pos);
    forall d | d in s && StartsHere(d, pos) ensures Leq(s[p], d) {
      var k :| 0 <= k < |s| && s[k] == d;
    }
  }

  lemma NoneHere(s: seq<Extent>, p: nat, pos: int)
    requires SplitsAt(s, p, pos) && (p < |s| ==> s[p].start != pos)
    ensures forall e :: e in s ==> !StartsHere(e, pos)
    ensures p > 0 ==> s[p - 1] in s
    ensures forall e :: e in s && Below(e, pos) ==> p > 0 && Leq(e, s[p - 1])
  {
    forall e | e in s
      ensures !StartsHere(e, pos)
      ensures Below(e, pos) ==> p > 0 && Leq(e, s[p - 1])
    {
      var k :| 0 <= k < |s| && s[k] == e;
    }
  }

  lemma LastBefore(s: seq<Extent>, e: Extent, f: Extent, pos: int)
    requires (forall d :: d in s ==> !StartsHere(d, pos)) && e in s && Chosen(s, e, pos)
    requires f in s && Below(f, pos) && forall d :: d in s && Below(d, pos) ==> Leq(d, f)
    ensures e == f
  {}

  /** For any extents at all: one is found if and only if there is one to decide for, and it is that one. It
      contains the position if and only if no extent that starts there ends there or before. */
  lemma FoundExactly(s: seq<Extent>, pos: int)
    requires IsSorted(s)
    ensures Nearest(s, pos).Some? <==> exists e :: e in s && Chosen(s, e, pos)
    ensures var r := Nearest(s, pos);
      r.Some? ==>
        && r.value in s && Chosen(s, r.value, pos)
        && (Contains(r.value, pos) <==> forall e :: e in s && StartsHere(e, pos) ==> pos < e.end)
  {
    SortedSplits(s, pos);
    var p := CountBelow(s, pos);
    hide IsSorted, CountBelow, SplitsAt, Leq;
    if p < |s| && s[p].start == pos {
      FirstHere(s, p, pos);
    } else {
      assert SplitsAt(s, p, pos);
      NoneHere(s, p, pos);
      forall e | e in s && Chosen(s, e, pos) ensures p > 0 && e == s[p - 1] {
        BelowBefore(s, p, pos);
        LastBefore(s, e, s[p - 1], pos);
      }
    }
  }

  lemma BelowBefore(s: seq<Extent>, p: nat, pos: int)
    requires SplitsAt(s, p, pos) && p > 0
    ensures Below(s[p - 1], pos)
  {}

  /** In terms of the numbers: of those that start at the position the one that ends first, and without
      one, of those that start latest before it the one that ends last. */
  lemma ChosenByNumbers(s: seq<Extent>, e: Extent, pos: nat)
    requires e in s && Chosen(s, e, pos) && forall d :: d in s ==> 0 <= d.start <= d.end
    ensures if exists d :: d in s && d.start == pos then
              e.start == pos && forall d :: d in s && d.start == pos ==> e.end <= d.end
            else
              && e.start < pos < e.end && (forall d :: d in s && d.start < pos ==> d.start <= e.start)
              && forall d :: d in s && d.start == e.start ==> d.end <= e.end
  {
    if d :| d in s && d.start == pos {
      assert StartsHere(d, pos);
    }
  }

  /** An empty extent at its own start hides the one that holds it. */
  lemma EmptyHides()
    ensures var s := [Extent(0, 10, 1), Extent(5, 5, 2)];
      IsSorted(s) && Nearest(s, 5) == Some(s[1]) && !Contains(s[1], 5) && LinearScan(s, 5) == Some(s[0])
  {
    var s := [Extent(0, 10, 1), Extent(5, 5, 2)];
    CountBelowIs(s, 5, 1);
  }

  /** Without empty extents, but with overlaps, an extent is found if and only if one that contains the position
      starts as late as any that starts at or before it; what is found contains the position. */
  lemma LatestIsFound(s: seq<Extent>, pos: int)
    requires IsSorted(s) && Positive(s)
    ensures Nearest(s, pos).Some? <==> exists e :: e in s && Latest(s, e, pos)
    ensures Nearest(s, pos).Some? ==> Nearest(s, pos).value in s && Latest(s, Nearest(s, pos).value, pos)
  {
    CountBelowSplits(s, pos);
    var p := CountBelow(s, pos);
    if Nearest(s, pos).Some? {
      NearestIsLatest(s, pos);
    }
    forall e | e in s && Latest(s, e, pos) ensures Nearest(s, pos).Some? {
      var k :| 0 <= k < |s| && s[k] == e;
      if e.start == pos {
        if k > p {
          assert Leq(s[p], s[k]);
        }
      } else if p < |s| && s[p].start == pos {
      } else {
        if k < p - 1 {
          assert Leq(s[k], s[p - 1]);
        }
        assert s[p - 1] in s;
      }
    }
  }

  /** `e` contains `pos`, and no extent starts between the start of `e` and `pos`. */
  ghost predicate Latest(s: seq<Extent>, e: Extent, pos: int) {
    Contains(e, pos) && forall d :: d in s && d.start <= pos ==> d.start <= e.start
  }

  lemma NearestIsLatest(s: seq<Extent>, pos: int)
    requires IsSorted(s) && Positive(s) && Nearest(s, pos).Some?
    ensures Nearest(s, pos).value in s && Latest(s, Nearest(s, pos).value, pos)
  {
    CountBelowSplits(s, pos);
    var p, e := CountBelow(s, pos), Nearest(s, pos).value;
    assert p < |s| ==> s[p] in s;
    forall d | d in s && d.start <= pos ensures d.start <= e.start {
      var k :| 0 <= k < |s| && s[k] == d;
      assert k > p ==> Leq(s[p], s[k]);
      assert k < p - 1 ==> Leq(s[k], s[p - 1]);
    }
  }

  /** Binary search on the sorted list and linear scan on the list as it was built agree on tidy extents. */
  lemma NearestIsLinear(s: seq<Extent>, added: seq<Extent>, pos: int)
    requires IsSorted(s) && Tidy(added) && forall e :: e in s <==> e in added
    ensures Nearest(s, pos) == LinearScan(added, pos)
  {
    LatestIsFound(s, pos);
    LinearScanFinds(added, pos);
    hide IsSorted, Nearest;
    if LinearScan(added, pos).Some? {
      var e := LinearScan(added, pos).value;
      forall d | d in s && d.start <= pos ensures d.start <= e.start {}
      assert Latest(s, e, pos);
    }
  }

  lemma {:induction false} LinearScanFinds(s: seq<Extent>, pos: int)
    ensures LinearScan(s, pos).Some? ==> LinearScan(s, pos).value in s && Contains(LinearScan(s, pos).value, pos)
    ensures LinearScan(s, pos) == None ==> forall e :: e in s ==> !Contains(e, pos)
  {
    if s != [] {
      LinearScanFinds(s[1..], pos);
      assert forall e :: e in s <==> e == s[0] || e in s[1..];
    }
  }

  /** Where extents overlap, the search can miss one that contains the position. */
  lemma OverlapIsMissed()
    ensures var s := [Extent(0, 100, 1), Extent(10, 20, 2)];
      IsSorted(s) && Positive(s) && Nearest(s, 50) == None && LinearScan(s, 50) == Some(s[0])
  {
    var s := [Extent(0, 100, 1), Extent(10, 20, 2)];
    CountBelowIs(s, 50, 2);
  }

  /** `byterundb2`: Allocated files first. */
  class TwoDatabases {
    const allocatedRuns: Database
    const unallocatedRuns: Database

    constructor (allocatedRuns: Database, unallocatedRuns: Database)
      ensures this.allocatedRuns == allocatedRuns && this.unallocatedRuns == unallocatedRuns
    {
      this.allocatedRuns, this.unallocatedRuns := allocatedRuns, unallocatedRuns;
    }

    method SearchOffset(pos: int) returns (outcome: Outcome)
      requires allocatedRuns != unallocatedRuns && allocatedRuns.Valid() && unallocatedRuns.Valid()
      modifies allocatedRuns, unallocatedRuns
      ensures allocatedRuns.Valid() && unallocatedRuns.Valid()
      ensures allocatedRuns.added == old(allocatedRuns.added) && unallocatedRuns.added == old(unallocatedRuns.added)
      ensures Tidy(allocatedRuns.added) && Tidy(unallocatedRuns.added) ==>
        outcome == Found(LinearScan(allocatedRuns.added + unallocatedRuns.added, pos))
    {
      hide Tidy, Nearest, LinearScan;
      LinearScanAppend(allocatedRuns.added, unallocatedRuns.added, pos);
      outcome := allocatedRuns.SearchOffset(pos);
      if outcome == Found(None) {
        outcome := unallocatedRuns.SearchOffset(pos);
      }
    }
  }

  lemma {:induction false} LinearScanAppend(a: seq<Extent>, b: seq<Extent>, pos: int)
    ensures LinearScan(a + b, pos) == if LinearScan(a, pos).Some? then LinearScan(a, pos) else LinearScan(b, pos)
  {
    if a == [] {
      assert a + b == b;
    } else {
      assert (a + b)[1..] == a[1..] + b;
      LinearScanAppend(a[1..], b, pos);
    }
  }
}
