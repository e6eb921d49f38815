/** The extent database and the combining of runs in `python/dfxml.py`. */
module ExtentDb {
  import opened Bytes

  /** The offset and length of a `byte_run`. */
  datatype Run = Run(imgOffset: int, len: int)

  const SECTOR_SIZE := 512

  // ---- Runs as byte positions ----

  /** The positions in a run, in order. */
  function Positions(r: Run): (s: seq<int>)
    ensures |s| == if r.len < 0 then 0 else r.len
    ensures forall k :: 0 <= k < |s| ==> s[k] == r.imgOffset + k
  {
    if r.len <= 0 then [] else seq(r.len, k => r.imgOffset + k)
  }

  /** The positions in a list of runs, in order. */
  function AllPositions(runs: seq<Run>): seq<int> {
    if runs == [] then [] else AllPositions(runs[..|runs| - 1]) + Positions(runs[|runs| - 1])
  }

  predicate AllPositive(runs: seq<Run>) { forall k :: 0 <= k < |runs| ==> runs[k].len > 0 }

  /** Positive lengths, and no position twice. */
  predicate Disjoint(runs: seq<Run>) { AllPositive(runs) && NoRepeats(AllPositions(runs)) }

  lemma {:induction false} PositionsAppend(a: seq<Run>, b: seq<Run>)
    ensures AllPositions(a + b) == AllPositions(a) + AllPositions(b)
  {
    hide Positions;
    if b == [] {
      assert a + b == a;
    } else {
      var init, last := b[..|b| - 1], b[|b| - 1];
      PositionsAppend(a, init);
      OneMore(a + init, last);
      OneMore(init, last);
      assert a + b == a + init + [last] && b == init + [last];
      hide AllPositions;
    }
  }

  lemma {:induction false} PositionOf(runs: seq<Run>, x: int)
    ensures x in AllPositions(runs) <==> exists k :: 0 <= k < |runs| && x in Positions(runs[k])
  {
    hide Positions;
    if runs != [] {
      var n := |runs| - 1;
      PositionOf(runs[..n], x);
      if x in AllPositions(runs[..n]) {
        var k :| 0 <= k < n && x in Positions(runs[..n][k]);
        assert x in Positions(runs[k]);
      }
      forall k | 0 <= k < |runs| && x in Positions(runs[k]) ensures x in AllPositions(runs) {
        if k < n {
          assert x in Positions(runs[..n][k]);
        }
      }
    }
  }

  lemma NoRepeatsAppend(s: seq<int>, t: seq<int>)
    ensures NoRepeats(s + t) <==> NoRepeats(s) && NoRepeats(t) && forall x :: x in t ==> x !in s
  {
    var u := s + t;
    if NoRepeats(u) {
      forall i, j | 0 <= i < j < |s| ensures s[i] != s[j] {
        assert u[i] != u[j];
      }
      forall i, j | 0 <= i < j < |t| ensures t[i] != t[j] {
        assert u[|s| + i] != u[|s| + j];
      }
      forall i, j | 0 <= i < |s| && 0 <= j < |t| ensures s[i] != t[j] {
        assert u[i] != u[|s| + j];
      }
    }
    if NoRepeats(s) && NoRepeats(t) && forall x :: x in t ==> x !in s {
      forall i, j | 0 <= i < j < |u| ensures u[i] != u[j] {
        if i < |s| <= j {
          assert u[j] == t[j - |s|] && u[j] in t && u[i] in s;
        }
      }
    }
  }

  /** Some position lies in both runs. */
  ghost predicate Meet(a: Run, b: Run) { exists x :: x in Positions(a) && x in Positions(b) }

  /** One more run keeps a list disjoint if and only if it has a position and shares none. */
  lemma DisjointPlus(runs: seq<Run>, r: Run)
    requires Disjoint(runs)
    ensures Disjoint(runs + [r]) <==> r.len > 0 && forall k :: 0 <= k < |runs| ==> !Meet(r, runs[k])
  {
    assert (runs + [r])[..|runs|] == runs;
    assert (runs + [r])[|runs|] == r;
    NoRepeatsAppend(AllPositions(runs), Positions(r));
    forall x | x in Positions(r)
      ensures x in AllPositions(runs) <==> exists k :: 0 <= k < |runs| && x in Positions(runs[k])
    {
      PositionOf(runs, x);
    }
  }

  // ---- The database ----

  /** What `intersects` returns: an exception, `True`, an extent or `None`. */
  datatype Hit = ValueError | Everything | With(extent: Run) | Nothing

  class Database {
    var db: seq<Run>
    var sectorsize: int

    ghost predicate Valid()
      reads this
    {
      Disjoint(db) && sectorsize == SECTOR_SIZE
    }

    /** The size that is asked for is not used. */
    constructor (sectorsize: int := SECTOR_SIZE)
      ensures Valid() && db == [] && this.sectorsize == 512
    {
      db := [];
      this.sectorsize := SECTOR_SIZE;
    }

    /** An extent is reported if and only if one shares a position, and it is the first that does. */
    method Intersects(extent: Run) returns (hit: Hit)
      requires Valid()
      ensures extent.len == 0 ==> hit == Everything
      ensures extent.len < 0 ==> hit == ValueError
      ensures extent.len > 0 ==> hit.With? || hit.Nothing?
      ensures hit.Nothing? ==> forall k :: 0 <= k < |db| ==> !Meet(extent, db[k])
      ensures hit.With? ==> exists k :: 0 <= k < |db| && hit.extent == db[k] && Meet(extent, db[k])
                                      && forall j :: 0 <= j < k ==> !Meet(extent, db[j])
    {
      if extent.len == 0 {
        return Everything;
      }
      if extent.len < 0 {
        return ValueError;
      }
      var start, stop := extent.imgOffset, extent.imgOffset + extent.len;
      for i := 0 to |db|
        invariant forall k :: 0 <= k < i ==> !Meet(extent, db[k])
      {
        var d := db[i];
        MeetIs(extent, d);
        if d.imgOffset <= start < d.imgOffset + d.len {
          return With(d);
        }
        if d.imgOffset < stop < d.imgOffset + d.len {
          return With(d);
        }
        if start < d.imgOffset && d.imgOffset + d.len <= stop {
          return With(d);
        }
      }
      return Nothing;
    }

    /** An extent is added if and only if the list stays disjoint; otherwise nothing changes. */
    method Add(extent: Run) returns (ok: bool)
      requires Valid()
      modifies this
      ensures Valid() && (ok <==> Disjoint(old(db) + [extent]))
      ensures db == if ok then old(db) + [extent] else old(db)
    {
      DisjointPlus(db, extent);
      hide Disjoint, Meet;
      var v := Intersects(extent);
      if v != Nothing {
        return false;
      }
      db := db + [extent];
      return true;
    }

    /** `add_runs` stops at the first run that does not fit; the runs before it stay. */
    method AddRuns(runs: seq<Run>) returns (ok: bool)
      requires Valid()
      modifies this
      ensures Valid() && (ok <==> Disjoint(old(db) + runs))
      ensures exists k :: 0 <= k <= |runs| && db == old(db) + runs[..k] && (ok <==> k == |runs|)
                         && (!ok ==> !Disjoint(old(db) + runs[..k + 1]))
    {
      hide Disjoint;
      assert runs[..0] == [] && db + [] == db;
      for i := 0 to |runs|
        invariant db == old(db) + runs[..i] && Valid()
      {
        assert runs[..i + 1] == runs[..i] + [runs[i]];
        assert old(db) + runs[..i + 1] == db + [runs[i]];
        ok := Add(runs[i]);
        if !ok {
          assert old(db) + runs == old(db) + runs[..i + 1] + runs[i + 1..];
          DisjointPrefix(old(db) + runs[..i + 1], runs[i + 1..]);
          return false;
        }
      }
      assert runs[..|runs|] == runs;
      return true;
    }

    /** `add_sectors`: it succeeds if and only if the sectors are different ones and no position of
        theirs is in the database; the database then holds exactly their positions as well. */
    method AddSectors(sectors: seq<int>) returns (ok: bool)
      requires Valid()
      modifies this
      ensures Valid() && (ok <==> NoRepeats(AllPositions(old(db)) + SectorPositions(sectors, SECTOR_SIZE)))
      ensures ok ==> AllPositions(db) == AllPositions(old(db)) + SectorPositions(sectors, SECTOR_SIZE)
    {
      hide AllPositions, NoRepeats, SectorPositions;
      var runs := RunsForSectors(sectors, sectorsize);
      PositionsAppend(db, runs);
      ok := AddRuns(runs);
      assert runs[..|runs|] == runs;
    }
  }

  lemma DisjointPrefix(a: seq<Run>, b: seq<Run>)
    ensures Disjoint(a + b) ==> Disjoint(a)
  {
    if Disjoint(a + b) {
      PositionsAppend(a, b);
      NoRepeatsAppend(AllPositions(a), AllPositions(b));
      assert forall k :: 0 <= k < |a| ==> a[k] == (a + b)[k];
    }
  }

  lemma PositionIn(r: Run, x: int)
    ensures x in Positions(r) <==> r.imgOffset <= x < r.imgOffset + r.len
  {
    if r.imgOffset <= x < r.imgOffset + r.len {
      assert Positions(r)[x - r.imgOffset] == x;
    }
  }

  /** The three comparisons of `intersects`, for runs that are not empty. */
  lemma MeetIs(a: Run, b: Run)
    requires a.len > 0 && b.len > 0
    ensures Meet(a, b) <==> a.imgOffset < b.imgOffset + b.len && b.imgOffset < a.imgOffset + a.len
  {
    forall x ensures x in Positions(a) && x in Positions(b)
                <==> a.imgOffset <= x < a.imgOffset + a.len && b.imgOffset <= x < b.imgOffset + b.len {
      PositionIn(a, x);
      PositionIn(b, x);
    }
    if a.imgOffset < b.imgOffset + b.len && b.imgOffset < a.imgOffset + a.len {
      var x := if a.imgOffset < b.imgOffset then b.imgOffset else a.imgOffset;
      assert x in Positions(a) && x in Positions(b);
    }
  }

  // ---- Combining ----

  predicate Mergeable(a: Run, b: Run) { a.imgOffset + a.len == b.imgOffset }

  predicate NoneMergeable(runs: seq<Run>) { forall k :: 0 <= k < |runs| - 1 ==> !Mergeable(runs[k], runs[k + 1]) }

  predicate NoneNegative(runs: seq<Run>) { forall k :: 0 <= k < |runs| ==> runs[k].len >= 0 }

  /** `combine_runs`: the same positions in the same order, and no neighbours left to combine. */
  method CombineRuns(runs: seq<Run>) returns (ret: seq<Run>)
    ensures NoneMergeable(ret)
    ensures NoneNegative(runs) ==> NoneNegative(ret) && AllPositions(ret) == AllPositions(runs)
    ensures AllPositive(runs) ==> AllPositive(ret)
  {
    hide AllPositions, Positions, NoneMergeable;
    if runs == [] {
      Alone([]);
      return [];
    }
    ret := [runs[0]];
    Alone(ret);
    assert runs[..1] == ret;
    for i := 1 to |runs|
      invariant ret != [] && NoneMergeable(ret)
      invariant NoneNegative(runs) ==> NoneNegative(ret) && AllPositions(ret) == AllPositions(runs[..i])
      invariant AllPositive(runs) ==> AllPositive(ret)
    {
      var run := runs[i];
      var last := ret[|ret| - 1];
      assert runs[..i + 1] == runs[..i] + [run];
      OneMore(runs[..i], run);
      if last.imgOffset + last.len == run.imgOffset {
        WidenedApart(ret, run);
        if NoneNegative(runs) {
          WidenedPositions(ret, run);
        }
        ret := ret[|ret| - 1 := Run(last.imgOffset, last.len + run.len)];
      } else {
        OneMore(ret, run);
        Appended(ret, run);
        ret := ret + [run];
      }
    }
    assert runs[..|runs|] == runs;
  }

  lemma Alone(runs: seq<Run>)
    requires |runs| <= 1
    ensures NoneMergeable(runs)
  {}

  lemma Appended(ret: seq<Run>, run: Run)
    requires ret != [] && NoneMergeable(ret) && !Mergeable(ret[|ret| - 1], run)
    ensures NoneMergeable(ret + [run])
  {}

  lemma WidenedApart(ret: seq<Run>, run: Run)
    requires ret != [] && NoneMergeable(ret)
    ensures var last := ret[|ret| - 1];
      NoneMergeable(ret[|ret| - 1 := Run(last.imgOffset, last.len + run.len)])
  {
    var last := ret[|ret| - 1];
    var wider := ret[|ret| - 1 := Run(last.imgOffset, last.len + run.len)];
    forall k | 0 <= k < |wider| - 1 ensures !Mergeable(wider[k], wider[k + 1]) {
      assert !Mergeable(ret[k], ret[k + 1]);
    }
  }

  /** Extending the last run by the one that begins where it ends adds that one's positions. */
  lemma WidenedPositions(ret: seq<Run>, run: Run)
    requires ret != [] && Mergeable(ret[|ret| - 1], run) && ret[|ret| - 1].len >= 0 && run.len >= 0
    ensures var last := ret[|ret| - 1];
      AllPositions(ret[|ret| - 1 := Run(last.imgOffset, last.len + run.len)]) == AllPositions(ret) + Positions(run)
  {
    var n := |ret| - 1;
    var last := ret[n];
    var more := Run(last.imgOffset, last.len + run.len);
    Wider(last, run);
    hide AllPositions, Positions, Mergeable;
    OneMore(ret[..n], last);
    OneMore(ret[..n], more);
    assert ret == ret[..n] + [last] && ret[n := more] == ret[..n] + [more];
    assert AllPositions(ret[..n]) + (Positions(last) + Positions(run))
        == AllPositions(ret[..n]) + Positions(last) + Positions(run);
  }

  lemma OneMore(runs: seq<Run>, r: Run)
    ensures AllPositions(runs + [r]) == AllPositions(runs) + Positions(r)
  {
    assert (runs + [r])[..|runs|] == runs;
  }

  lemma Wider(a: Run, b: Run)
    requires a.len >= 0 && b.len >= 0 && Mergeable(a, b)
    ensures Positions(Run(a.imgOffset, a.len + b.len)) == Positions(a) + Positions(b)
  {}

  /** The positions of the sectors, in order. */
  function SectorPositions(sectors: seq<int>, size: int): seq<int> {
    if sectors == [] then []
    else SectorPositions(sectors[..|sectors| - 1], size) + Positions(Run(sectors[|sectors| - 1] * size, size))
  }

  /** `runs_for_sectors`. */
  method RunsForSectors(sectors: seq<int>, size: int) returns (runs: seq<Run>)
    ensures size > 0 ==> AllPositive(runs)
    ensures size >= 0 ==> AllPositions(runs) == SectorPositions(sectors, size)
    ensures NoneMergeable(runs)
  {
    hide Positions;
    var each: seq<Run> := [];
    for i := 0 to |sectors|
      invariant |each| == i && forall k :: 0 <= k < i ==> each[k].len == size
      invariant AllPositions(each) == SectorPositions(sectors[..i], size)
    {
      var run := Run(sectors[i] * size, size);
      OneMore(each, run);
      assert sectors[..i + 1][..i] == sectors[..i];
      each := each + [run];
    }
    assert sectors[..|sectors|] == sectors;
    runs := CombineRuns(each);
  }

  lemma {:induction false} SectorCount(sectors: seq<int>, size: int)
    ensures |SectorPositions(sectors, size)| == |sectors| * if size < 0 then 0 else size
  {
    if sectors != [] {
      hide Positions;
      SectorCount(sectors[..|sectors| - 1], size);
      OneFactorMore(|sectors| - 1, if size < 0 then 0 else size);
    }
  }

  lemma OneFactorMore(n: nat, k: nat)
    ensures n * k + k == (n + 1) * k
  {}

  /** As the size given to the constructor is not used, sectors cover what the caller
      means by them if and only if that size is 512 (or there are no sectors). */
  lemma SizeIsNotUsed(sectors: seq<int>, size: int)
    ensures SectorPositions(sectors, SECTOR_SIZE) == SectorPositions(sectors, size)
       <==> size == 512 || sectors == []
  {
    SectorCount(sectors, size);
    SectorCount(sectors, SECTOR_SIZE);
    hide SectorPositions;
    var used := if size < 0 then 0 else size;
    if |sectors| > 0 && used != SECTOR_SIZE {
      assert |sectors| * (SECTOR_SIZE - used) != 0;
    }
    assert sectors == [] ==> |sectors| == 0;
    EmptySectors(size);
  }

  lemma EmptySectors(size: int)
    ensures SectorPositions([], size) == []
  {}
}
