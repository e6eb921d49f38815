/** What whole runs over the pages of an image achieve. */
module PageRuns {
  import opened Bytes
  import opened ImageFiles
  import opened Pages
  import opened Phase1

  /** The page at `offset` is read and scheduled; or it is wanted and cannot be read. */
  predicate Scans(env: Env, offset: nat) { Wanted(env, offset) && ReadPage(env, offset).Page? }

  predicate Fails(env: Env, offset: nat) { Wanted(env, offset) && ReadPage(env, offset).Failed? }

  /** The byte count of the page at `offset` as the reader sees it. */
  function CountAt(env: Env, offset: nat): int
    requires offset <= |env.image|
  {
    Count(|env.image|, env.pagesize, env.margin, offset)
  }

  /** The length of the page at `offset`. */
  function Extent(env: Env, offset: nat): int { NextOffset(|env.image|, env.pagesize, offset) - offset }

  function Positions(sbufs: seq<Sbuf>): seq<nat> { seq(|sbufs|, i requires 0 <= i < |sbufs| => sbufs[i].pos) }

  /** The offsets up to the first at which the reader takes itself to be at the end of the image. */
  function Reached(env: Env, offsets: seq<nat>): seq<nat> {
    if offsets == [] || Exhausted(env, offsets[0]) then [] else [offsets[0]] + Reached(env, offsets[1..])
  }

  function Kept(env: Env, offsets: seq<nat>): seq<nat> {
    if offsets == [] then []
    else (if Scans(env, offsets[0]) then [offsets[0]] else []) + Kept(env, offsets[1..])
  }

  function Unreadable(env: Env, offsets: seq<nat>): seq<nat> {
    if offsets == [] then []
    else (if Fails(env, offsets[0]) then [offsets[0]] else []) + Unreadable(env, offsets[1..])
  }

  /** What reading a page inside the image gives: its count decides. */
  lemma PageRead(env: Env, offset: nat)
    requires env.pagesize > 0 && offset < |env.image|
    ensures var c := CountAt(env, offset);
      && offset + c <= |env.image|
      && ReadPage(env, offset) ==
           if offset in env.faults || c < 0 then Failed
           else if c == 0 then EndOfImage
           else Page(Sbuf(offset, env.image[offset..offset + c], Min(Extent(env, offset), c)))
  {
    PageMeaning(env.image, env.pagesize, env.margin, offset);
    hide PageAt, Count;
  }

  lemma PositionsSnoc(sbufs: seq<Sbuf>, s: Sbuf)
    ensures Positions(sbufs + [s]) == Positions(sbufs) + [s.pos]
  {}

  /** A sequential run schedules, in order, exactly the pages it reaches, wants and
      can read, and reports exactly those it reaches, wants and cannot. */
  lemma {:induction false} SequentialRun(env: Env, p: Progress, offset: nat)
    requires env.pagesize > 0 && offset <= |env.image|
    ensures var r := Run(env, p, Sequential(offset));
      var offsets := Reached(env, PageOffsets(|env.image|, env.pagesize, env.config.scanEnd, offset));
      && Positions(r.scheduled) == Positions(p.scheduled) + Kept(env, offsets)
      && r.failed == p.failed + Unreadable(env, offsets)
    decreases |env.image| - offset
  {
    hide Run, ReadPage, Wanted, Visit, Scans, Fails, PageAt, Exhausted, Kept, Unreadable, Positions;
    RunOnce(env, p, Sequential(offset));
    NothingKept(env);
    var size := |env.image|;
    if offset < size && !(env.config.scanEnd != 0 && env.config.scanEnd <= offset) {
      var next := NextOffset(size, env.pagesize, offset);
      var rest := PageOffsets(size, env.pagesize, env.config.scanEnd, next);
      assert ([offset] + rest)[1..] == rest;
      if !Exhausted(env, offset) {
        SequentialRun(env, Visit(env, p, offset), next);
        KeptFirst(env, offset, Reached(env, rest));
        VisitScheduled(env, p, offset);
      }
    }
  }

  lemma NothingKept(env: Env)
    ensures Kept(env, []) == [] && Unreadable(env, []) == []
  {}

  lemma KeptFirst(env: Env, offset: nat, rest: seq<nat>)
    ensures Kept(env, [offset] + rest) == (if Scans(env, offset) then [offset] else []) + Kept(env, rest)
    ensures Unreadable(env, [offset] + rest) == (if Fails(env, offset) then [offset] else []) + Unreadable(env, rest)
  {
    hide Scans, Fails;
    assert ([offset] + rest)[1..] == rest;
  }

  /** What one visit adds. */
  lemma VisitScheduled(env: Env, p: Progress, offset: nat)
    ensures var q := Visit(env, p, offset);
      && Positions(q.scheduled) == Positions(p.scheduled) + (if Scans(env, offset) then [offset] else [])
      && q.failed == p.failed + (if Fails(env, offset) then [offset] else [])
  {
    hide ReadPage, Wanted;
    if Scans(env, offset) {
      PositionsSnoc(p.scheduled, ReadPage(env, offset).sbuf);
    }
  }

  lemma {:induction false} KeptIn(env: Env, offsets: seq<nat>, o: nat)
    ensures o in Kept(env, offsets) <==> o in offsets && Scans(env, o)
    ensures o in Unreadable(env, offsets) <==> o in offsets && Fails(env, o)
  {
    hide Scans, Fails;
    if offsets != [] {
      KeptIn(env, offsets[1..], o);
      assert o in offsets <==> o == offsets[0] || o in offsets[1..];
    }
  }

  lemma {:induction false} KeptAscends(env: Env, offsets: seq<nat>)
    requires Ascending(offsets)
    ensures Ascending(Kept(env, offsets))
  {
    hide Scans;
    if offsets != [] {
      var rest := Kept(env, offsets[1..]);
      KeptAscends(env, offsets[1..]);
      forall i | 0 <= i < |rest| ensures offsets[0] < rest[i] {
        KeptIn(env, offsets[1..], rest[i]);
      }
    }
  }

  /** The offsets reached are a first part of all. */
  lemma {:induction false} ReachedPrefix(env: Env, offsets: seq<nat>)
    ensures Reached(env, offsets) <= offsets
    ensures forall o :: o in Reached(env, offsets) ==> !Exhausted(env, o)
  {
    hide Exhausted;
    if offsets != [] && !Exhausted(env, offsets[0]) {
      ReachedPrefix(env, offsets[1..]);
    }
  }

  lemma ReachedAscends(env: Env, offsets: seq<nat>)
    requires Ascending(offsets)
    ensures Ascending(Reached(env, offsets)) && forall o :: o in Reached(env, offsets) ==> o in offsets
  {
    hide Reached;
    ReachedPrefix(env, offsets);
  }

  lemma {:induction false} ReachedHas(env: Env, offsets: seq<nat>, j: nat)
    requires j < |offsets| && forall k :: 0 <= k <= j ==> !Exhausted(env, offsets[k])
    ensures offsets[j] in Reached(env, offsets)
  {
    hide Exhausted;
    if j > 0 {
      ReachedHas(env, offsets[1..], j - 1);
    }
  }

  lemma {:induction false} AllReached(env: Env, offsets: seq<nat>)
    requires forall o :: o in offsets ==> !Exhausted(env, o)
    ensures Reached(env, offsets) == offsets
  {
    hide Exhausted;
    if offsets != [] {
      assert offsets[0] in offsets;
      AllReached(env, offsets[1..]);
    }
  }

  /** Which pages a run from the start offset hands on and which it reports, by their offsets, if no count of bytes
      is misread as 0: whole pages on from the start, in the image and below the end of the scan, not recorded before,
      and only if the start page is 0. */
  lemma ScheduledExactly(env: Env, o: nat)
    requires env.pagesize > 0 && env.config.scanStart <= |env.image|
    requires forall x :: x in PageOffsets(|env.image|, env.pagesize, env.config.scanEnd, env.config.scanStart) ==>
               x <= |env.image| && CountAt(env, x) != 0
    ensures var start, r := env.config.scanStart, Run(env, Begin(false), Sequential(env.config.scanStart));
      var wanted := && start <= o < |env.image| && (o - start) % env.pagesize == 0
                    && (env.config.scanEnd == 0 || o < env.config.scanEnd)
                    && env.config.pageStart == 0 && PageId(o) !in env.config.seen;
      && (o in Positions(r.scheduled) <==> wanted && o !in env.faults && CountAt(env, o) > 0)
      && (o in r.failed <==> wanted && (o in env.faults || CountAt(env, o) < 0))
  {
    hide Run, Reached, Kept, Unreadable, CountAt, ReadPage, PageId;
    var start := env.config.scanStart;
    var offsets := PageOffsets(|env.image|, env.pagesize, env.config.scanEnd, start);
    SequentialRun(env, Begin(false), start);
    assert Positions([]) == [] && Begin(false).failed == [];
    forall x | x in offsets ensures x < |env.image| && !Exhausted(env, x) {
      OffsetsExactly(|env.image|, env.pagesize, env.config.scanEnd, start, x);
      PageRead(env, x);
    }
    AllReached(env, offsets);
    KeptIn(env, offsets, o);
    OffsetsExactly(|env.image|, env.pagesize, env.config.scanEnd, start, o);
    if o < |env.image| {
      PageRead(env, o);
    }
  }

  // ---- The hash of the image ----

  /** The hasher has digested the image up to `hashNext`. */
  ghost predicate HashSound(env: Env, p: Progress) {
    p.sha.Some? ==> p.hashNext <= |env.image| && p.sha.value == env.image[..p.hashNext]
  }

  lemma VisitHash(env: Env, p: Progress, offset: nat)
    requires env.pagesize > 0 && offset < |env.image| && HashSound(env, p)
    ensures var q := Visit(env, p, offset);
      && HashSound(env, q)
      && (!Scans(env, offset) ==> q.sha == p.sha && q.hashNext == p.hashNext)
      && (Scans(env, offset) && p.sha.Some? ==>
            if offset == p.hashNext then
              q.sha.Some? && q.hashNext == offset + Min(Extent(env, offset), CountAt(env, offset))
            else q.sha.None?)
      && (p.sha.None? ==> q.sha.None?)
  {
    PageRead(env, offset);
    hide ReadPage, Wanted, Count;
    if Scans(env, offset) && p.sha.Some? && offset == p.hashNext {
      var s := ReadPage(env, offset).sbuf;
      assert s.data[..s.pagesize] == env.image[offset..offset + s.pagesize];
      assert env.image[..offset] + env.image[offset..offset + s.pagesize] == env.image[..offset + s.pagesize];
    }
  }

  /** Whenever the hasher survives a run, it has digested a prefix of the image. */
  lemma {:induction false} HashIsPrefix(env: Env, p: Progress, offset: nat)
    requires env.pagesize > 0 && offset <= |env.image| && HashSound(env, p)
    ensures HashSound(env, Run(env, p, Sequential(offset)))
    decreases |env.image| - offset
  {
    hide Run, Visit;
    RunOnce(env, p, Sequential(offset));
    var t := Target(env, Sequential(offset));
    if t.Some? && !Exhausted(env, offset) {
      VisitHash(env, p, offset);
      HashIsPrefix(env, Visit(env, p, offset), NextOffset(|env.image|, env.pagesize, offset));
    }
  }

  /** The page at `offset` is scheduled complete. */
  predicate ScansWhole(env: Env, offset: nat)
    requires offset <= |env.image|
  {
    Scans(env, offset) && CountAt(env, offset) >= Extent(env, offset)
  }

  ghost predicate AllWhole(env: Env, offsets: seq<nat>) {
    forall i :: 0 <= i < |offsets| ==> offsets[i] <= |env.image| && ScansWhole(env, offsets[i])
  }

  /** Once a part was left out the image is not digested in full any more. */
  lemma {:induction false} GapStays(env: Env, p: Progress, offset: nat)
    requires env.pagesize > 0 && offset <= |env.image| && HashSound(env, p) && (p.sha.Some? ==> p.hashNext < offset)
    ensures Run(env, p, Sequential(offset)).sha != Some(env.image)
    decreases |env.image| - offset
  {
    hide Run, Visit;
    RunOnce(env, p, Sequential(offset));
    var t := Target(env, Sequential(offset));
    if t.Some? && !Exhausted(env, offset) {
      VisitHash(env, p, offset);
      GapStays(env, Visit(env, p, offset), NextOffset(|env.image|, env.pagesize, offset));
    }
  }

  lemma {:induction false} HashFrom(env: Env, p: Progress, offset: nat)
    requires env.pagesize > 0 && env.config.scanEnd == 0 && offset <= |env.image|
    requires HashSound(env, p) && p.sha.Some? && p.hashNext == offset
    ensures var r := Run(env, p, Sequential(offset));
      r.sha == Some(env.image) <==> AllWhole(env, PageOffsets(|env.image|, env.pagesize, 0, offset))
    decreases |env.image| - offset
  {
    hide Run, Visit, Scans, CountAt;
    RunOnce(env, p, Sequential(offset));
    var size := |env.image|;
    if offset < size {
      VisitHash(env, p, offset);
      var next := NextOffset(size, env.pagesize, offset);
      var q := Visit(env, p, offset);
      var rest := PageOffsets(size, env.pagesize, 0, next);
      WholeFirst(env, offset, rest);
      NotExhausted(env, offset);
      if ScansWhole(env, offset) {
        HashFrom(env, q, next);
      } else if !Exhausted(env, offset) {
        GapStays(env, q, next);
      }
    } else {
      assert env.image[..offset] == env.image;
    }
  }

  lemma WholeFirst(env: Env, offset: nat, rest: seq<nat>)
    requires offset <= |env.image|
    ensures AllWhole(env, [offset] + rest) <==> ScansWhole(env, offset) && AllWhole(env, rest)
  {
    hide ScansWhole;
    var all := [offset] + rest;
    assert all[0] == offset && forall i :: 0 <= i < |rest| ==> rest[i] == all[i + 1];
  }

  lemma NotExhausted(env: Env, offset: nat)
    ensures Scans(env, offset) ==> !Exhausted(env, offset)
  {}

  /** A run over the whole image ends with the hash of the image if and only if
      every page of it was scheduled complete. */
  lemma HashOfImage(env: Env)
    requires env.pagesize > 0 && env.config.scanEnd == 0
    ensures Run(env, Begin(false), Sequential(0)).sha == Some(env.image)
            <==> AllWhole(env, PageOffsets(|env.image|, env.pagesize, 0, 0))
  {
    assert env.image[..0] == [];
    HashFrom(env, Begin(false), 0);
  }

  // ---- The pages partition the image ----

  function PageBytes(sbufs: seq<Sbuf>): bytes {
    if sbufs == [] then []
    else
      var s := sbufs[|sbufs| - 1];
      PageBytes(sbufs[..|sbufs| - 1]) + if s.pagesize <= |s.data| then s.data[..s.pagesize] else []
  }

  lemma PageBytesSnoc(sbufs: seq<Sbuf>, s: Sbuf)
    ensures PageBytes(sbufs + [s]) == PageBytes(sbufs) + if s.pagesize <= |s.data| then s.data[..s.pagesize] else []
  {
    assert (sbufs + [s])[..|sbufs|] == sbufs;
  }

  /** In every run, sampled or not, the bytes counted are those of the pages scheduled. */
  lemma {:induction false} TotalIsSum(env: Env, p: Progress, plan: Plan)
    requires env.pagesize > 0 && p.totalBytes == |PageBytes(p.scheduled)|
    ensures var r := Run(env, p, plan); r.totalBytes == |PageBytes(r.scheduled)|
    decreases Left(env, plan)
  {
    hide Run, Wanted, ReadPage, Left, PageBytes;
    RunOnce(env, p, plan);
    var t := Target(env, plan);
    if t.Some? && !Exhausted(env, t.value) {
      if Scans(env, t.value) {
        PageBytesSnoc(p.scheduled, ReadPage(env, t.value).sbuf);
      }
      LeftDecreases(env, plan);
      TotalIsSum(env, Visit(env, p, t.value), Onward(env, plan, t.value));
    }
  }

  lemma LeftDecreases(env: Env, plan: Plan)
    requires env.pagesize > 0 && Target(env, plan).Some?
    ensures Left(env, Onward(env, plan, Target(env, plan).value)) < Left(env, plan)
  {}

  /** What a visit does to the bytes of the pages: a complete page adds exactly its extent. */
  lemma VisitBytes(env: Env, p: Progress, offset: nat)
    requires env.pagesize > 0 && offset < |env.image|
    ensures var q, next := Visit(env, p, offset), NextOffset(|env.image|, env.pagesize, offset);
      && (ScansWhole(env, offset) ==>
            PageBytes(q.scheduled) == PageBytes(p.scheduled) + env.image[offset..next] && q.failed == p.failed)
      && |PageBytes(q.scheduled)| <= |PageBytes(p.scheduled)| + Extent(env, offset)
      && (!ScansWhole(env, offset) ==> |PageBytes(q.scheduled)| < |PageBytes(p.scheduled)| + Extent(env, offset))
  {
    PageRead(env, offset);
    hide ReadPage, Wanted, PageBytes, CountAt;
    if Scans(env, offset) {
      var s := ReadPage(env, offset).sbuf;
      PageBytesSnoc(p.scheduled, s);
      if ScansWhole(env, offset) {
        assert s.data[..s.pagesize] == env.image[offset..NextOffset(|env.image|, env.pagesize, offset)];
      }
    }
  }

  /** A run never schedules more bytes than there are. */
  lemma {:induction false} BytesAtMost(env: Env, p: Progress, offset: nat)
    requires env.pagesize > 0 && offset <= |env.image|
    ensures var r := Run(env, p, Sequential(offset));
      |PageBytes(r.scheduled)| <= |PageBytes(p.scheduled)| + |env.image| - offset
    decreases |env.image| - offset
  {
    hide Run, Visit, PageBytes, ScansWhole, Exhausted;
    RunOnce(env, p, Sequential(offset));
    if Target(env, Sequential(offset)).Some? && !Exhausted(env, offset) {
      VisitBytes(env, p, offset);
      BytesAtMost(env, Visit(env, p, offset), NextOffset(|env.image|, env.pagesize, offset));
    }
  }

  /** From `offset` on the pages make up the image if and only if each is complete. */
  lemma {:induction false} BytesFrom(env: Env, p: Progress, start: nat, offset: nat)
    requires env.pagesize > 0 && env.config.scanEnd == 0 && start <= offset <= |env.image|
    requires PageBytes(p.scheduled) == env.image[start..offset] && p.failed == []
    ensures var r := Run(env, p, Sequential(offset));
      var whole := AllWhole(env, PageOffsets(|env.image|, env.pagesize, 0, offset));
      && (PageBytes(r.scheduled) == env.image[start..] <==> whole) && (whole ==> r.failed == [])
    decreases |env.image| - offset
  {
    hide Run, Visit, PageBytes, ScansWhole, AllWhole, Exhausted;
    RunOnce(env, p, Sequential(offset));
    var size := |env.image|;
    if offset < size {
      var next := NextOffset(size, env.pagesize, offset);
      VisitBytes(env, p, offset);
      WholeFirst(env, offset, PageOffsets(size, env.pagesize, 0, next));
      WholeIsScanned(env, offset);
      if ScansWhole(env, offset) {
        assert env.image[start..offset] + env.image[offset..next] == env.image[start..next];
        BytesFrom(env, Visit(env, p, offset), start, next);
      } else if !Exhausted(env, offset) {
        BytesAtMost(env, Visit(env, p, offset), next);
      }
    } else {
      AllOfNone(env);
      assert env.image[start..offset] == env.image[start..];
    }
  }

  lemma WholeIsScanned(env: Env, offset: nat)
    requires offset <= |env.image|
    ensures ScansWhole(env, offset) ==> !Exhausted(env, offset)
  {}

  lemma AllOfNone(env: Env)
    ensures AllWhole(env, [])
  {}

  /** No byte count of these pages is misread short of the page. */
  ghost predicate AllFit(env: Env, offsets: seq<nat>) {
    forall i :: 0 <= i < |offsets| ==> offsets[i] <= |env.image| && CountAt(env, offsets[i]) >= Extent(env, offsets[i])
  }

  /** With nothing seen before and no read error, the pages of a run from `start` cover the image from there on
      exactly once if and only if every byte count covers its page. Then nothing fails, the bytes counted are
      those of the image from `start` on, and from the beginning the hash is the image's. */
  lemma PagesPartition(env: Env)
    requires env.pagesize > 0 && env.config.scanEnd == 0 && env.config.pageStart == 0
    requires env.config.seen == {} && env.faults == {} && env.config.scanStart <= |env.image|
    ensures var start := env.config.scanStart;
      var r := Run(env, Begin(false), Sequential(start));
      var fit := AllFit(env, PageOffsets(|env.image|, env.pagesize, 0, start));
      && (PageBytes(r.scheduled) == env.image[start..] <==> fit)
      && (fit ==> r.failed == [] && r.totalBytes == |env.image| - start && (start == 0 ==> r.sha == Some(env.image)))
  {
    var start := env.config.scanStart;
    var offsets := PageOffsets(|env.image|, env.pagesize, 0, start);
    assert env.image[start..start] == [];
    hide Run, AllWhole, AllFit;
    BytesFrom(env, Begin(false), start, start);
    TotalIsSum(env, Begin(false), Sequential(start));
    FitIsWhole(env, start);
    if start == 0 {
      HashOfImage(env);
    }
  }

  lemma FitIsWhole(env: Env, start: nat)
    requires env.pagesize > 0 && env.config.scanEnd == 0 && env.config.pageStart == 0
    requires env.config.seen == {} && env.faults == {} && env.config.scanStart == start <= |env.image|
    ensures var offsets := PageOffsets(|env.image|, env.pagesize, 0, start);
      AllFit(env, offsets) <==> AllWhole(env, offsets)
  {
    var offsets := PageOffsets(|env.image|, env.pagesize, 0, start);
    OffsetsAscend(|env.image|, env.pagesize, start);
    hide PageOffsets, ReadPage, CountAt, PageId;
    forall i | 0 <= i < |offsets| && CountAt(env, offsets[i]) >= Extent(env, offsets[i])
      ensures ScansWhole(env, offsets[i])
    {
      PageRead(env, offsets[i]);
    }
  }

  /** A start page other than 0 leaves every page out, since page numbers stay 0. */
  lemma {:induction false} PageStartSkipsAll(env: Env, p: Progress, offset: nat)
    requires env.pagesize > 0 && env.config.pageStart > 0 && offset <= |env.image|
    ensures Run(env, p, Sequential(offset)) == p
    decreases |env.image| - offset
  {
    if offset < |env.image| {
      PageStartSkipsAll(env, p, NextOffset(|env.image|, env.pagesize, offset));
    }
  }
}
