/**
 `read_process_sbufs` of `src/phase1.cpp`: the loop that reads pages, hashes the
 image while no gap is met, and schedules every page for the scanners.
 */
module Phase1 {
  import opened Bytes
  import opened ImageFiles
  import opened Pages

  /** `pos0_t::str` of a page of the image: its offset in decimal. */
  function PageId(offset: nat): string {
    if offset < 10 then [Digit(offset)] else PageId(offset / 10) + [Digit(offset % 10)]
  }

  function Digit(d: nat): char
    requires d < 10
  {
    (48 + d) as char
  }

  lemma {:induction false} PageIdInjective(a: nat, b: nat)
    requires PageId(a) == PageId(b)
    ensures a == b
  {
    var s, t := PageId(a), PageId(b);
    assert s[|s| - 1] == Digit(a % 10) && t[|t| - 1] == Digit(b % 10);
    if a >= 10 && b >= 10 {
      assert s[..|s| - 1] == PageId(a / 10) && t[..|t| - 1] == PageId(b / 10);
      PageIdInjective(a / 10, b / 10);
    } else {
      PageIdLength(a);
      PageIdLength(b);
    }
  }

  lemma {:induction false} PageIdLength(a: nat)
    ensures |PageId(a)| >= 1 && (|PageId(a)| == 1 <==> a < 10)
  {
    if a >= 10 {
      PageIdLength(a / 10);
    }
  }

  /** The value of a decimal digit, or 10. */
  function DigitValue(c: char): nat {
    if c == '0' then 0 else if c == '1' then 1 else if c == '2' then 2 else if c == '3' then 3
    else if c == '4' then 4 else if c == '5' then 5 else if c == '6' then 6 else if c == '7' then 7
    else if c == '8' then 8 else if c == '9' then 9 else 10
  }

  /** What a string of digits is in decimal. */
  function Decimal(s: string): nat {
    if s == "" then 0 else 10 * Decimal(s[..|s| - 1]) + DigitValue(s[|s| - 1])
  }

  /** A page id is its offset in decimal digits, without zeros in front. */
  lemma {:induction false} PageIdIsDecimal(offset: nat)
    ensures Decimal(PageId(offset)) == offset
    ensures forall i :: 0 <= i < |PageId(offset)| ==> DigitValue(PageId(offset)[i]) < 10
    ensures PageId(offset) != "" && (offset > 0 ==> PageId(offset)[0] != '0')
  {
    var s := PageId(offset);
    DigitIs(offset % 10);
    if offset < 10 {
      assert s[..0] == "";
      DigitIs(offset);
    } else {
      PageIdIsDecimal(offset / 10);
      assert s[..|s| - 1] == PageId(offset / 10);
    }
  }

  lemma DigitIs(d: nat)
    requires d < 10
    ensures DigitValue(Digit(d)) == d && (d > 0 ==> Digit(d) != '0')
  {}

  datatype Config = Config(pageStart: nat, scanStart: nat, scanEnd: nat, seen: set<string>)

  /** What is fixed during a run: the image, its paging, the options, and the
      offsets at which reading raises an exception. */
  datatype Env = Env(image: bytes, pagesize: nat, margin: nat, config: Config, faults: set<nat>)

  /** What a run has done so far. `sha` is what the hasher has digested, None once it was dropped. */
  datatype Progress =
    Progress(sha: Option<bytes>, hashNext: nat, totalBytes: nat, scheduled: seq<Sbuf>, failed: seq<nat>)

  /** Sequential reading from an offset, or the blocks still to be sampled. */
  datatype Plan = Sequential(offset: nat) | Sampled(offset: nat, blocks: seq<nat>)

  function Begin(sampling: bool): Progress {
    Progress(if sampling then None else Some([]), 0, 0, [], [])
  }

  function Hashed(p: Progress, sbuf: Sbuf): Progress
    requires sbuf.pagesize <= |sbuf.data|
  {
    if p.sha.None? then p
    else if sbuf.pos == p.hashNext
    then p.(sha := Some(p.sha.value + sbuf.data[..sbuf.pagesize]), hashNext := p.hashNext + sbuf.pagesize)
    else p.(sha := None)
  }

  function Scheduled(p: Progress, sbuf: Sbuf): Progress
    requires sbuf.pagesize <= |sbuf.data|
  {
    var h := Hashed(p, sbuf);
    h.(totalBytes := p.totalBytes + sbuf.pagesize, scheduled := p.scheduled + [sbuf])
  }

  function ReadPage(env: Env, offset: nat): (r: Read)
    ensures r.Page? ==> r.sbuf.pagesize <= |r.sbuf.data| && r.sbuf.pos == offset
  {
    if offset in env.faults && offset < |env.image| then Failed else PageAt(env.image, env.pagesize, env.margin, offset)
  }

  predicate Wanted(env: Env, offset: nat) {
    env.config.pageStart == 0 && env.config.scanStart <= offset && PageId(offset) !in env.config.seen
  }

  /** One page: skipped, read and scheduled, or reported as unreadable. */
  function Visit(env: Env, p: Progress, offset: nat): Progress {
    if !Wanted(env, offset) then p
    else
      var r := ReadPage(env, offset);
      match r
      case Page(sbuf) => Scheduled(p, sbuf)
      case Failed => p.(failed := p.failed + [offset])
      case EndOfImage => p
  }

  /** The reader found no data: the iterator is at its end, whatever its position. */
  predicate Exhausted(env: Env, offset: nat) { Wanted(env, offset) && ReadPage(env, offset).EndOfImage? }

  /** The offset the loop comes to next, if it does not stop. */
  function Target(env: Env, plan: Plan): Option<nat>
    requires env.pagesize > 0
  {
    var size := |env.image|;
    if plan.offset == size then None
    else if plan.Sampled? && plan.blocks == [] then None
    else
      var at := if plan.Sampled? then BlockOffset(size, env.pagesize, plan.blocks[0]) else plan.offset;
      if env.config.scanEnd != 0 && env.config.scanEnd <= at then None else Some(at)
  }

  function Onward(env: Env, plan: Plan, at: nat): Plan
    requires plan.Sampled? ==> plan.blocks != []
  {
    var next := NextOffset(|env.image|, env.pagesize, at);
    if plan.Sampled? then Sampled(next, plan.blocks[1..]) else Sequential(next)
  }

  function Left(env: Env, plan: Plan): nat {
    var size := |env.image|;
    if plan.Sampled? then |plan.blocks|
    else if plan.offset > size then 1
    else if plan.offset < size then size - plan.offset + 1
    else 0
  }

  /** The whole run. */
  function Run(env: Env, p: Progress, plan: Plan): Progress
    requires env.pagesize > 0
    decreases Left(env, plan)
  {
    var t := Target(env, plan);
    if t.None? || Exhausted(env, t.value) then p
    else Run(env, Visit(env, p, t.value), Onward(env, plan, t.value))
  }

  /** Seeking to the next block before waiting makes no difference. */
  lemma Reseek(env: Env, p: Progress, offset: nat, blocks: seq<nat>)
    requires env.pagesize > 0 && blocks != [] && offset != |env.image|
    ensures Run(env, p, Sampled(BlockOffset(|env.image|, env.pagesize, blocks[0]), blocks))
         == Run(env, p, Sampled(offset, blocks))
  {
    var at := BlockOffset(|env.image|, env.pagesize, blocks[0]);
    if at == |env.image| {
      assert ReadAt(env.image, at, env.pagesize + env.margin) == [];
      assert ReadPage(env, at) == EndOfImage;
    }
  }

  class Phase1 {
    const config: Config
    const image: ProcessRaw
    var sha1g: Option<bytes>
    var hashNext: nat
    var totalBytes: nat
    var scheduled: seq<Sbuf>
    ghost var failed: seq<nat>

    ghost function View(): Progress
      reads this
    {
      Progress(sha1g, hashNext, totalBytes, scheduled, failed)
    }

    constructor (config: Config, image: ProcessRaw)
      ensures this.config == config && this.image == image
      ensures sha1g == None && hashNext == 0 && totalBytes == 0 && scheduled == [] && failed == []
    {
      this.config, this.image := config, image;
      sha1g, hashNext, totalBytes, scheduled, failed := None, 0, 0, [], [];
    }

    ghost function EnvOf(faults: set<nat>): Env
      reads image
    {
      Env(image.Image(), image.pagesize, image.margin, config, faults)
    }

    /** Hashing, counting and scheduling one page. */
    method Schedule(sbuf: Sbuf)
      requires sbuf.pagesize <= |sbuf.data|
      modifies this
      ensures View() == Scheduled(old(View()), sbuf)
    {
      if sha1g.Some? {
        if sbuf.pos == hashNext {
          sha1g := Some(sha1g.value + sbuf.data[..sbuf.pagesize]);
          hashNext := hashNext + sbuf.pagesize;
        } else {
          sha1g := None;
        }
      }
      totalBytes := totalBytes + sbuf.pagesize;
      scheduled := scheduled + [sbuf];
    }

    /** `sample` holds the chosen blocks in ascending order; `throttle` says turn by
        turn whether the queue is too long, after which it never is. */
    method ReadProcessSbufs(sample: Option<seq<nat>>, throttle: seq<bool>, faults: set<nat>)
      requires image.Valid() && image.pagesize > 0
      requires sha1g == None && hashNext == 0 && totalBytes == 0 && scheduled == [] && failed == []
      modifies this
      ensures View() == Run(EnvOf(faults), Begin(sample.Some?),
                            if sample.Some? then Sampled(config.scanStart, sample.value)
                            else Sequential(config.scanStart))
    {
      hide Run, Visit, Wanted, ReadPage, Exhausted, NextOffset, BlockOffset, PageAt, Joined, Laid, PageId, Left;
      var it := new ImageIterator.Begin(image);
      var end := new ImageIterator.End(image);
      if config.scanStart != 0 {
        it.rawOffset := config.scanStart;
      }
      ghost var env := EnvOf(faults);
      var si, waits := 0, 0;
      if sample.None? {
        sha1g := Some([]);
      }
      ghost var result := Run(env, View(), PlanAt(sample, it.rawOffset, 0));
      while it.Differs(end)
        invariant it.image == image && it.pageNumber == 0 && it.fileNumber == 0 && waits <= |throttle|
        invariant EnvOf(faults) == env && image.Valid()
        invariant end.eof && end.rawOffset == image.rawFilesize && end.pageNumber == 0 && end.fileNumber == 0
        invariant sample.Some? ==> si <= |sample.value|
        invariant if it.eof then View() == result else Run(env, View(), PlanAt(sample, it.rawOffset, si)) == result
        decreases |throttle| - waits, Left(env, PlanAt(sample, it.rawOffset, si))
      {
        ghost var here := it.rawOffset;
        if sample.Some? {
          if si == |sample.value| {
            Stops(env, View(), sample, here, si);
            break;
          }
          var block := it.SeekBlock(sample.value[si]);
          Reseek(env, View(), here, sample.value[si..]);
        }
        if config.scanEnd != 0 && config.scanEnd <= it.rawOffset {
          Stops(env, View(), sample, here, si);
          break;
        }
        if waits < |throttle| {
          waits := waits + 1;
          if throttle[waits - 1] {
            continue;
          }
        }
        Turns(env, View(), sample, here, si);
        var exhausted := VisitPage(it, faults);
        if sample.Some? {
          si := si + 1;
        }
        it.Increment();
      }
      if !it.eof {
        Stops(env, View(), sample, it.rawOffset, si);
      }
    }

    /** The body of the loop for the page the iterator is at. */
    method VisitPage(it: ImageIterator, faults: set<nat>) returns (ghost exhausted: bool)
      requires image.Valid() && it.image == image && it.pageNumber == 0
      modifies this, it`eof
      ensures View() == Visit(EnvOf(faults), old(View()), it.rawOffset)
      ensures exhausted == Exhausted(EnvOf(faults), it.rawOffset)
      ensures exhausted ==> View() == old(View())
      ensures it.eof == (old(it.eof) || exhausted)
    {
      hide PageAt;
      exhausted := Exhausted(EnvOf(faults), it.rawOffset);
      if config.pageStart <= it.pageNumber && config.scanStart <= it.rawOffset {
        if PageId(it.rawOffset) !in config.seen {
          var read := Failed;
          if !(it.rawOffset in faults && it.rawOffset < image.rawFilesize) {
            read := it.SbufAlloc();
          }
          match read {
            case Page(sbuf) =>
              assert read == ReadPage(EnvOf(faults), it.rawOffset);
              Schedule(sbuf);
            case Failed => failed := failed + [it.rawOffset];
            case EndOfImage =>
          }
        }
      }
    }
  }

  function PlanAt(sample: Option<seq<nat>>, offset: nat, si: nat): Plan {
    if sample.Some? then Sampled(offset, if si <= |sample.value| then sample.value[si..] else [])
    else Sequential(offset)
  }

  /** Where the loop reads next. */
  function Here(env: Env, sample: Option<seq<nat>>, offset: nat, si: nat): nat
    requires env.pagesize > 0 && (sample.Some? ==> si < |sample.value|)
  {
    if sample.Some? then BlockOffset(|env.image|, env.pagesize, sample.value[si]) else offset
  }

  /** The loop stops: at the end, after the last block, or at the end of the range. */
  lemma Stops(env: Env, p: Progress, sample: Option<seq<nat>>, offset: nat, si: nat)
    requires env.pagesize > 0 && (sample.Some? ==> si <= |sample.value|)
    requires || offset == |env.image| || (sample.Some? && si == |sample.value|)
             || (env.config.scanEnd != 0 && env.config.scanEnd <= Here(env, sample, offset, si))
    ensures Run(env, p, PlanAt(sample, offset, si)) == p
  {}

  /** The loop makes one more turn. */
  lemma Turns(env: Env, p: Progress, sample: Option<seq<nat>>, offset: nat, si: nat)
    requires env.pagesize > 0 && offset != |env.image| && (sample.Some? ==> si < |sample.value|)
    requires env.config.scanEnd == 0 || env.config.scanEnd > Here(env, sample, offset, si)
    ensures var at := Here(env, sample, offset, si);
      var plan := PlanAt(sample, NextOffset(|env.image|, env.pagesize, at), if sample.Some? then si + 1 else si);
      && Run(env, p, PlanAt(sample, offset, si))
         == (if Exhausted(env, at) then p else Run(env, Visit(env, p, at), plan))
      && Left(env, plan) < Left(env, PlanAt(sample, offset, si))
    ensures sample.Some? ==> forall o: nat :: Left(env, PlanAt(sample, o, si)) == Left(env, PlanAt(sample, offset, si))
  {
    hide Visit, Exhausted;
    RunOnce(env, p, PlanAt(sample, offset, si));
    if sample.Some? {
      assert sample.value[si..][1..] == sample.value[si + 1..];
    }
  }

  lemma RunOnce(env: Env, p: Progress, plan: Plan)
    requires env.pagesize > 0
    ensures var t := Target(env, plan);
      Run(env, p, plan) ==
        if t.None? || Exhausted(env, t.value) then p
        else Run(env, Visit(env, p, t.value), Onward(env, plan, t.value))
  {}
}
