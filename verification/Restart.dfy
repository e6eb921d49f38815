/**
 Crash and restart: the report log of `src/bulk_extractor_restarter.h` and
 `src/phase1.cpp` as a protocol between runs. A page's record is in the log
 before the page is scanned; a restarted run skips every page recorded.
 */
module Restart {
  import opened Bytes
  import opened Pages
  import opened Phase1
  import opened PageRuns

  // ---- Reading the log of the last run ----

  datatype XmlEvent =
    | StartElement(name: string, attrs: seq<(string, string)>)
    | EndElement(name: string)
    | CharacterData(s: string)

  const WORK_START := "debug:work_start"

  function Pos0Values(attrs: seq<(string, string)>): set<string> {
    set i | 0 <= i < |attrs| && attrs[i].0 == "pos0" :: attrs[i].1
  }

  /** The pages a report records as started. */
  function Recorded(report: seq<XmlEvent>): set<string> {
    if report == [] then {}
    else
      var e := report[|report| - 1];
      Recorded(report[..|report| - 1])
      + if e.StartElement? && e.name == WORK_START then Pos0Values(e.attrs) else {}
  }

  class Restarter {
    var cdata: string
    var thisElement: string
    var providedFilename: string
    var seenPageIds: set<string>

    constructor ()
      ensures seenPageIds == {}
    {
      cdata, thisElement, providedFilename, seenPageIds := "", "", "", {};
    }

    method OnStart(name: string, attrs: seq<(string, string)>)
      modifies this
      ensures seenPageIds == old(seenPageIds) + if name == WORK_START then Pos0Values(attrs) else {}
      ensures thisElement == name && cdata == "" && providedFilename == old(providedFilename)
    {
      cdata := "";
      thisElement := name;
      if thisElement == WORK_START {
        for i := 0 to |attrs|
          invariant seenPageIds == old(seenPageIds) + set k | 0 <= k < i && attrs[k].0 == "pos0" :: attrs[k].1
          invariant thisElement == name && cdata == "" && providedFilename == old(providedFilename)
        {
          if attrs[i].0 == "pos0" {
            seenPageIds := seenPageIds + {attrs[i].1};
          }
        }
      }
    }

    method OnEnd(name: string)
      modifies this`providedFilename, this`cdata
      ensures providedFilename == (if thisElement == "provided_filename" then old(cdata) else old(providedFilename))
      ensures cdata == ""
    {
      if thisElement == "provided_filename" {
        providedFilename := cdata;
      }
      cdata := "";
    }

    /** Collects the pages recorded in the elements read; returns how many are skipped. */
    method Restart(report: seq<XmlEvent>) returns (skippedPages: nat)
      modifies this
      ensures seenPageIds == old(seenPageIds) + Recorded(report)
      ensures skippedPages == |seenPageIds|
    {
      for i := 0 to |report|
        invariant seenPageIds == old(seenPageIds) + Recorded(report[..i])
      {
        assert report[..i + 1][..i] == report[..i];
        match report[i] {
          case StartElement(name, attrs) => OnStart(name, attrs);
          case EndElement(name) => OnEnd(name);
          case CharacterData(s) => cdata := cdata + s;
        }
      }
      assert report[..|report|] == report;
      return |seenPageIds|;
    }
  }

  /** What is written to a report: a work_start element, with attributes around its pos0, or anything else,
      such as the elements recorded when work stops. */
  datatype Line =
    | WorkStart(before: seq<(string, string)>, id: string, after: seq<(string, string)>)
    | Other(event: XmlEvent)

  predicate GoodLine(line: Line) {
    match line
    case WorkStart(before, _, after) => NoPos0(before) && NoPos0(after)
    case Other(e) => !(e.StartElement? && e.name == "debug:work_start")
  }

  predicate NoPos0(attrs: seq<(string, string)>) { forall i :: 0 <= i < |attrs| ==> attrs[i].0 != "pos0" }

  function LineEvents(line: Line): seq<XmlEvent> {
    match line
    case WorkStart(before, id, after) =>
      [StartElement("debug:work_start", before + [("pos0", id)] + after), EndElement("debug:work_start")]
    case Other(e) => [e]
  }

  function ReportOf(lines: seq<Line>): seq<XmlEvent> {
    if lines == [] then [] else ReportOf(lines[..|lines| - 1]) + LineEvents(lines[|lines| - 1])
  }

  /** The pages recorded in a report. */
  function LogOf(lines: seq<Line>): set<string> { set i | 0 <= i < |lines| && lines[i].WorkStart? :: lines[i].id }

  /** Reading a report gives back exactly the pages recorded in it, whatever else it holds. */
  lemma {:induction false} RecordedIsLog(lines: seq<Line>)
    requires forall i :: 0 <= i < |lines| ==> GoodLine(lines[i])
    ensures Recorded(ReportOf(lines)) == LogOf(lines)
  {
    if lines != [] {
      var init, last := lines[..|lines| - 1], lines[|lines| - 1];
      RecordedIsLog(init);
      RecordedLine(ReportOf(init), last);
      LogSnoc(init, last);
      assert init + [last] == lines;
    }
  }

  lemma LogSnoc(init: seq<Line>, last: Line)
    ensures LogOf(init + [last]) == LogOf(init) + if last.WorkStart? then {last.id} else {}
  {
    var lines := init + [last];
    assert forall i :: 0 <= i < |init| ==> lines[i] == init[i];
    assert lines[|init|] == last;
  }

  lemma RecordedLine(report: seq<XmlEvent>, line: Line)
    requires GoodLine(line)
    ensures Recorded(report + LineEvents(line)) == Recorded(report) + if line.WorkStart? then {line.id} else {}
  {
    match line
    case Other(e) =>
      RecordedSnoc(report, e);
    case WorkStart(before, id, after) =>
      var attrs := before + [("pos0", id)] + after;
      RecordedSnoc(report, StartElement(WORK_START, attrs));
      RecordedSnoc(report + [StartElement(WORK_START, attrs)], EndElement(WORK_START));
      assert report + LineEvents(line) == report + [StartElement(WORK_START, attrs)] + [EndElement(WORK_START)];
      assert Pos0Values(attrs) == {id} by {
        assert attrs[|before|] == ("pos0", id);
        assert forall i :: 0 <= i < |attrs| && i != |before| ==>
          attrs[i] == if i < |before| then before[i] else after[i - |before| - 1];
      }
  }

  lemma RecordedSnoc(report: seq<XmlEvent>, e: XmlEvent)
    ensures Recorded(report + [e])
         == Recorded(report) + if e.StartElement? && e.name == WORK_START then Pos0Values(e.attrs) else {}
  {
    assert (report + [e])[..|report|] == report;
  }

  // ---- The protocol ----

  /** The image and its paging, the same in every run. */
  datatype Params = Params(image: bytes, pagesize: nat, margin: nat)

  /** A process: not running; the old log parsed; writing the parsed ids into the
      new log; reading pages, with those read but not yet picked up by a worker
      in `queue`; or done, with the pages it could not read. */
  datatype Process =
    | Down
    | Parsed(seen: set<string>)
    | ReRecording(seen: set<string>, todo: set<string>)
    | Reading(seen: set<string>, pages: seq<nat>, queue: set<nat>, failed: seq<nat>)
    | Finished(failed: seq<nat>)

  /** `report` is the current log, if there is one; `history` is every page ever started, in order. */
  datatype State = State(report: Option<seq<string>>, process: Process, history: seq<nat>)

  datatype Action =
    | Launch | Parse | Archive | Record(id: string) | BeginReading(faults: set<nat>)
    | Enqueue | StartPage(page: nat) | Finish | Crash

  function EnvFor(p: Params, seen: set<string>, faults: set<nat>): Env {
    Env(p.image, p.pagesize, p.margin, Config(0, 0, 0, seen), faults)
  }

  function AllPages(p: Params): seq<nat>
    requires p.pagesize > 0
  {
    PageOffsets(|p.image|, p.pagesize, 0, 0)
  }

  predicate Paged(p: Params) { p.pagesize > 0 }

  /** The byte count with which a page is read, misread through a 32-bit `int` if it is large. */
  function PageCount(p: Params, page: nat): int {
    if page <= |p.image| then Count(|p.image|, p.pagesize, p.margin, page) else 0
  }

  /** A page that can be read if there is no read error. */
  predicate CanStart(p: Params, page: nat)
    requires Paged(p)
  {
    page in AllPages(p) && PageCount(p, page) > 0
  }

  /** No count of bytes is misread as 0, which the reader takes for the end of the image. */
  predicate NoFalseEnd(p: Params)
    requires Paged(p)
  {
    forall page :: page in AllPages(p) ==> PageCount(p, page) != 0
  }

  /** What the read loop does with the pages: those it hands on and those it cannot read. */
  function LoopResult(p: Params, seen: set<string>, faults: set<nat>): Progress
    requires Paged(p)
  {
    Run(EnvFor(p, seen, faults), Begin(false), Sequential(0))
  }

  ghost predicate Enabled(p: Params, s: State, a: Action) {
    match a
    case Launch => s.process == Down && s.report == None
    case Parse => s.process == Down && s.report.Some?
    case Archive => s.process.Parsed?
    case Record(id) => s.process.ReRecording? && id in s.process.todo && s.report.Some?
    case BeginReading(_) => s.process.ReRecording? && s.process.todo == {}
    case Enqueue => s.process.Reading? && s.process.pages != []
    case StartPage(page) => s.process.Reading? && page in s.process.queue && s.report.Some?
    case Finish => s.process.Reading? && s.process.pages == [] && s.process.queue == {}
    case Crash => s.process != Down
  }

  ghost function Do(p: Params, s: State, a: Action): State
    requires Paged(p) && Enabled(p, s, a)
  {
    match a
    case Launch => s.(report := Some([]), process := ReRecording({}, {}))
    case Parse => s.(process := Parsed(set id | id in s.report.value))
    case Archive => s.(report := Some([]), process := ReRecording(s.process.seen, s.process.seen))
    case Record(id) =>
      s.(report := Some(s.report.value + [id]), process := s.process.(todo := s.process.todo - {id}))
    case BeginReading(faults) =>
      var r := LoopResult(p, s.process.seen, faults);
      s.(process := Reading(s.process.seen, Positions(r.scheduled), {}, r.failed))
    case Enqueue =>
      s.(process := s.process.(pages := s.process.pages[1..], queue := s.process.queue + {s.process.pages[0]}))
    case StartPage(page) =>
      State(Some(s.report.value + [PageId(page)]), s.process.(queue := s.process.queue - {page}), s.history + [page])
    case Finish => s.(process := Finished(s.process.failed))
    case Crash => s.(process := Down)
  }

  const INITIAL := State(None, Down, [])

  /** The old log is archived and not all of it is in the new one yet. */
  predicate InWindow(s: State) { s.process.ReRecording? && s.process.todo != {} }

  ghost predicate Safe(s: State, a: Action) { !(a.Crash? && InWindow(s)) }

  /** The states after each action of a run, as long as every action is enabled. */
  ghost predicate Reaches(p: Params, s: State, actions: seq<Action>, t: State)
    requires Paged(p)
    decreases |actions|
  {
    if actions == [] then s == t
    else Enabled(p, s, actions[0]) && Reaches(p, Do(p, s, actions[0]), actions[1..], t)
  }

  ghost predicate ReachesSafely(p: Params, s: State, actions: seq<Action>, t: State)
    requires Paged(p)
    decreases |actions|
  {
    if actions == [] then s == t
    else
      && Enabled(p, s, actions[0]) && Safe(s, actions[0])
      && ReachesSafely(p, Do(p, s, actions[0]), actions[1..], t)
  }

  // ---- Safety over all runs ----

  /** Exactly the started pages are recorded in `ids`. */
  ghost predicate Records(ids: set<string>, history: seq<nat>) { ids == set o | o in history :: PageId(o) }

  function Ids(log: seq<string>): set<string> { set id | id in log }

  /** The part of the invariant about a process reading pages. */
  ghost predicate ReadingOk(p: Params, s: State, r: Process)
    requires r.Reading? && Paged(p)
  {
    && (forall i, j :: 0 <= i < j < |r.pages| ==> r.pages[i] != r.pages[j])
    && (forall o :: o in r.pages ==> o !in r.queue && o !in s.history && CanStart(p, o))
    && (forall o :: o in r.queue ==> o !in s.history && CanStart(p, o))
    && (NoFalseEnd(p) ==>
          forall o :: o in AllPages(p) ==> o in r.pages || o in r.queue || o in s.history || o in r.failed)
  }

  ghost predicate Inv(p: Params, s: State)
    requires Paged(p)
  {
    && NoRepeats(s.history)
    && (forall o :: o in s.history ==> CanStart(p, o))
    && match s.process
       case Down => if s.report.None? then s.history == [] else Records(Ids(s.report.value), s.history)
       case Parsed(seen) => s.report.Some? && Ids(s.report.value) == seen && Records(seen, s.history)
       case ReRecording(seen, todo) =>
         s.report.Some? && Records(seen, s.history) && seen == Ids(s.report.value) + todo && Ids(s.report.value) !! todo
       case Reading(seen, pages, queue, failed) =>
         s.report.Some? && Records(Ids(s.report.value), s.history) && ReadingOk(p, s, s.process)
       case Finished(failed) =>
         && s.report.Some? && Records(Ids(s.report.value), s.history)
         && (NoFalseEnd(p) ==> forall o :: o in AllPages(p) ==> o in s.history || o in failed)
  }

  // ---- The read loop in the protocol ----

  /** What the read loop of a run that skips the recorded pages does: the pages it hands on are new, can be
      read and are not repeated, and every other page is recorded or reported, unless a count was misread as 0. */
  lemma LoopCovers(p: Params, seen: set<string>, faults: set<nat>)
    requires Paged(p)
    ensures var r := LoopResult(p, seen, faults);
      var pages := Positions(r.scheduled);
      && NoRepeats(pages)
      && (forall o :: o in pages ==> CanStart(p, o) && PageId(o) !in seen && o !in faults)
      && ((forall o :: o in AllPages(p) ==> PageCount(p, o) != 0 || o in faults || PageId(o) in seen) ==>
            && (forall o :: o in AllPages(p) ==> o in pages || PageId(o) in seen || o in r.failed)
            && (forall o :: CanStart(p, o) && PageId(o) !in seen && o !in faults ==> o in pages))
  {
    hide Run, PageId, CanStart, Kept, Unreadable, Reached, Scans, Fails, Exhausted;
    var env := EnvFor(p, seen, faults);
    SequentialRun(env, Begin(false), 0);
    assert Positions([]) == [];
    OffsetsAscend(|p.image|, p.pagesize, 0);
    var reached := Reached(env, AllPages(p));
    ReachedAscends(env, AllPages(p));
    KeptAscends(env, reached);
    forall o ensures o in Kept(env, reached) <==> o in reached && Scans(env, o)
             ensures o in Unreadable(env, reached) <==> o in reached && Fails(env, o) {
      KeptIn(env, reached, o);
    }
    forall o | o in AllPages(p)
      ensures Scans(env, o) <==> CanStart(p, o) && PageId(o) !in seen && o !in faults
      ensures Exhausted(env, o) ==> PageCount(p, o) == 0 && o !in faults && PageId(o) !in seen
      ensures Scans(env, o) || Fails(env, o) || Exhausted(env, o) || PageId(o) in seen
    {
      PageCases(p, seen, faults, o);
    }
    if forall o :: o in AllPages(p) ==> !Exhausted(env, o) {
      forall o | o in AllPages(p) ensures o in reached {
        var j :| 0 <= j < |AllPages(p)| && AllPages(p)[j] == o;
        ReachedHas(env, AllPages(p), j);
      }
    }
    CanStartPage(p);
  }

  lemma CanStartPage(p: Params)
    requires Paged(p)
    ensures forall o :: CanStart(p, o) ==> o in AllPages(p)
  {}

  /** The four things that can happen to a page the loop comes to. */
  lemma PageCases(p: Params, seen: set<string>, faults: set<nat>, o: nat)
    requires Paged(p) && o in AllPages(p) && o < |p.image|
    ensures var env := EnvFor(p, seen, faults);
      && (Scans(env, o) <==> CanStart(p, o) && PageId(o) !in seen && o !in faults)
      && (Exhausted(env, o) <==> PageCount(p, o) == 0 && o !in faults && PageId(o) !in seen)
      && (Scans(env, o) || Fails(env, o) || Exhausted(env, o) || PageId(o) in seen)
  {
    PageRead(EnvFor(p, seen, faults), o);
    hide ReadPage, AllPages, Count, PageId;
  }

  // ---- Every safe action keeps the invariant ----

  lemma RecordsHas(ids: set<string>, history: seq<nat>, o: nat)
    requires Records(ids, history) && PageId(o) in ids
    ensures o in history
  {
    hide PageId;
    var q :| q in history && PageId(q) == PageId(o);
    PageIdInjective(o, q);
  }

  lemma InvBegin(p: Params, s: State, faults: set<nat>)
    requires Paged(p) && Inv(p, s) && Enabled(p, s, BeginReading(faults))
    ensures Inv(p, Do(p, s, BeginReading(faults)))
  {
    hide LoopResult, PageId, AllPages, Count;
    var seen := s.process.seen;
    LoopCovers(p, seen, faults);
    StartsAreInside(p);
    forall o | o in AllPages(p) && PageId(o) in seen ensures o in s.history {
      RecordsHas(seen, s.history, o);
    }
    forall o | o in s.history ensures PageId(o) in seen {}
  }

  lemma StartsAreInside(p: Params)
    requires Paged(p)
    ensures forall o :: o in AllPages(p) ==> o < |p.image|
  {
    OffsetsAscend(|p.image|, p.pagesize, 0);
  }

  lemma InvEnqueue(p: Params, s: State)
    requires Paged(p) && Inv(p, s) && Enabled(p, s, Enqueue)
    ensures Inv(p, Do(p, s, Enqueue))
  {
    hide PageId, AllPages;
    var pages := s.process.pages;
    assert forall o :: o in pages <==> o == pages[0] || o in pages[1..];
    forall o | o in pages[1..] ensures o != pages[0] {
      var i :| 0 <= i < |pages[1..]| && pages[1..][i] == o;
      assert pages[i + 1] == o;
    }
  }

  lemma InvStart(p: Params, s: State, page: nat)
    requires Paged(p) && Inv(p, s) && Enabled(p, s, StartPage(page))
    ensures Inv(p, Do(p, s, StartPage(page)))
  {
    hide PageId, AllPages;
    var t := Do(p, s, StartPage(page));
    assert forall o :: o in t.history <==> o in s.history || o == page;
    assert Ids(t.report.value) == Ids(s.report.value) + {PageId(page)} by {
      assert forall id :: id in t.report.value <==> id in s.report.value || id == PageId(page);
    }
    assert page !in s.history;
  }

  lemma InvStep(p: Params, s: State, a: Action)
    requires Paged(p) && Inv(p, s) && Enabled(p, s, a) && Safe(s, a)
    ensures Inv(p, Do(p, s, a))
  {
    hide PageId, AllPages, LoopResult;
    match a
    case BeginReading(faults) => InvBegin(p, s, faults);
    case Enqueue => InvEnqueue(p, s);
    case StartPage(page) => InvStart(p, s, page);
    case Record(id) =>
      var log := s.report.value;
      assert forall x :: x in log + [id] <==> x in log || x == id;
    case Launch =>
      assert forall x: string :: x !in [];
    case Parse =>
    case Archive =>
      assert forall x: string :: x !in [];
    case Finish =>
    case Crash =>
  }

  lemma {:induction false} InvAlways(p: Params, s: State, actions: seq<Action>, t: State)
    requires Paged(p) && Inv(p, s) && ReachesSafely(p, s, actions, t)
    ensures Inv(p, t)
    decreases |actions|
  {
    hide Inv, Do, Enabled;
    if actions != [] {
      InvStep(p, s, actions[0]);
      InvAlways(p, Do(p, s, actions[0]), actions[1..], t);
    }
  }

  /** Over any number of crashes and restarts, as long as none falls between
      archiving the log and the end of re-recording: no page is ever started
      twice, and when a run finishes every page has been started or could not be
      read in that run, if no byte count is misread as the end of the image. */
  lemma NoPageTwice(p: Params, actions: seq<Action>, t: State)
    requires Paged(p) && ReachesSafely(p, INITIAL, actions, t)
    ensures NoRepeats(t.history) && forall o :: o in t.history ==> CanStart(p, o)
    ensures t.process.Finished? && NoFalseEnd(p) ==>
      forall o :: o in AllPages(p) ==> o in t.history || o in t.process.failed
  {
    hide CanStart, NoFalseEnd;
    InvAlways(p, INITIAL, actions, t);
  }

  // ---- Building runs ----

  lemma {:induction false} SafelyReaches(p: Params, s: State, actions: seq<Action>, t: State)
    requires Paged(p) && ReachesSafely(p, s, actions, t)
    ensures Reaches(p, s, actions, t)
    decreases |actions|
  {
    hide Do, Enabled;
    if actions != [] {
      SafelyReaches(p, Do(p, s, actions[0]), actions[1..], t);
    }
  }

  lemma {:induction false} ReachesConcat(p: Params, s: State, a: seq<Action>, t: State, b: seq<Action>, u: State)
    requires Paged(p) && Reaches(p, s, a, t) && Reaches(p, t, b, u)
    ensures Reaches(p, s, a + b, u)
    decreases |a|
  {
    hide Do, Enabled;
    if a == [] {
      assert a + b == b;
    } else {
      assert (a + b)[1..] == a[1..] + b;
      ReachesConcat(p, Do(p, s, a[0]), a[1..], t, b, u);
    }
  }

  lemma {:induction false} SafelyConcat(p: Params, s: State, a: seq<Action>, t: State, b: seq<Action>, u: State)
    requires Paged(p) && ReachesSafely(p, s, a, t) && ReachesSafely(p, t, b, u)
    ensures ReachesSafely(p, s, a + b, u)
    decreases |a|
  {
    hide Do, Enabled, Safe;
    if a == [] {
      assert a + b == b;
    } else {
      assert (a + b)[1..] == a[1..] + b;
      SafelyConcat(p, Do(p, s, a[0]), a[1..], t, b, u);
    }
  }

  /** A run goes on with one more action. */
  lemma Then(p: Params, s: State, actions: seq<Action>, t: State, a: Action)
    requires Paged(p) && ReachesSafely(p, s, actions, t) && Enabled(p, t, a) && Safe(t, a)
    ensures ReachesSafely(p, s, actions + [a], Do(p, t, a))
  {
    hide Do, Enabled, Safe;
    assert [a][1..] == [];
    assert ReachesSafely(p, Do(p, t, a), [], Do(p, t, a));
    SafelyConcat(p, s, actions, t, [a], Do(p, t, a));
  }

  lemma {:induction false} RecordAll(p: Params, s: State) returns (actions: seq<Action>, t: State)
    requires Paged(p) && s.process.ReRecording? && s.report.Some?
    ensures ReachesSafely(p, s, actions, t)
    ensures t.process == ReRecording(s.process.seen, {}) && t.history == s.history && t.report.Some?
    decreases |s.process.todo|
  {
    if s.process.todo == {} {
      actions, t := [], s;
    } else {
      var id :| id in s.process.todo;
      Then(p, s, [], s, Record(id));
      var next := Do(p, s, Record(id));
      var rest;
      rest, t := RecordAll(p, next);
      SafelyConcat(p, s, [] + [Record(id)], next, rest, t);
      actions := [] + [Record(id)] + rest;
    }
  }

  lemma {:induction false} EnqueueUntil(p: Params, s: State, page: nat) returns (actions: seq<Action>, t: State)
    requires Paged(p) && s.process.Reading? && s.report.Some? && (page in s.process.pages || page in s.process.queue)
    ensures ReachesSafely(p, s, actions, t)
    ensures t.process.Reading? && page in t.process.queue && t.history == s.history && t.report == s.report
    decreases |s.process.pages|
  {
    if page in s.process.queue {
      actions, t := [], s;
    } else {
      Then(p, s, [], s, Enqueue);
      var next := Do(p, s, Enqueue);
      assert page == s.process.pages[0] || page in next.process.pages;
      var rest;
      rest, t := EnqueueUntil(p, next, page);
      SafelyConcat(p, s, [] + [Enqueue], next, rest, t);
      actions := [] + [Enqueue] + rest;
    }
  }

  /** The pages whose byte count is misread as 0. With read errors there, no run ends early. */
  function FalseEnds(p: Params): set<nat>
    requires Paged(p)
  {
    set o | o in AllPages(p) && PageCount(p, o) == 0
  }

  /** A process that is about to read and has not recorded a page that can be read may start that page. */
  lemma StartsPage(p: Params, s: State, page: nat) returns (actions: seq<Action>, t: State)
    requires Paged(p) && s.process.ReRecording? && s.process.todo == {} && s.report.Some?
    requires CanStart(p, page) && PageId(page) !in s.process.seen
    ensures ReachesSafely(p, s, actions, t) && t.process.Reading?
    ensures t.history == s.history + [page] && t.report == Some(s.report.value + [PageId(page)])
  {
    hide AllPages, PageId, LoopResult, PageCount;
    var begin := BeginReading(FalseEnds(p));
    Then(p, s, [], s, begin);
    var reading := Do(p, s, begin);
    LoopCovers(p, s.process.seen, FalseEnds(p));
    var queued, next := EnqueueUntil(p, reading, page);
    SafelyConcat(p, s, [] + [begin], reading, queued, next);
    actions := [] + [begin] + queued;
    Then(p, s, actions, next, StartPage(page));
    actions, t := actions + [StartPage(page)], Do(p, next, StartPage(page));
  }

  /** A restart from a log that does not hold a page that can be read may start that page. */
  lemma RestartStarts(p: Params, s: State, page: nat) returns (actions: seq<Action>, t: State)
    requires Paged(p) && s.process == Down && s.report.Some?
    requires CanStart(p, page) && PageId(page) !in s.report.value
    ensures ReachesSafely(p, s, actions, t) && t.history == s.history + [page]
  {
    hide CanStart, PageId;
    Then(p, s, [], s, Parse);
    var s1 := Do(p, s, Parse);
    Then(p, s, [] + [Parse], s1, Archive);
    var s2 := Do(p, s1, Archive);
    var recorded, s3 := RecordAll(p, s2);
    actions := [] + [Parse] + [Archive];
    SafelyConcat(p, s, actions, s2, recorded, s3);
    var started;
    started, t := StartsPage(p, s3, page);
    SafelyConcat(p, s, actions + recorded, s3, started, t);
    actions := actions + recorded + started;
  }

  // ---- A crash in the window ----

  ghost predicate Started(ids: set<string>, history: seq<nat>) {
    forall id :: id in ids ==> exists o :: o in history && PageId(o) == id
  }

  /** What every run keeps, whenever it crashes: ids stand for pages that were started, and those can be read. */
  ghost predicate Traced(p: Params, s: State)
    requires Paged(p)
  {
    && (forall o :: o in s.history ==> CanStart(p, o))
    && (s.report.Some? ==> Started(Ids(s.report.value), s.history))
    && match s.process
       case Parsed(seen) => s.report.Some? && Started(seen, s.history)
       case ReRecording(seen, todo) => s.report.Some? && Started(todo, s.history) && Ids(s.report.value) !! todo
       case Reading(_, pages, queue, _) =>
         s.report.Some? && (forall o :: o in pages ==> CanStart(p, o)) && forall o :: o in queue ==> CanStart(p, o)
       case _ => true
  }

  lemma TracedStart(p: Params, s: State, page: nat)
    requires Paged(p) && Traced(p, s) && Enabled(p, s, StartPage(page))
    ensures Traced(p, Do(p, s, StartPage(page)))
  {
    hide CanStart, PageId;
    var t := Do(p, s, StartPage(page));
    assert page in t.history && forall o :: o in s.history ==> o in t.history;
    forall id | id in Ids(t.report.value) ensures exists o :: o in t.history && PageId(o) == id {
      if id != PageId(page) {
        assert id in Ids(s.report.value);
      }
    }
  }

  lemma TracedStep(p: Params, s: State, a: Action)
    requires Paged(p) && Traced(p, s) && Enabled(p, s, a)
    ensures Traced(p, Do(p, s, a))
  {
    hide CanStart, PageId, LoopResult, Started;
    var t := Do(p, s, a);
    match a
    case StartPage(page) => TracedStart(p, s, page);
    case BeginReading(faults) => LoopCovers(p, s.process.seen, faults);
    case Record(id) => RecordedStarted(s, id);
    case Launch => NoneStarted(s.history);
    case Archive => NoneStarted(s.history);
    case _ =>
  }

  lemma NoneStarted(history: seq<nat>)
    ensures Started({}, history) && Ids([]) == {}
  {}

  lemma RecordedStarted(s: State, id: string)
    requires s.report.Some? && s.process.ReRecording? && id in s.process.todo
    requires Started(Ids(s.report.value), s.history) && Started(s.process.todo, s.history)
    ensures Ids(s.report.value + [id]) == Ids(s.report.value) + {id}
    ensures Started(Ids(s.report.value + [id]), s.history) && Started(s.process.todo - {id}, s.history)
  {
    hide PageId;
    var log := s.report.value;
    assert forall x :: x in log + [id] <==> x in log || x == id;
  }

  lemma {:induction false} TracedAlways(p: Params, s: State, actions: seq<Action>, t: State)
    requires Paged(p) && Traced(p, s) && Reaches(p, s, actions, t)
    ensures Traced(p, t)
    decreases |actions|
  {
    hide Traced, Do, Enabled;
    if actions != [] {
      TracedStep(p, s, actions[0]);
      TracedAlways(p, Do(p, s, actions[0]), actions[1..], t);
    }
  }

  lemma TracedInWindow(p: Params, s: State) returns (page: nat)
    requires Paged(p) && Traced(p, s) && InWindow(s)
    ensures page in s.history && CanStart(p, page) && PageId(page) !in s.report.value
  {
    hide CanStart, PageId;
    var id :| id in s.process.todo;
    page :| page in s.history && PageId(page) == id;
    assert id in Ids(s.report.value) <==> id in s.report.value;
  }

  /** From every state in the window that any run reaches, a crash can be continued
      to a state in which some page has been started twice. */
  lemma WindowCrashRepeats(p: Params, before: seq<Action>, s: State)
    requires Paged(p) && Reaches(p, INITIAL, before, s) && InWindow(s)
    ensures exists actions, t :: Reaches(p, INITIAL, before + [Crash] + actions, t) && !NoRepeats(t.history)
  {
    TracedAlways(p, INITIAL, before, s);
    var page := TracedInWindow(p, s);
    hide CanStart, PageId;
    var down := Do(p, s, Crash);
    assert [Crash][1..] == [] && Reaches(p, down, [], down) && Reaches(p, s, [Crash], down);
    ReachesConcat(p, INITIAL, before, s, [Crash], down);
    var actions, t := RestartStarts(p, down, page);
    SafelyReaches(p, down, actions, t);
    ReachesConcat(p, INITIAL, before + [Crash], down, actions, t);
    var i :| 0 <= i < |s.history| && s.history[i] == page;
    assert t.history[i] == t.history[|s.history|];
  }

  /** Safe runs do come into the window: if and only if some page of the image can be read. */
  lemma WindowIsReachable(p: Params)
    requires Paged(p)
    ensures (exists actions, s :: ReachesSafely(p, INITIAL, actions, s) && InWindow(s))
       <==> exists page :: CanStart(p, page)
  {
    hide CanStart, PageId;
    if actions, s :| ReachesSafely(p, INITIAL, actions, s) && InWindow(s) {
      SafelyReaches(p, INITIAL, actions, s);
      NoneStarted([]);
      TracedAlways(p, INITIAL, actions, s);
      var page := TracedInWindow(p, s);
    }
    if page :| CanStart(p, page) {
      var actions, s := IntoWindow(p, page);
    }
  }

  lemma IntoWindow(p: Params, page: nat) returns (actions: seq<Action>, s: State)
    requires Paged(p) && CanStart(p, page)
    ensures ReachesSafely(p, INITIAL, actions, s) && InWindow(s)
  {
    hide CanStart, PageId;
    Then(p, INITIAL, [], INITIAL, Launch);
    var launched := Do(p, INITIAL, Launch);
    var started, running := StartsPage(p, launched, page);
    SafelyConcat(p, INITIAL, [] + [Launch], launched, started, running);
    actions := [] + [Launch] + started;
    Then(p, INITIAL, actions, running, Crash);
    var down := Do(p, running, Crash);
    Then(p, INITIAL, actions + [Crash], down, Parse);
    var parsed := Do(p, down, Parse);
    Then(p, INITIAL, actions + [Crash] + [Parse], parsed, Archive);
    s := Do(p, parsed, Archive);
    actions := actions + [Crash] + [Parse] + [Archive];
    assert PageId(page) in running.report.value;
  }

  // ---- A false end of the image ----

  /** A process that reads can be brought to hand on and start all its pages. */
  lemma {:induction false} Drain(p: Params, s: State) returns (actions: seq<Action>, t: State)
    requires Paged(p) && s.process.Reading? && s.report.Some?
    ensures ReachesSafely(p, s, actions, t)
    ensures t.process == Reading(s.process.seen, [], {}, s.process.failed) && t.report.Some?
    ensures forall o :: o in t.history ==> o in s.history || o in s.process.pages || o in s.process.queue
    decreases |s.process.pages|, |s.process.queue|
  {
    hide PageId;
    var action: Action;
    if s.process.queue != {} {
      var page :| page in s.process.queue;
      action := StartPage(page);
    } else if s.process.pages != [] {
      action := Enqueue;
    } else {
      return [], s;
    }
    Then(p, s, [], s, action);
    var next := Do(p, s, action);
    var rest;
    rest, t := Drain(p, next);
    SafelyConcat(p, s, [] + [action], next, rest, t);
    actions := [] + [action] + rest;
  }

  /** Finished runs leave no page out if and only if no byte count is misread as 0. */
  lemma FinishedCovers(p: Params)
    requires Paged(p)
    ensures NoFalseEnd(p) <==>
      forall actions, t :: ReachesSafely(p, INITIAL, actions, t) && t.process.Finished? ==>
        forall o :: o in AllPages(p) ==> o in t.history || o in t.process.failed
  {
    hide CanStart, PageId, PageCount, AllPages;
    if NoFalseEnd(p) {
      forall actions, t | ReachesSafely(p, INITIAL, actions, t) && t.process.Finished?
        ensures forall o :: o in AllPages(p) ==> o in t.history || o in t.process.failed
      {
        NoPageTwice(p, actions, t);
      }
    } else {
      var o :| o in AllPages(p) && PageCount(p, o) == 0;
      var actions, t := LosesPage(p, o);
    }
  }

  lemma LosesPage(p: Params, o: nat) returns (actions: seq<Action>, t: State)
    requires Paged(p) && o in AllPages(p) && PageCount(p, o) == 0
    ensures ReachesSafely(p, INITIAL, actions, t) && t.process.Finished?
    ensures o !in t.history && o !in t.process.failed
  {
    hide PageId, LoopResult, AllPages, PageCount;
    Then(p, INITIAL, [], INITIAL, Launch);
    var launched := Do(p, INITIAL, Launch);
    Then(p, INITIAL, [] + [Launch], launched, BeginReading({}));
    var reading := Do(p, launched, BeginReading({}));
    LoopCovers(p, {}, {});
    FalseEndIsNoFailure(p, o);
    var drained, next := Drain(p, reading);
    actions := [] + [Launch] + [BeginReading({})];
    SafelyConcat(p, INITIAL, actions, reading, drained, next);
    Then(p, INITIAL, actions + drained, next, Finish);
    actions, t := actions + drained + [Finish], Do(p, next, Finish);
  }

  lemma FalseEndIsNoFailure(p: Params, o: nat)
    requires Paged(p) && o in AllPages(p) && PageCount(p, o) == 0
    ensures o !in LoopResult(p, {}, {}).failed
  {
    var env := EnvFor(p, {}, {});
    OffsetsAscend(|p.image|, p.pagesize, 0);
    PageRead(env, o);
    hide Run, ReadPage, Kept, Reached, Count, AllPages;
    SequentialRun(env, Begin(false), 0);
    KeptIn(env, Reached(env, AllPages(p)), o);
  }
}
