/** The scan loop of `scan_json`: where documents are looked for and which regions are recorded. */
module JsonScan {
  import opened Bytes
  import opened JsonBytes
  import opened JsonTable
  import opened JsonChecker
  import opened JsonGrammar
  import opened JsonSoundness
  import JsonCompleteness

  // ---- A document ends where the checker is first done ----

  /** A dead checker stays dead. */
  lemma {:induction false} DeadStays(cfg: Config, s: bytes)
    requires cfg.Dead?
    ensures Run(cfg, s).Dead?
  {
    if s != [] {
      DeadStays(cfg, s[..|s| - 1]);
    }
  }

  /** A finished checker survives whitespace only. */
  lemma {:induction false} FinishedThenBlank(cfg: Config, s: bytes)
    requires Sound(cfg) && Finished(cfg) && Run(cfg, s).Live?
    ensures IsWs(s) && Run(cfg, s) == cfg
  {
    hide Step, ClassOf, IsBlank, Sound, Finished;
    if s != [] {
      DeadFrom(cfg, s);
      FinishedThenBlank(cfg, s[..|s| - 1]);
      OnlyBlank(cfg, s[|s| - 1]);
    }
  }

  lemma DeadFrom(cfg: Config, s: bytes)
    requires Sound(cfg) && s != [] && Run(cfg, s).Live?
    ensures Run(cfg, s[..|s| - 1]).Live? && Run(cfg, s) == Step(Run(cfg, s[..|s| - 1]), s[|s| - 1])
  {}

  lemma OnlyBlank(cfg: Config, c: byte)
    requires Finished(cfg) && Sound(cfg) && Step(cfg, c).Live?
    ensures WsByte(c) && Step(cfg, c) == cfg
  {
    assert cfg.stack[0] == DoneMode;
    hide ClassOf;
  }

  predicate IsBracket(c: byte) { c == 91 || c == 93 || c == 123 || c == 125 }

  lemma BracketsAreNotBlank()
    ensures !WsByte(93) && !WsByte(125)
    ensures IsWs([])
  {}

  lemma DocumentEnds(v: Value)
    requires IsContainer(v)
    ensures var t := ValueText(v);
            |t| >= 2 && t[0] in {91, 123} && t[|t| - 1] in {93, 125}
  {}

  /** No proper prefix of a document is accepted, and none is rejected. */
  lemma FirstDoneAtTheEnd(v: Value, k: nat)
    requires IsDocument(v) && k < |ValueText(v)|
    ensures Run(START, ValueText(v)[..k]).Live? && !Finished(Run(START, ValueText(v)[..k]))
    ensures Run(START, ValueText(v)) == Live(OK, [DoneMode], Commas(v) % TWO_TO_32)
  {
    hide Run, ValueText, Good, Depth, Step, ClassOf;
    BracketsAreNotBlank();
    var t := ValueText(v);
    JsonCompleteness.DocumentAccepted([], v, []);
    assert [] + t + [] == t;
    assert t[..k] + t[k..] == t;
    var half := Run(START, t[..k]);
    DocumentEnds(v);
    assert t[k..][|t| - 1 - k] == t[|t| - 1];
    assert !IsWs(t[k..]);
    JsonCompleteness.RunConcat(START, t[..k], t[k..]);
    if half.Dead? {
      DeadStays(half, t[k..]);
    } else if Finished(half) {
      FinishedThenBlank(half, t[k..]);
    }
  }

  // ---- The scan ----

  datatype Region = Region(start: nat, len: nat)

  /** How the inner loop over one candidate ends. */
  datatype Outcome = Broken(at: nat) | Complete(at: nat, commas: nat) | RanOff

  predicate SecondChar(c: byte) {
    48 <= c <= 57 || c in {46, 45, 123, 91, 32, 9, 10, 13, 34}
  }

  predicate Candidate(sbuf: bytes, pos: nat) {
    pos + 1 < |sbuf| && (sbuf[pos] == 123 || sbuf[pos] == 91) && SecondChar(sbuf[pos + 1])
  }

  ghost function Attempt(sbuf: bytes, pos: nat, i: nat): Outcome
    requires pos <= i <= |sbuf|
    decreases |sbuf| - i
  {
    if i == |sbuf| then RanOff
    else
      var cfg := Run(START, sbuf[pos..i + 1]);
      if cfg.Dead? then Broken(i)
      else if sbuf[i] in {93, 125} && Finished(cfg) then Complete(i, cfg.commas)
      else Attempt(sbuf, pos, i + 1)
  }

  lemma {:induction false} AttemptRange(sbuf: bytes, pos: nat, i: nat)
    requires pos <= i <= |sbuf|
    ensures var o := Attempt(sbuf, pos, i); !o.RanOff? ==> i <= o.at < |sbuf|
    decreases |sbuf| - i
  {
    if i < |sbuf| {
      AttemptRange(sbuf, pos, i + 1);
    }
  }

  /** The position from which the outer loop goes on after looking at `pos`. */
  ghost function After(sbuf: bytes, pos: nat): (next: nat)
    requires pos < |sbuf|
    ensures pos < next <= |sbuf|
  {
    AttemptRange(sbuf, pos, pos);
    if !Candidate(sbuf, pos) then pos + 1
    else
      match Attempt(sbuf, pos, pos)
      case RanOff => pos + 1
      case Broken(i) => i + 1
      case Complete(i, _) => i + 1
  }

  /** What is recorded at `pos`: texts with at least two commas. */
  ghost function Recorded(sbuf: bytes, pos: nat): seq<Region>
    requires pos < |sbuf|
  {
    AttemptRange(sbuf, pos, pos);
    if !Candidate(sbuf, pos) then []
    else
      match Attempt(sbuf, pos, pos)
      case Complete(i, commas) => if commas >= 2 then [Region(pos, i - pos + 1)] else []
      case _ => []
  }

  ghost function Regions(sbuf: bytes, pagesize: nat, pos: nat): seq<Region>
    requires pagesize <= |sbuf|
    decreases |sbuf| - pos
  {
    if pos + 1 >= pagesize then []
    else Recorded(sbuf, pos) + Regions(sbuf, pagesize, After(sbuf, pos))
  }

  /** Whether the outer loop, standing at `pos`, will look at `p`. */
  ghost predicate Visits(sbuf: bytes, pagesize: nat, pos: nat, p: nat)
    requires pagesize <= |sbuf|
    decreases |sbuf| - pos
  {
    pos + 1 < pagesize && (p == pos || Visits(sbuf, pagesize, After(sbuf, pos), p))
  }

  /** The inner loop: reads from `pos` with a fresh checker. */
  method Examine(sbuf: bytes, pos: nat) returns (outcome: Outcome)
    requires pos < |sbuf|
    ensures outcome == Attempt(sbuf, pos, pos)
  {
    hide Step, Sound;
    var jc := new JsonChecker();
    var i := pos;
    assert sbuf[pos..pos] == [];
    while i < |sbuf|
      invariant pos <= i <= |sbuf|
      invariant fresh(jc) && fresh(jc.stack) && jc.Valid()
      invariant !jc.reject && jc.View() == Run(START, sbuf[pos..i])
      invariant Attempt(sbuf, pos, pos) == Attempt(sbuf, pos, i)
    {
      var bad := jc.CheckChar(sbuf[i]);
      assert sbuf[pos..i + 1][..i - pos] == sbuf[pos..i];
      if bad != 0 {
        return Broken(i);
      }
      if sbuf[i] == 93 || sbuf[i] == 125 {
        var done := jc.CheckIfDone();
        if done {
          return Complete(i, jc.commaCount);
        }
      }
      i := i + 1;
    }
    return RanOff;
  }

  method ScanJson(sbuf: bytes, pagesize: nat) returns (regions: seq<Region>)
    requires pagesize <= |sbuf|
    ensures regions == Regions(sbuf, pagesize, 0)
  {
    hide Attempt, SecondChar;
    regions := [];
    var pos := 0;
    while pos + 1 < pagesize
      invariant pos <= |sbuf|
      invariant regions + Regions(sbuf, pagesize, pos) == Regions(sbuf, pagesize, 0)
      decreases |sbuf| - pos
    {
      ghost var before, here := regions, pos;
      if (sbuf[pos] == 123 || sbuf[pos] == 91) && SecondChar(sbuf[pos + 1]) {
        var outcome := Examine(sbuf, pos);
        AttemptRange(sbuf, pos, pos);
        match outcome {
          case Broken(i) => pos := i;
          case Complete(i, commas) =>
            if commas >= 2 {
              regions := regions + [Region(pos, i - pos + 1)];
            }
            pos := i;
          case RanOff =>
        }
      }
      pos := pos + 1;
      assert regions == before + Recorded(sbuf, here) && pos == After(sbuf, here);
      Joined(before, Recorded(sbuf, here), Regions(sbuf, pagesize, pos));
    }
  }

  lemma Joined(a: seq<Region>, b: seq<Region>, c: seq<Region>)
    ensures a + b + c == a + (b + c)
  {}

  // ---- What the recorded regions are ----

  /** Within [lo, hi], from left to right, without overlap. */
  ghost predicate InOrder(rs: seq<Region>, lo: nat, hi: nat) {
    && (forall i :: 0 <= i < |rs| ==> lo <= rs[i].start && rs[i].start + rs[i].len <= hi)
    && (forall i, j :: 0 <= i < j < |rs| ==> rs[i].start + rs[i].len <= rs[j].start)
  }

  lemma InOrderJoin(a: seq<Region>, b: seq<Region>, lo: nat, mid: nat, hi: nat)
    requires InOrder(a, lo, mid) && InOrder(b, mid, hi) && lo <= mid <= hi
    ensures InOrder(a + b, lo, hi)
  {}

  /** Regions are recorded from left to right and never overlap. */
  lemma {:induction false} RegionsAreDisjoint(sbuf: bytes, pagesize: nat, pos: nat)
    requires pagesize <= |sbuf|
    ensures InOrder(Regions(sbuf, pagesize, pos), pos, |sbuf|)
    decreases |sbuf| - pos
  {
    hide Attempt, Candidate;
    if pos + 1 < pagesize {
      RegionsAreDisjoint(sbuf, pagesize, After(sbuf, pos));
      AttemptRange(sbuf, pos, pos);
      InOrderJoin(Recorded(sbuf, pos), Regions(sbuf, pagesize, After(sbuf, pos)), pos, After(sbuf, pos), |sbuf|);
    }
  }

  lemma OuterBytes(lead: bytes, t: bytes, trail: bytes)
    requires |t| > 0
    ensures var s := lead + t + trail;
      && s[0] == (if lead == [] then t else lead)[0]
      && s[|s| - 1] == if trail == [] then t[|t| - 1] else trail[|trail| - 1]
  {}

  /** A text of the language between brackets has no whitespace around its document. */
  lemma BracketedDocument(s: bytes) returns (v: Value)
    requires InLanguage(s) && s != [] && IsBracket(s[0]) && IsBracket(s[|s| - 1])
    ensures IsDocument(v) && ValueText(v) == s && Run(START, s) == Live(OK, [DoneMode], Commas(v) % TWO_TO_32)
  {
    hide Run, ValueText, Good, Depth, ClassOf;
    var lead, doc, trail :| IsWs(lead) && IsDocument(doc) && IsWs(trail) && s == lead + ValueText(doc) + trail;
    v := doc;
    DocumentEnds(v);
    BlankIsNoBracket(s[0]);
    BlankIsNoBracket(s[|s| - 1]);
    OuterBytes(lead, ValueText(v), trail);
    assert s == ValueText(v);
    JsonCompleteness.DocumentAccepted([], v, []);
    assert [] + ValueText(v) + [] == ValueText(v);
  }

  lemma BlankIsNoBracket(c: byte)
    ensures WsByte(c) ==> !IsBracket(c)
  {}

  /** If the inner loop completes, it has read exactly a document. */
  lemma {:induction false} CompleteIsDocument(sbuf: bytes, pos: nat, i: nat)
    requires pos <= i <= |sbuf| && Attempt(sbuf, pos, i).Complete? && sbuf[pos] in {91, 123}
    ensures var at := Attempt(sbuf, pos, i).at;
      && at < |sbuf| && pos <= at
      && exists v :: IsDocument(v) && ValueText(v) == sbuf[pos..at + 1]
                     && Attempt(sbuf, pos, i).commas == Commas(v) % TWO_TO_32
    decreases |sbuf| - i
  {
    hide Run, ValueText, Good, Depth;
    var s := sbuf[pos..i + 1];
    var cfg := Run(START, s);
    if sbuf[i] in {93, 125} && Finished(cfg) {
      AcceptsExactlyTheGrammar(s);
      assert IsBracket(s[0]) && IsBracket(s[|s| - 1]);
      var v := BracketedDocument(s);
    } else {
      CompleteIsDocument(sbuf, pos, i + 1);
    }
  }

  /** If a document starts at `pos`, the inner loop completes at its last byte. */
  lemma {:induction false} DocumentCompletes(sbuf: bytes, pos: nat, v: Value, i: nat)
    requires IsDocument(v) && pos <= i < pos + |ValueText(v)| <= |sbuf|
    requires sbuf[pos..pos + |ValueText(v)|] == ValueText(v)
    ensures Attempt(sbuf, pos, i) == Complete(pos + |ValueText(v)| - 1, Commas(v) % TWO_TO_32)
    decreases |sbuf| - i
  {
    hide Run, ValueText, Good, Depth;
    var t := ValueText(v);
    assert sbuf[pos..i + 1] == t[..i + 1 - pos];
    if i + 1 - pos < |t| {
      FirstDoneAtTheEnd(v, i + 1 - pos);
      DocumentCompletes(sbuf, pos, v, i + 1);
    } else {
      DocumentEnds(v);
      FirstDoneAtTheEnd(v, 0);
      assert sbuf[i] == t[|t| - 1];
    }
  }

  /** A document with at least two commas (modulo 2^32) fills the region. */
  ghost predicate Reportable(sbuf: bytes, r: Region) {
    && r.start + r.len <= |sbuf|
    && exists v :: IsDocument(v) && ValueText(v) == sbuf[r.start..r.start + r.len] && Commas(v) % TWO_TO_32 >= 2
  }

  lemma RecordedExactly(sbuf: bytes, pos: nat, r: Region)
    requires pos < |sbuf|
    ensures r in Recorded(sbuf, pos) <==> r.start == pos && Candidate(sbuf, pos) && Reportable(sbuf, r)
  {
    hide Run, ValueText, Good, Depth, Attempt;
    AttemptRange(sbuf, pos, pos);
    if r in Recorded(sbuf, pos) {
      CompleteIsDocument(sbuf, pos, pos);
    }
    if r.start == pos && Candidate(sbuf, pos) && Reportable(sbuf, r) {
      var v :| IsDocument(v) && ValueText(v) == sbuf[r.start..r.start + r.len] && Commas(v) % TWO_TO_32 >= 2;
      DocumentEnds(v);
      DocumentCompletes(sbuf, pos, v, pos);
    }
  }

  /** A region is recorded exactly when the outer loop looks at its start, the
      second byte passes the filter, and it holds a document with two commas. */
  lemma {:induction false} RegionsExactly(sbuf: bytes, pagesize: nat, pos: nat, r: Region)
    requires pagesize <= |sbuf|
    ensures r in Regions(sbuf, pagesize, pos) <==>
            Visits(sbuf, pagesize, pos, r.start) && Candidate(sbuf, r.start) && Reportable(sbuf, r)
    decreases |sbuf| - pos
  {
    hide Attempt, Reportable;
    if pos + 1 < pagesize {
      RegionsExactly(sbuf, pagesize, After(sbuf, pos), r);
      RecordedExactly(sbuf, pos, r);
      VisitsRight(sbuf, pagesize, After(sbuf, pos), r.start);
    }
  }

  lemma {:induction false} VisitsRight(sbuf: bytes, pagesize: nat, pos: nat, p: nat)
    requires pagesize <= |sbuf|
    ensures Visits(sbuf, pagesize, pos, p) ==> pos <= p
    decreases |sbuf| - pos
  {
    hide Attempt;
    if pos + 1 < pagesize {
      VisitsRight(sbuf, pagesize, After(sbuf, pos), p);
    }
  }

  // ---- The filter on the second character ----

  /** The whitespace and the value an array begins with. */
  function FirstOf(items: Items): (bytes, Value) {
    match items case FirstItem(pre, v, _) => (pre, v) case NextItem(init, _, _, _) => FirstOf(init)
  }

  /** An array whose first value is true, false or null, directly behind the bracket. */
  predicate BeginsWithWord(v: Value) { v.Array? && FirstOf(v.items).0 == [] && FirstOf(v.items).1.Lit? }

  lemma {:induction false} ItemsStart(items: Items)
    requires GoodItems(items)
    ensures var (pre, v) := FirstOf(items);
      IsWs(pre) && Good(v) && ItemsText(items) != [] && pre + ValueText(v) != []
      && ItemsText(items)[0] == (pre + ValueText(v))[0]
    decreases items
  {
    match items
    case FirstItem(pre, v, post) => ValueStart(v);
    case NextItem(init, _, _, _) => ItemsStart(init);
  }

  lemma ValueStart(v: Value)
    requires Good(v)
    ensures ValueText(v) != [] && (SecondChar(ValueText(v)[0]) <==> !v.Lit?)
  {
    match v
    case Text(us) => assert ValueText(v)[0] == 34;
    case Num(n) => assert NumberText(n)[0] == if n.minus then 45 else n.whole[0];
    case Lit(w) =>
    case _ =>
  }

  lemma {:induction false} MembersStart(ms: Members)
    requires GoodMembers(ms)
    ensures MembersText(ms) != [] && SecondChar(MembersText(ms)[0])
    decreases ms
  {
    match ms
    case FirstMember(pre, key, mid, _, _, _) =>
      assert KeyText(pre, key, mid)[0] == if pre == [] then 34 else pre[0];
    case NextMember(init, _, _, _, _, _, _) => MembersStart(init);
  }

  /** `json_second_chars`. */
  lemma SecondCharIs(c: byte)
    ensures SecondChar(c) <==>
      || '0' as int <= c <= '9' as int || c == '.' as int || c == '-' as int || c == '{' as int || c == '[' as int
      || c == ' ' as int || c == '\t' as int || c == '\n' as int || c == '\r' as int || c == '"' as int
  {}

  /** Which documents the filter lets through: all but the empty ones and arrays that begin with a word. */
  lemma SecondCharExactly(v: Value)
    requires IsDocument(v)
    ensures |ValueText(v)| >= 2
    ensures SecondChar(ValueText(v)[1]) <==> |ValueText(v)| > 2 && !BeginsWithWord(v)
  {
    hide Depth, SecondChar;
    SecondIsNoBracket();
    match v
    case Array(items) =>
      ItemsStart(items);
      var (pre, first) := FirstOf(items);
      ValueStart(first);
      assert ValueText(v)[1] == ItemsText(items)[0];
      if pre != [] {
        BlankIsSecond(pre[0]);
      }
    case Object(ms) =>
      MembersStart(ms);
      assert ValueText(v)[1] == MembersText(ms)[0];
    case EmptyArray(ws) =>
      assert ValueText(v)[1] == if ws == [] then 93 else ws[0];
      if ws != [] {
        BlankIsSecond(ws[0]);
      }
    case EmptyObject(ws) =>
      assert ValueText(v)[1] == if ws == [] then 125 else ws[0];
      if ws != [] {
        BlankIsSecond(ws[0]);
      }
    case _ =>
  }

  lemma BlankIsSecond(c: byte)
    ensures WsByte(c) ==> SecondChar(c)
  {}

  lemma SecondIsNoBracket()
    ensures !SecondChar(93) && !SecondChar(125)
  {}

  // ---- Which positions are looked at ----

  /** Reading from `q`, the first character at which the checker rejects or has a whole document is at `i`. */
  ghost predicate StopsAt(sbuf: bytes, q: nat, i: nat) {
    && q <= i < |sbuf| && Ends(sbuf, q, i)
    && forall j :: q <= j < i ==> !Ends(sbuf, q, j)
  }

  ghost predicate Ends(sbuf: bytes, q: nat, i: nat)
    requires q <= i < |sbuf|
  {
    var cfg := Run(START, sbuf[q..i + 1]);
    cfg.Dead? || ((sbuf[i] == 93 || sbuf[i] == 125) && Finished(cfg))
  }

  lemma {:induction false} AttemptStops(sbuf: bytes, q: nat, i: nat)
    requires q <= i <= |sbuf| && forall j :: q <= j < i ==> !Ends(sbuf, q, j)
    ensures var o := Attempt(sbuf, q, i);
      if o.RanOff? then forall j :: q <= j < |sbuf| ==> !Ends(sbuf, q, j) else StopsAt(sbuf, q, o.at)
    decreases |sbuf| - i
  {
    hide Run, Finished;
    if i < |sbuf| && !Ends(sbuf, q, i) {
      AttemptStops(sbuf, q, i + 1);
    }
  }

  /** An attempt from `q` that reads `p` and comes to an end there or behind. */
  ghost predicate ReadsOver(sbuf: bytes, q: nat, p: nat) {
    Candidate(sbuf, q) && exists i :: p <= i < |sbuf| && StopsAt(sbuf, q, i)
  }

  lemma AfterIs(sbuf: bytes, pos: nat, p: nat)
    requires pos < p <= |sbuf|
    ensures pos < After(sbuf, pos) && (After(sbuf, pos) <= p <==> !ReadsOver(sbuf, pos, p))
  {
    AttemptRange(sbuf, pos, pos);
    AttemptStops(sbuf, pos, pos);
    hide Attempt, Candidate, Ends;
  }

  /** A position is looked at if and only if no attempt from a position looked at before reads over it. */
  lemma {:induction false} VisitsExactly(sbuf: bytes, pagesize: nat, pos: nat, p: nat)
    requires pos <= p && p + 1 < pagesize <= |sbuf|
    ensures Visits(sbuf, pagesize, pos, p) <==>
      forall q :: pos <= q < p && Visits(sbuf, pagesize, pos, q) ==> !ReadsOver(sbuf, q, p)
    decreases |sbuf| - pos
  {
    hide After, ReadsOver;
    if pos < p {
      AfterIs(sbuf, pos, p);
      var next := After(sbuf, pos);
      assert Visits(sbuf, pagesize, pos, pos);
      if next <= p {
        VisitsExactly(sbuf, pagesize, next, p);
        forall q | pos <= q < p
          ensures Visits(sbuf, pagesize, pos, q) <==> q == pos || Visits(sbuf, pagesize, next, q)
        {}
        forall q | Visits(sbuf, pagesize, next, q) ensures next <= q {
          VisitsRight(sbuf, pagesize, next, q);
        }
      } else if Visits(sbuf, pagesize, next, p) {
        VisitsRight(sbuf, pagesize, next, p);
      }
    }
  }

  /** A region is recorded exactly when its start is looked at and it holds a document with two
      commas that is no array beginning with a word. */
  lemma RegionsByDocument(sbuf: bytes, pagesize: nat, r: Region)
    requires pagesize <= |sbuf|
    ensures r in Regions(sbuf, pagesize, 0) <==>
      && Visits(sbuf, pagesize, 0, r.start) && r.start + r.len <= |sbuf|
      && exists v :: IsDocument(v) && ValueText(v) == sbuf[r.start..r.start + r.len]
                     && Commas(v) % TWO_TO_32 >= 2 && !BeginsWithWord(v)
  {
    hide Visits, IsDocument, ValueText, BeginsWithWord, Commas, SecondChar, Regions;
    RegionsExactly(sbuf, pagesize, 0, r);
    forall v | IsDocument(v) && r.start + r.len <= |sbuf| && ValueText(v) == sbuf[r.start..r.start + r.len]
               && Commas(v) % TWO_TO_32 >= 2
      ensures Candidate(sbuf, r.start) <==> !BeginsWithWord(v)
    {
      DocumentStarts(sbuf, r.start, v);
    }
  }

  lemma DocumentStarts(sbuf: bytes, pos: nat, v: Value)
    requires IsDocument(v) && Commas(v) % TWO_TO_32 >= 2
    requires pos + |ValueText(v)| <= |sbuf| && sbuf[pos..pos + |ValueText(v)|] == ValueText(v)
    ensures Candidate(sbuf, pos) <==> !BeginsWithWord(v)
  {
    SecondCharExactly(v);
    var t := ValueText(v);
    assert sbuf[pos] == t[0] && sbuf[pos + 1] == t[1];
    LongWithCommas(v);
    hide SecondChar, Good, Depth, BeginsWithWord;
  }

  lemma LongWithCommas(v: Value)
    requires IsDocument(v) && Commas(v) >= 1
    ensures |ValueText(v)| > 2 && (ValueText(v)[0] == 91 || ValueText(v)[0] == 123)
  {
    match v
    case Array(items) => ItemsStart(items);
    case Object(ms) => MembersStart(ms);
    case _ =>
  }

  /** An object directly behind a number that an earlier bracket leads to is passed over: it begins
      where that attempt is rejected, and the scan goes on behind that. */
  lemma ObjectIsPassedOver(sbuf: bytes, pagesize: nat)
    requires 3 < pagesize <= |sbuf| && sbuf[0] == 91 && sbuf[1] == 49 && sbuf[2] == 123
    ensures !Visits(sbuf, pagesize, 0, 2)
  {
    hide *;
    FirstLooks(sbuf, pagesize);
    EndsAtBrace(sbuf);
    ReadOver(sbuf, 0, 2);
    VisitsExactly(sbuf, pagesize, 0, 2);
  }

  lemma FirstLooks(sbuf: bytes, pagesize: nat)
    requires 1 < pagesize <= |sbuf| && sbuf[0] == 91 && sbuf[1] == 49
    ensures Visits(sbuf, pagesize, 0, 0) && Candidate(sbuf, 0)
  {}

  lemma EndsAtBrace(sbuf: bytes)
    requires |sbuf| > 2 && sbuf[0] == 91 && sbuf[1] == 49 && sbuf[2] == 123
    ensures !Ends(sbuf, 0, 0) && !Ends(sbuf, 0, 1) && Ends(sbuf, 0, 2)
  {
    hide Run, Finished;
    BracketDigitBrace();
    assert sbuf[0..0 + 1] == [91] && sbuf[0..1 + 1] == [91, 49] && sbuf[0..2 + 1] == [91, 49, 123];
  }

  lemma ReadOver(sbuf: bytes, q: nat, i: nat)
    requires Candidate(sbuf, q) && q <= i < |sbuf| && Ends(sbuf, q, i) && forall j :: q <= j < i ==> !Ends(sbuf, q, j)
    ensures ReadsOver(sbuf, q, i)
  {
    hide Candidate, Ends;
    assert StopsAt(sbuf, q, i);
  }

  lemma BracketDigitBrace()
    ensures Run(START, [91]).Live? && Run(START, [91, 49]).Live? && Run(START, [91, 49, 123]).Dead?
  {
    assert [91][..0] == [] && [91, 49][..1] == [91] && [91, 49, 123][..2] == [91, 49];
    var a := Live(AR, [DoneMode, ArrayMode], 0);
    FirstSteps();
    hide Step;
    assert Run(START, [91]) == a;
    assert Run(START, [91, 49]) == a.(state := IN);
  }

  lemma FirstSteps()
    ensures var a := Live(AR, [DoneMode, ArrayMode], 0);
      Step(START, 91) == a && Step(a, 49) == a.(state := IN) && Step(a.(state := IN), 123).Dead?
  {}
}
