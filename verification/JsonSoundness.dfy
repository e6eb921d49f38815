/**
 Every accepted text belongs to the grammar. The proof keeps, beside a live
 checker, a derivation: one frame per open bracket on the mode stack and a
 cursor for the token being read, whose texts together are the input so far.
 */
module JsonSoundness {
  import opened Bytes
  import opened JsonBytes
  import opened JsonTable
  import opened JsonChecker
  import opened JsonGrammar
  import JsonCompleteness

  /** An open bracket with what has been read behind it; `pre` is the whitespace before it. */
  datatype Frame =
    | ArrayOpen(pre: bytes)
    | ArrayNext(pre: bytes, items: Items)
    | ObjectOpen(pre: bytes)
    | ObjectNext(pre: bytes, members: Members)
    | AfterColon(host: Frame, kpre: bytes, key: seq<Unit>, mid: bytes)

  datatype Cursor =
    | Gap(ws: bytes)
    | InText(pre: bytes, units: seq<Unit>, esc: bytes)
    | InNumber(pre: bytes, n: Number)
    | InWord(pre: bytes, w: Word, k: nat)
    | AfterKey(pre: bytes, key: seq<Unit>, mid: bytes)
    | AfterValue(pre: bytes, v: Value, post: bytes)

  datatype Derivation = Derivation(frames: seq<Frame>, cursor: Cursor)

  function FrameText(f: Frame): bytes {
    match f
    case ArrayOpen(pre) => pre + [91]
    case ArrayNext(pre, items) => pre + [91] + ItemsText(items) + [44]
    case ObjectOpen(pre) => pre + [123]
    case ObjectNext(pre, ms) => pre + [123] + MembersText(ms) + [44]
    case AfterColon(host, kpre, key, mid) => FrameText(host) + KeyText(kpre, key, mid)
  }

  function FramesText(fs: seq<Frame>): bytes {
    if fs == [] then [] else FramesText(fs[..|fs| - 1]) + FrameText(fs[|fs| - 1])
  }

  function CursorText(cur: Cursor): bytes {
    match cur
    case Gap(ws) => ws
    case InText(pre, units, esc) => pre + [34] + UnitsText(units) + esc
    case InNumber(pre, n) => pre + NumberText(n)
    case InWord(pre, w, k) => pre + WordText(w)[..if k <= |WordText(w)| then k else 0]
    case AfterKey(pre, key, mid) => pre + Quoted(key) + mid
    case AfterValue(pre, v, post) => pre + ValueText(v) + post
  }

  function DerivationText(d: Derivation): bytes { FramesText(d.frames) + CursorText(d.cursor) }

  function ModeOf(f: Frame): Mode {
    match f
    case ArrayOpen(_) => ArrayMode
    case ArrayNext(_, _) => ArrayMode
    case ObjectOpen(_) => KeyMode
    case ObjectNext(_, _) => KeyMode
    case AfterColon(_, _, _, _) => ObjectMode
  }

  /** The state in which the first character behind the frame is read. */
  function GapState(top: Option<Frame>): State {
    match top
    case None => GO
    case Some(f) =>
      match f
      case ArrayOpen(_) => AR
      case ArrayNext(_, _) => VA
      case ObjectOpen(_) => OB
      case ObjectNext(_, _) => KE
      case AfterColon(_, _, _, _) => VA
  }

  /** The part of a frame is well-formed and nests at most `room` deep. */
  predicate GoodFrame(f: Frame, room: int) {
    match f
    case ArrayOpen(pre) => IsWs(pre)
    case ArrayNext(pre, items) => IsWs(pre) && GoodItems(items) && ItemsDepth(items) <= room
    case ObjectOpen(pre) => IsWs(pre)
    case ObjectNext(pre, ms) => IsWs(pre) && GoodMembers(ms) && MembersDepth(ms) <= room
    case AfterColon(host, kpre, key, mid) =>
      (host.ObjectOpen? || host.ObjectNext?) && GoodFrame(host, room) && GoodKey(kpre, key, mid)
  }

  function EscapeState(esc: bytes): State {
    match |esc|
    case 0 => ST
    case 1 => ES
    case 2 => U1
    case 3 => U2
    case 4 => U3
    case _ => U4
  }

  predicate GoodEscape(esc: bytes) {
    && |esc| <= 5
    && (|esc| >= 1 ==> esc[0] == 92)
    && (|esc| >= 2 ==> esc[1] == 117 && AllHex(esc[2..]))
  }

  predicate TakesKey(top: Option<Frame>) { top.Some? && ModeOf(top.value) == KeyMode }

  predicate TakesValue(top: Option<Frame>) { top.Some? && ModeOf(top.value) != KeyMode }

  predicate GoodCursor(cur: Cursor, top: Option<Frame>, state: State, room: int) {
    match cur
    case Gap(ws) => IsWs(ws) && state == GapState(top)
    case InText(pre, units, esc) =>
      IsWs(pre) && GoodUnits(units) && GoodEscape(esc) && state == EscapeState(esc) && top.Some?
    case InNumber(pre, n) =>
      IsWs(pre) && GoodNumberPrefix(n) && state == JsonCompleteness.Stage(n) && TakesValue(top)
    case InWord(pre, w, k) =>
      IsWs(pre) && 1 <= k < |WordText(w)| && state == JsonCompleteness.WordStates(w)[k - 1] && TakesValue(top)
    case AfterKey(pre, key, mid) => GoodKey(pre, key, mid) && state == CO && TakesKey(top)
    case AfterValue(pre, v, post) =>
      && IsWs(pre) && Good(v) && IsWs(post) && state == OK && Depth(v) <= room
      && (if top.None? then IsContainer(v) else TakesValue(top))
  }

  function Top(fs: seq<Frame>): Option<Frame> { if fs == [] then None else Some(fs[|fs| - 1]) }

  ghost predicate Framed(fs: seq<Frame>, stack: seq<Mode>) {
    && |stack| == |fs| + 1
    && stack[0] == DoneMode
    && (forall i :: 0 <= i < |fs| ==> stack[i + 1] == ModeOf(fs[i]))
    && (forall i :: 0 <= i < |fs| ==> GoodFrame(fs[i], 254 - i))
    && (forall i :: 0 <= i < |fs| - 1 ==> ModeOf(fs[i]) != KeyMode)
  }

  /** The derivation describes the live checker. */
  ghost predicate Describes(d: Derivation, cfg: Config) {
    && Sound(cfg) && cfg.Live?
    && Framed(d.frames, cfg.stack)
    && GoodCursor(d.cursor, Top(d.frames), cfg.state, 255 - |d.frames|)
  }

  // ---- Moves inside a token ----

  lemma WsSnoc(ws: bytes, c: byte)
    requires IsWs(ws) && WsByte(c)
    ensures IsWs(ws + [c])
  {}

  lemma UnitsSnoc(us: seq<Unit>, u: Unit)
    requires GoodUnits(us) && GoodUnit(u)
    ensures GoodUnits(us + [u]) && UnitsText(us + [u]) == UnitsText(us) + UnitText(u)
  {
    assert (us + [u])[..|us + [u]| - 1] == us;
  }

  /** Which characters each row of a string lets through, and where they lead. */
  lemma TextRows(c: byte)
    ensures !ClassOf(c).Illegal? && Transition(ST, ClassOf(c)).Goto? ==>
              if c == 92 then Transition(ST, ClassOf(c)) == Goto(ES)
              else GoodUnit(Plain(c)) && Transition(ST, ClassOf(c)) == Goto(ST)
    ensures Transition(ES, ClassOf(c)).Goto? ==>
              if c == 117 then Transition(ES, ClassOf(c)) == Goto(U1)
              else GoodUnit(Escape(c)) && Transition(ES, ClassOf(c)) == Goto(ST)
  {}

  lemma HexRows(c: byte, s: State)
    requires s in {U1, U2, U3, U4} && Transition(s, ClassOf(c)).Goto?
    ensures HexByte(c)
    ensures Transition(s, ClassOf(c)).next == match s case U1 => U2 case U2 => U3 case U3 => U4 case _ => ST
  {
    ClassesAgree(c);
    hide ClassOf;
  }

  lemma HexSnoc(s: bytes, c: byte)
    requires AllHex(s) && HexByte(c)
    ensures AllHex(s + [c])
  {
    hide ClassOf, IsHex;
  }

  lemma Assoc(a: bytes, b: bytes, c: bytes)
    ensures a + b + c == a + (b + c)
  {}

  /** The escape under way, completed by `c`, is the unit `u`. */
  lemma CompleteUnit(pre: bytes, units: seq<Unit>, esc: bytes, c: byte, u: Unit) returns (next: Cursor)
    requires IsWs(pre) && GoodUnits(units) && GoodUnit(u) && esc + [c] == UnitText(u)
    ensures next == InText(pre, units + [u], []) && GoodUnits(units + [u])
    ensures CursorText(next) == CursorText(InText(pre, units, esc)) + [c]
  {
    hide ClassOf, GoodUnit, UnitText, UnitsText, IsWs, GoodUnits;
    next := InText(pre, units + [u], []);
    UnitsSnoc(units, u);
    Assoc(pre + [34], UnitsText(units), UnitText(u));
    Assoc(pre + [34] + UnitsText(units), esc, [c]);
  }

  /** A character inside a string that is not the closing quote. */
  lemma AdvanceText(cur: Cursor, top: Option<Frame>, state: State, room: int, c: byte) returns (next: Cursor)
    requires cur.InText? && GoodCursor(cur, top, state, room)
    requires !ClassOf(c).Illegal? && Transition(state, ClassOf(c)).Goto?
    ensures GoodCursor(next, top, Transition(state, ClassOf(c)).next, room)
    ensures CursorText(next) == CursorText(cur) + [c]
  {
    hide ClassOf, Transition, GoodUnit, UnitsText, IsWs, AllHex, GoodUnits, Good;
    var InText(pre, units, esc) := cur;
    TextRows(c);
    if |esc| == 0 && c != 92 {
      next := CompleteUnit(pre, units, esc, c, Plain(c));
    } else if |esc| == 1 && c != 117 {
      next := CompleteUnit(pre, units, esc, c, Escape(c));
    } else if |esc| == 5 {
      HexRows(c, state);
      HexSnoc(esc[2..], c);
      GoodUnicode(esc[2..] + [c]);
      assert esc + [c] == [92, 117] + (esc[2..] + [c]);
      next := CompleteUnit(pre, units, esc, c, Unicode(esc[2..] + [c]));
    } else {
      next := InText(pre, units, esc + [c]);
      Assoc(pre + [34] + UnitsText(units), esc, [c]);
      if |esc| >= 2 {
        HexRows(c, state);
        HexSnoc(esc[2..], c);
        assert (esc + [c])[2..] == esc[2..] + [c];
      } else if |esc| == 1 {
        AllHexNone();
        assert (esc + [c])[2..] == [];
      }
    }
  }

  lemma AllHexNone()
    ensures AllHex([])
  {}

  lemma GoodUnicode(hex: bytes)
    requires |hex| == 4 && AllHex(hex)
    ensures GoodUnit(Unicode(hex))
  {}

  /** The closing quote ends a key or a string value. */
  lemma EndText(cur: Cursor, top: Option<Frame>, state: State, room: int) returns (next: Cursor)
    requires cur.InText? && GoodCursor(cur, top, state, room) && Transition(state, Quote).EndString? && room >= 0
    ensures GoodCursor(next, top, if TakesKey(top) then CO else OK, room)
    ensures CursorText(next) == CursorText(cur) + [34]
  {
    hide ClassOf, UnitsText, GoodUnits;
    var InText(pre, units, esc) := cur;
    assert |esc| == 0;
    assert esc == [];
    next := if TakesKey(top) then AfterKey(pre, units, []) else AfterValue(pre, Text(units), []);
    assert pre + ([34] + UnitsText(units) + [34]) == pre + [34] + UnitsText(units) + [34];
  }

  lemma WordRows(w: Word, k: nat, c: byte)
    requires 1 <= k < |WordText(w)|
    requires !Transition(JsonCompleteness.WordStates(w)[k - 1], ClassOf(c)).Bad?
    ensures c == WordText(w)[k]
    ensures Transition(JsonCompleteness.WordStates(w)[k - 1], ClassOf(c)) == Goto(JsonCompleteness.WordStates(w)[k])
  {
    hide ClassOf;
    Letters(c);
  }

  lemma Letters(c: byte)
    ensures ClassOf(c).LowA? <==> c == 97
    ensures ClassOf(c).LowE? <==> c == 101
    ensures ClassOf(c).LowL? <==> c == 108
    ensures ClassOf(c).LowR? <==> c == 114
    ensures ClassOf(c).LowS? <==> c == 115
    ensures ClassOf(c).LowU? <==> c == 117
  {}

  lemma AdvanceWord(cur: Cursor, top: Option<Frame>, state: State, room: int, c: byte) returns (next: Cursor)
    requires cur.InWord? && GoodCursor(cur, top, state, room) && room >= 0
    requires !Transition(state, ClassOf(c)).Bad?
    ensures Transition(state, ClassOf(c)).Goto?
    ensures GoodCursor(next, top, Transition(state, ClassOf(c)).next, room)
    ensures CursorText(next) == CursorText(cur) + [c]
  {
    hide ClassOf, Transition, IsWs, WordText, JsonCompleteness.WordStates;
    var InWord(pre, w, k) := cur;
    var t := WordText(w);
    WordRows(w, k, c);
    WordOver(w, pre);
    assert t[..k + 1] == t[..k] + [c];
    Assoc(pre, t[..k], [c]);
    if k + 1 < |t| {
      next := InWord(pre, w, k + 1);
    } else {
      assert t[..k + 1] == t;
      next := AfterValue(pre, Lit(w), []);
    }
  }

  lemma WordOver(w: Word, pre: bytes)
    ensures var states := JsonCompleteness.WordStates(w); |states| == |WordText(w)| && states[|states| - 1] == OK
    ensures IsWs([]) && CursorText(AfterValue(pre, Lit(w), [])) == pre + WordText(w)
  {}

  lemma DigitsSnoc(s: bytes, c: byte)
    requires AllDigits(s) && DigitByte(c)
    ensures AllDigits(s + [c])
  {}

  /** The number with one more character. */
  function Longer(n: Number, c: byte): Number {
    match JsonCompleteness.Stage(n)
    case MI => n.(whole := [c])
    case ZE => n.(frac := Some([]))
    case IN =>
      if c == 46 then n.(frac := Some([]))
      else if DigitByte(c) then n.(whole := n.whole + [c])
      else n.(exp := Some(Exponent(c, None, [])))
    case FR =>
      if n.frac.Some? && DigitByte(c) then n.(frac := Some(n.frac.value + [c]))
      else n.(exp := Some(Exponent(c, None, [])))
    case _ =>
      if n.exp.None? then n
      else if DigitByte(c) then n.(exp := Some(n.exp.value.(digits := n.exp.value.digits + [c])))
      else n.(exp := Some(n.exp.value.(sign := Some(c))))
  }

  ghost predicate IsNumberState(s: State) { s in {MI, ZE, IN, FR, E1, E2, E3} }

  lemma LongerGood(n: Number, c: byte)
    requires GoodNumberPrefix(n)
    requires Transition(JsonCompleteness.Stage(n), ClassOf(c)).Goto?
    requires IsNumberState(Transition(JsonCompleteness.Stage(n), ClassOf(c)).next)
    ensures GoodNumberPrefix(Longer(n, c))
    ensures JsonCompleteness.Stage(Longer(n, c)) == Transition(JsonCompleteness.Stage(n), ClassOf(c)).next
  {
    hide ClassOf, Transition, AllDigits;
    NumberRows(JsonCompleteness.Stage(n), c);
    NoDigits();
    if DigitByte(c) {
      DigitsSnoc(n.whole, c);
      DigitsSnoc([], c);
      assert [] + [c] == [c];
      if n.frac.Some? {
        DigitsSnoc(n.frac.value, c);
      }
      if n.exp.Some? {
        DigitsSnoc(n.exp.value.digits, c);
      }
    }
  }

  lemma NoDigits()
    ensures AllDigits([])
  {}

  /** The rows of the number states. */
  lemma NumberRows(s: State, c: byte)
    requires IsNumberState(s) && Transition(s, ClassOf(c)).Goto? && IsNumberState(Transition(s, ClassOf(c)).next)
    ensures DigitByte(c) <==> 48 <= c <= 57
    ensures Transition(s, ClassOf(c)).next ==
            if 48 <= c <= 57 then
              match s case MI => if c == 48 then ZE else IN case E1 => E3 case E2 => E3 case _ => s
            else if c == 46 then FR
            else if c in {43, 45} then E2
            else E1
    ensures 48 <= c <= 57 ==> s != ZE
    ensures !(48 <= c <= 57) ==>
              || (s in {ZE, IN} && c == 46)
              || (s == E1 && c in {43, 45})
              || (s in {IN, FR} && c in {69, 101})
  {}

  lemma LongerText(n: Number, c: byte)
    requires n.whole == [] ==> n.frac.None? && n.exp.None?
    requires Transition(JsonCompleteness.Stage(n), ClassOf(c)).Goto?
    requires IsNumberState(Transition(JsonCompleteness.Stage(n), ClassOf(c)).next)
    ensures NumberText(Longer(n, c)) == NumberText(n) + [c]
  {
    hide ClassOf, Transition;
    NumberRows(JsonCompleteness.Stage(n), c);
    var sign: bytes := if n.minus then [45] else [];
    var frac: bytes := if n.frac.Some? then [46] + n.frac.value else [];
    if n.exp.Some? {
      LongerExponent(n, c);
      Assoc(sign + n.whole + frac, ExponentText(n.exp.value), [c]);
    } else if Longer(n, c).exp.Some? {
      hide JsonCompleteness.Stage;
      assert ExponentText(Longer(n, c).exp.value) == [c];
    } else if n.frac.Some? {
      Assoc(sign + n.whole, frac, [c]);
      Assoc([46], n.frac.value, [c]);
    } else {
      Assoc(sign, n.whole, [c]);
    }
  }

  lemma LongerExponent(n: Number, c: byte)
    requires n.exp.Some?
    requires Transition(JsonCompleteness.Stage(n), ClassOf(c)).Goto?
    requires IsNumberState(Transition(JsonCompleteness.Stage(n), ClassOf(c)).next)
    ensures Longer(n, c).exp.Some? && Longer(n, c) == n.(exp := Longer(n, c).exp)
    ensures ExponentText(Longer(n, c).exp.value) == ExponentText(n.exp.value) + [c]
  {
    hide ClassOf, Transition;
    NumberRows(JsonCompleteness.Stage(n), c);
    var e := n.exp.value;
    Assoc([e.mark] + (if e.sign.Some? then [e.sign.value] else []), e.digits, [c]);
  }

  /** How a value begins: the first character of a token, or whitespace. */
  lemma GapRows(top: Option<Frame>, c: byte)
    requires !ClassOf(c).Illegal? && Transition(GapState(top), ClassOf(c)).Goto?
    ensures
      var next := Transition(GapState(top), ClassOf(c)).next;
      if WsByte(c) then next == GapState(top)
      else if c == 34 then next == ST && top.Some?
      else
        && TakesValue(top)
        && (48 <= c <= 57 ==> DigitByte(c))
        && (if c == 45 then next == MI
            else if 48 <= c <= 57 then next == if c == 48 then ZE else IN
            else (c == 116 && next == T1) || (c == 102 && next == F1) || (c == 110 && next == N1))
  {}

  /** A character in a gap that starts a token or is whitespace. */
  lemma AdvanceGap(cur: Cursor, top: Option<Frame>, state: State, room: int, c: byte) returns (next: Cursor)
    requires cur.Gap? && GoodCursor(cur, top, state, room)
    requires !ClassOf(c).Illegal? && Transition(state, ClassOf(c)).Goto?
    ensures GoodCursor(next, top, Transition(state, ClassOf(c)).next, room)
    ensures CursorText(next) == CursorText(cur) + [c]
  {
    hide ClassOf, Transition, GapState, Good;
    var ws := cur.ws;
    GapRows(top, c);
    if WsByte(c) {
      WsSnoc(ws, c);
      next := Gap(ws + [c]);
    } else if c == 34 {
      next := InText(ws, [], []);
    } else if c == 45 {
      NoDigits();
      next := InNumber(ws, Number(true, [], None, None));
    } else if 48 <= c <= 57 {
      assert [c][0] == c && (c == 48 ==> [c] == [48]);
      next := InNumber(ws, Number(false, [c], None, None));
    } else {
      var w := if c == 116 then True else if c == 102 then False else Null;
      assert WordText(w)[..1] == [c];
      next := InWord(ws, w, 1);
    }
  }

  // ---- Moves on the stack of frames ----

  function PreOf(f: Frame): bytes {
    match f
    case AfterColon(host, _, _, _) => if host.AfterColon? then [] else host.pre
    case _ => f.pre
  }

  function AddItem(f: Frame, pre: bytes, v: Value, post: bytes): Items {
    if f.ArrayNext? then NextItem(f.items, pre, v, post) else FirstItem(pre, v, post)
  }

  function AddMember(f: Frame, gap: bytes, v: Value, post: bytes): Members
    requires f.AfterColon?
  {
    if f.host.ObjectNext? then NextMember(f.host.members, f.kpre, f.key, f.mid, gap, v, post)
    else FirstMember(f.kpre, f.key, f.mid, gap, v, post)
  }

  lemma AddItemGood(f: Frame, cur: Cursor, room: int)
    requires ModeOf(f) == ArrayMode && GoodFrame(f, room) && cur.AfterValue? && GoodCursor(cur, Some(f), OK, room)
    ensures var items := AddItem(f, cur.pre, cur.v, cur.post);
            && GoodItems(items) && ItemsDepth(items) <= room && IsWs(PreOf(f))
            && FrameText(f) + CursorText(cur) == PreOf(f) + [91] + ItemsText(items)
  {
    hide IsWs, ValueText, Good, Depth;
    if f.ArrayNext? {
      Assoc(f.pre + [91] + ItemsText(f.items), [44], CursorText(cur));
      Assoc(f.pre + [91], ItemsText(f.items), [44] + CursorText(cur));
      Assoc(ItemsText(f.items), [44], CursorText(cur));
    }
  }

  lemma AddMemberGood(f: Frame, cur: Cursor, room: int)
    requires f.AfterColon? && GoodFrame(f, room) && cur.AfterValue? && GoodCursor(cur, Some(f), OK, room)
    ensures var ms := AddMember(f, cur.pre, cur.v, cur.post);
            && GoodMembers(ms) && MembersDepth(ms) <= room && IsWs(PreOf(f))
            && FrameText(f) + CursorText(cur) == PreOf(f) + [123] + MembersText(ms)
  {
    hide IsWs, ValueText, Good, Depth, KeyText;
    var key := KeyText(f.kpre, f.key, f.mid);
    var tail := key + CursorText(cur);
    Assoc(FrameText(f.host), key, CursorText(cur));
    if f.host.ObjectNext? {
      var ms := f.host.members;
      Assoc(f.host.pre + [123] + MembersText(ms), [44], tail);
      Assoc(f.host.pre + [123], MembersText(ms), [44] + tail);
      Assoc(MembersText(ms), [44], tail);
    }
  }

  lemma FramesSnoc(fs: seq<Frame>, f: Frame)
    ensures FramesText(fs + [f]) == FramesText(fs) + FrameText(f)
  {
    assert (fs + [f])[..|fs + [f]| - 1] == fs;
  }

  /** The frames below the innermost one, and the innermost one. */
  lemma SplitFrames(d: Derivation, cfg: Config) returns (below: seq<Frame>, f: Frame, st: seq<Mode>)
    requires Describes(d, cfg) && d.frames != []
    ensures d.frames == below + [f] && cfg.stack == st + [ModeOf(f)] && Framed(below, st)
    ensures GoodFrame(f, 254 - |below|) && |below| <= 254
    ensures below != [] ==> TakesValue(Top(below))
    ensures DerivationText(d) == FramesText(below) + (FrameText(f) + CursorText(d.cursor))
  {
    hide GoodFrame, GoodCursor, FrameText, CursorText;
    var n := |d.frames| - 1;
    below, f, st := d.frames[..n], d.frames[n], cfg.stack[..n + 1];
    FramesSnoc(below, f);
    Assoc(FramesText(below), FrameText(f), CursorText(d.cursor));
    assert d.frames == below + [f] && cfg.stack == st + [cfg.stack[n + 1]];
  }

  /** Putting a frame on top again. */
  lemma JoinFrames(below: seq<Frame>, f: Frame, st: seq<Mode>)
    requires Framed(below, st) && GoodFrame(f, 254 - |below|)
    requires below != [] ==> TakesValue(Top(below))
    ensures Framed(below + [f], st + [ModeOf(f)]) && Top(below + [f]) == Some(f)
    ensures FramesText(below + [f]) == FramesText(below) + FrameText(f)
  {
    hide GoodFrame, FrameText, ModeOf, FramesText;
    FramesSnoc(below, f);
    var fs, stack := below + [f], st + [ModeOf(f)];
    assert below != [] ==> Top(below) == Some(below[|below| - 1]);
    forall i | 0 <= i < |fs| ensures stack[i + 1] == ModeOf(fs[i]) && GoodFrame(fs[i], 254 - i) {
      if i < |below| {
        assert fs[i] == below[i] && stack[i + 1] == st[i + 1];
      }
    }
    forall i | 0 <= i < |fs| - 1 ensures ModeOf(fs[i]) != KeyMode {
      assert fs[i] == below[i];
    }
  }

  lemma WsNone()
    ensures IsWs([])
  {}

  /** The innermost bracket closes: the container becomes a finished value. */
  lemma Closed(d: Derivation, cfg: Config, below: seq<Frame>, st: seq<Mode>, pre: bytes, v: Value, c: byte,
               after: Config)
      returns (next: Derivation)
    requires Describes(d, cfg) && Framed(below, st) && (below != [] ==> TakesValue(Top(below)))
    requires Sound(after) && after.Live? && after.stack == st && after.state == OK
    requires IsWs(pre) && IsContainer(v) && Good(v) && Depth(v) <= 255 - |below|
    requires DerivationText(d) + [c] == FramesText(below) + (pre + ValueText(v))
    ensures Describes(next, after) && DerivationText(next) == DerivationText(d) + [c]
  {
    hide Good, Depth, IsWs, ValueText, FramesText, GoodFrame;
    WsNone();
    next := Derivation(below, AfterValue(pre, v, []));
    assert pre + ValueText(v) + [] == pre + ValueText(v);
  }

  lemma AdvanceBegin(d: Derivation, cfg: Config, c: byte) returns (next: Derivation)
    requires Describes(d, cfg) && d.cursor.Gap? && c in {91, 123} && Step(cfg, c).Live?
    requires Transition(cfg.state, ClassOf(c)) == if c == 91 then BeginArray else BeginObject
    ensures Describes(next, Step(cfg, c)) && DerivationText(next) == DerivationText(d) + [c]
  {
    hide Transition, FramesText;
    StepSound(cfg, c);
    var ws := d.cursor.ws;
    var f := if c == 91 then ArrayOpen(ws) else ObjectOpen(ws);
    assert d.frames != [] ==> TakesValue(Top(d.frames)) by {
      BeginRows(Top(d.frames), c);
    }
    JoinFrames(d.frames, f, cfg.stack);
    WsNone();
    next := Derivation(d.frames + [f], Gap([]));
    Assoc(FramesText(d.frames), ws, [c]);
  }

  lemma BeginRows(top: Option<Frame>, c: byte)
    requires Transition(GapState(top), ClassOf(c)) in {BeginArray, BeginObject}
    ensures top.Some? ==> TakesValue(top)
  {}

  /** Closing an empty pair of brackets. */
  lemma AdvanceEndEmpty(d: Derivation, cfg: Config, c: byte) returns (next: Derivation)
    requires Describes(d, cfg) && d.cursor.Gap? && Step(cfg, c).Live?
    requires (cfg.state == AR && c == 93) || (cfg.state == OB && c == 125)
    ensures Describes(next, Step(cfg, c)) && DerivationText(next) == DerivationText(d) + [c]
  {
    hide FramesText, ClassOf, Transition;
    StepSound(cfg, c);
    EmptyRows(cfg.state, c);
    var below, f, st := SplitFrames(d, cfg);
    var ws := d.cursor.ws;
    var v := if c == 93 then EmptyArray(ws) else EmptyObject(ws);
    Assoc(FramesText(below), FrameText(f) + ws, [c]);
    assert FrameText(f) + ws + [c] == f.pre + ValueText(v);
    next := Closed(d, cfg, below, st, f.pre, v, c, Step(cfg, c));
  }

  lemma EmptyRows(s: State, c: byte)
    ensures s == AR && c == 93 ==> Transition(s, ClassOf(c)) == EndArray
    ensures s == OB && c == 125 ==> Transition(s, ClassOf(c)) == EndEmptyObject
  {}

  /** Closing an array after its last item. */
  lemma AdvanceEndArray(d: Derivation, cfg: Config) returns (next: Derivation)
    requires Describes(d, cfg) && d.cursor.AfterValue? && Step(cfg, 93).Live?
    ensures Describes(next, Step(cfg, 93)) && DerivationText(next) == DerivationText(d) + [93]
  {
    hide FramesText, FrameText, CursorText, ItemsText;
    StepSound(cfg, 93);
    var below, f, st := SplitFrames(d, cfg);
    AddItemGood(f, d.cursor, 254 - |below|);
    var items := AddItem(f, d.cursor.pre, d.cursor.v, d.cursor.post);
    Assoc(FramesText(below), FrameText(f) + CursorText(d.cursor), [93]);
    Assoc(PreOf(f), [91] + ItemsText(items), [93]);
    Assoc(PreOf(f), [91], ItemsText(items));
    next := Closed(d, cfg, below, st, PreOf(f), Array(items), 93, Step(cfg, 93));
  }

  /** Closing an object after its last member. */
  lemma AdvanceEndObject(d: Derivation, cfg: Config) returns (next: Derivation)
    requires Describes(d, cfg) && d.cursor.AfterValue? && Step(cfg, 125).Live?
    ensures Describes(next, Step(cfg, 125)) && DerivationText(next) == DerivationText(d) + [125]
  {
    hide FramesText, FrameText, CursorText, MembersText;
    StepSound(cfg, 125);
    var below, f, st := SplitFrames(d, cfg);
    AddMemberGood(f, d.cursor, 254 - |below|);
    var ms := AddMember(f, d.cursor.pre, d.cursor.v, d.cursor.post);
    Assoc(FramesText(below), FrameText(f) + CursorText(d.cursor), [125]);
    Assoc(PreOf(f), [123] + MembersText(ms), [125]);
    Assoc(PreOf(f), [123], MembersText(ms));
    next := Closed(d, cfg, below, st, PreOf(f), Object(ms), 125, Step(cfg, 125));
  }

  /** The innermost frame is replaced by one that ends in the character just read. */
  lemma Reframed(d: Derivation, cfg: Config, below: seq<Frame>, st: seq<Mode>, f: Frame, c: byte, after: Config)
      returns (next: Derivation)
    requires Framed(below, st) && (below != [] ==> TakesValue(Top(below)))
    requires GoodFrame(f, 254 - |below|)
    requires Sound(after) && after.Live? && after.stack == st + [ModeOf(f)] && after.state == GapState(Some(f))
    requires DerivationText(d) + [c] == FramesText(below) + FrameText(f)
    ensures Describes(next, after) && DerivationText(next) == DerivationText(d) + [c]
  {
    hide FramesText, GoodFrame, FrameText, CursorText;
    WsNone();
    JoinFrames(below, f, st);
    next := Derivation(below + [f], Gap([]));
    assert CursorText(Gap([])) == [] by { GapText([]); }
    assert FramesText(below) + FrameText(f) + [] == FramesText(below) + FrameText(f);
  }

  lemma GapText(ws: bytes)
    ensures CursorText(Gap(ws)) == ws
  {}

  /** A separator after a finished value. */
  lemma AdvanceComma(d: Derivation, cfg: Config) returns (next: Derivation)
    requires Describes(d, cfg) && d.cursor.AfterValue? && Step(cfg, 44).Live?
    ensures Describes(next, Step(cfg, 44)) && DerivationText(next) == DerivationText(d) + [44]
  {
    hide FramesText;
    StepSound(cfg, 44);
    assert d.frames != [];
    var below, f, st := SplitFrames(d, cfg);
    Assoc(FramesText(below), FrameText(f) + CursorText(d.cursor), [44]);
    if ModeOf(f) == ArrayMode {
      AddItemGood(f, d.cursor, 254 - |below|);
      var g := ArrayNext(PreOf(f), AddItem(f, d.cursor.pre, d.cursor.v, d.cursor.post));
      next := Reframed(d, cfg, below, st, g, 44, Step(cfg, 44));
    } else {
      AddMemberGood(f, d.cursor, 254 - |below|);
      var g := ObjectNext(PreOf(f), AddMember(f, d.cursor.pre, d.cursor.v, d.cursor.post));
      next := Reframed(d, cfg, below, st, g, 44, Step(cfg, 44));
    }
  }

  /** The colon turns a key frame into a value frame. */
  lemma AdvanceColon(d: Derivation, cfg: Config) returns (next: Derivation)
    requires Describes(d, cfg) && d.cursor.AfterKey? && Step(cfg, 58).Live?
    ensures Describes(next, Step(cfg, 58)) && DerivationText(next) == DerivationText(d) + [58]
  {
    hide FramesText, Quoted;
    StepSound(cfg, 58);
    var below, f, st := SplitFrames(d, cfg);
    var AfterKey(pre, key, mid) := d.cursor;
    Assoc(FramesText(below), FrameText(f) + CursorText(d.cursor), [58]);
    Assoc(FrameText(f), CursorText(d.cursor), [58]);
    next := Reframed(d, cfg, below, st, AfterColon(f, pre, key, mid), 58, Step(cfg, 58));
  }

  /** A number that may end here, followed by a character that ends it. */
  lemma NumberEnds(cur: Cursor, top: Option<Frame>, state: State, room: int, c: byte)
    requires cur.InNumber? && GoodCursor(cur, top, state, room) && room >= 0
    requires Transition(state, ClassOf(c)) != Bad
    requires Transition(state, ClassOf(c)).Goto? ==> !IsNumberState(Transition(state, ClassOf(c)).next)
    ensures GoodCursor(AfterValue(cur.pre, Num(cur.n), []), top, OK, room)
    ensures CursorText(AfterValue(cur.pre, Num(cur.n), [])) == CursorText(cur)
    ensures Transition(OK, ClassOf(c)) == Transition(state, ClassOf(c))
  {
    hide ClassOf, NumberText;
    WsNone();
    assert state in {ZE, IN, FR, E3};
    assert GoodNumber(cur.n);
  }

  /** A character that neither opens nor closes a bracket nor separates. */
  lemma AdvanceCursor(cur: Cursor, top: Option<Frame>, state: State, room: int, c: byte) returns (next: Cursor)
    requires GoodCursor(cur, top, state, room) && room >= 0 && !ClassOf(c).Illegal?
    requires Transition(state, ClassOf(c)).Goto?
    ensures GoodCursor(next, top, Transition(state, ClassOf(c)).next, room)
    ensures CursorText(next) == CursorText(cur) + [c]
  {
    match cur
    case Gap(_) => next := AdvanceGap(cur, top, state, room, c);
    case InText(_, _, _) => next := AdvanceText(cur, top, state, room, c);
    case InWord(_, _, _) => next := AdvanceWord(cur, top, state, room, c);
    case InNumber(pre, n) =>
      hide ClassOf, NumberText, Transition;
      if IsNumberState(Transition(state, ClassOf(c)).next) {
        LongerGood(n, c);
        LongerText(n, c);
        Assoc(pre, NumberText(n), [c]);
        next := InNumber(pre, Longer(n, c));
      } else {
        NumberEnds(cur, top, state, room, c);
        next := AdvanceBlank(AfterValue(pre, Num(n), []), top, OK, room, c);
      }
    case _ => next := AdvanceBlank(cur, top, state, room, c);
  }

  /** Whitespace after a key or a value. */
  lemma AdvanceBlank(cur: Cursor, top: Option<Frame>, state: State, room: int, c: byte) returns (next: Cursor)
    requires (cur.AfterKey? || cur.AfterValue?) && GoodCursor(cur, top, state, room)
    requires Transition(state, ClassOf(c)).Goto?
    ensures GoodCursor(next, top, Transition(state, ClassOf(c)).next, room)
    ensures CursorText(next) == CursorText(cur) + [c]
  {
    hide ClassOf, Good, ValueText, Quoted;
    ClassesAgree(c);
    assert WsByte(c) && Transition(state, ClassOf(c)).next == state;
    match cur
    case AfterKey(pre, key, mid) =>
      WsSnoc(mid, c);
      Assoc(pre + Quoted(key), mid, [c]);
      next := AfterKey(pre, key, mid + [c]);
    case AfterValue(pre, v, post) =>
      WsSnoc(post, c);
      Assoc(pre + ValueText(v), post, [c]);
      next := AfterValue(pre, v, post + [c]);
  }

  /** A number about to end counts as a finished value. */
  lemma Settle(d: Derivation, cfg: Config, c: byte) returns (d2: Derivation, cfg2: Config)
    requires Describes(d, cfg) && Step(cfg, c).Live? && !Transition(cfg.state, ClassOf(c)).Goto?
    ensures Describes(d2, cfg2) && Step(cfg2, c) == Step(cfg, c) && DerivationText(d2) == DerivationText(d)
    ensures Transition(cfg2.state, ClassOf(c)) == Transition(cfg.state, ClassOf(c)) && !d2.cursor.InNumber?
  {
    hide Transition, ClassOf, FramesText, CursorText, GoodCursor;
    d2, cfg2 := d, cfg;
    if d.cursor.InNumber? {
      NumberEnds(d.cursor, Top(d.frames), cfg.state, 255 - |d.frames|, c);
      d2, cfg2 := d.(cursor := AfterValue(d.cursor.pre, Num(d.cursor.n), [])), cfg.(state := OK);
    }
  }

  /** States in which a value may be over. */
  predicate MayEnd(s: State) { s.OK? || s.ZE? || s.IN? || s.FR? || s.E3? }

  /** States in which a bracket may open. */
  predicate MayOpen(s: State) { s.GO? || s.VA? || s.AR? }

  /** Which states and which character perform each action. */
  lemma ActionRows(s: State, c: byte)
    ensures var e := Transition(s, ClassOf(c));
      && (e.EndEmptyObject? ==> c == 125 && s == OB)
      && (e.EndObject? ==> c == 125 && MayEnd(s))
      && (e.EndArray? ==> c == 93 && (s == AR || MayEnd(s)))
      && (e.BeginObject? ==> c == 123 && MayOpen(s))
      && (e.BeginArray? ==> c == 91 && MayOpen(s))
      && (e.EndString? ==> c == 34 && s == ST)
      && (e.Separator? ==> c == 44 && MayEnd(s))
      && (e.KeyColon? ==> c == 58 && s == CO)
  {
    hide ClassOf, Transition;
    Punctuation(c);
    var k := ClassOf(c);
    match Transition(s, k) {
      case EndEmptyObject => EndEmptyObjectRow(s, k);
      case EndObject => EndObjectRow(s, k);
      case EndArray => EndArrayRow(s, k);
      case BeginObject => BeginObjectRow(s, k);
      case BeginArray => BeginArrayRow(s, k);
      case EndString => EndStringRow(s, k);
      case Separator => SeparatorRow(s, k);
      case KeyColon => KeyColonRow(s, k);
      case _ =>
    }
  }

  lemma Punctuation(c: byte)
    ensures ClassOf(c).RCurb? ==> c == 125
    ensures ClassOf(c).RSqrb? ==> c == 93
    ensures ClassOf(c).LCurb? ==> c == 123
    ensures ClassOf(c).LSqrb? ==> c == 91
    ensures ClassOf(c).Quote? ==> c == 34
    ensures ClassOf(c).Comma? ==> c == 44
    ensures ClassOf(c).Colon? ==> c == 58
  {}

  lemma EndEmptyObjectRow(s: State, k: Class)
    requires Transition(s, k).EndEmptyObject?
    ensures k.RCurb? && s == OB
  {
    hide IsBlank, IsHex, IsDigit;
  }

  lemma EndObjectRow(s: State, k: Class)
    requires Transition(s, k).EndObject?
    ensures k.RCurb? && MayEnd(s)
  {
    hide IsBlank, IsHex, IsDigit;
  }

  lemma EndArrayRow(s: State, k: Class)
    requires Transition(s, k).EndArray?
    ensures k.RSqrb? && (s == AR || MayEnd(s))
  {
    hide IsBlank, IsHex, IsDigit;
  }

  lemma BeginObjectRow(s: State, k: Class)
    requires Transition(s, k).BeginObject?
    ensures k.LCurb? && MayOpen(s)
  {
    hide IsBlank, IsHex, IsDigit;
  }

  lemma BeginArrayRow(s: State, k: Class)
    requires Transition(s, k).BeginArray?
    ensures k.LSqrb? && MayOpen(s)
  {
    hide IsBlank, IsHex, IsDigit;
  }

  lemma EndStringRow(s: State, k: Class)
    requires Transition(s, k).EndString?
    ensures k.Quote? && s == ST
  {
    hide IsBlank, IsHex, IsDigit;
  }

  lemma SeparatorRow(s: State, k: Class)
    requires Transition(s, k).Separator?
    ensures k.Comma? && MayEnd(s)
  {
    hide IsBlank, IsHex, IsDigit;
  }

  lemma KeyColonRow(s: State, k: Class)
    requires Transition(s, k).KeyColon?
    ensures k.Colon? && s == CO
  {
    hide IsBlank, IsHex, IsDigit;
  }

  /** Which cursors stand in those states. */
  lemma CursorRows(cur: Cursor, top: Option<Frame>, s: State, room: int)
    requires GoodCursor(cur, top, s, room) && !cur.InNumber?
    ensures MayOpen(s) || s == OB ==> cur.Gap?
    ensures MayEnd(s) ==> cur.AfterValue? && s == OK
    ensures s == ST ==> cur.InText?
    ensures s == CO ==> cur.AfterKey?
  {
    hide IsWs, GoodUnits, Good;
  }

  /** Where the derivation stands when an action is due. */
  lemma Due(d: Derivation, cfg: Config, c: byte)
    requires Describes(d, cfg) && !d.cursor.InNumber?
    ensures cfg.Live?
    ensures var e := Transition(cfg.state, ClassOf(c));
      && (e.EndEmptyObject? ==> d.cursor.Gap? && c == 125 && cfg.state == OB)
      && (e.EndObject? ==> d.cursor.AfterValue? && c == 125)
      && (e.EndArray? ==> c == 93 && ((d.cursor.Gap? && cfg.state == AR) || d.cursor.AfterValue?))
      && (e.BeginObject? ==> d.cursor.Gap? && c == 123)
      && (e.BeginArray? ==> d.cursor.Gap? && c == 91)
      && (e.EndString? ==> d.cursor.InText? && c == 34 && cfg.state == ST)
      && (e.Separator? ==> d.cursor.AfterValue? && c == 44)
      && (e.KeyColon? ==> d.cursor.AfterKey? && c == 58)
  {
    hide Transition, ClassOf, GoodCursor, Framed;
    ActionRows(cfg.state, c);
    CursorRows(d.cursor, Top(d.frames), cfg.state, 255 - |d.frames|);
  }

  lemma AdvanceGoto(d: Derivation, cfg: Config, c: byte) returns (next: Derivation)
    requires Describes(d, cfg) && Step(cfg, c).Live? && Transition(cfg.state, ClassOf(c)).Goto?
    ensures Describes(next, Step(cfg, c)) && DerivationText(next) == DerivationText(d) + [c]
  {
    hide Transition, ClassOf, FramesText, CursorText, GoodCursor, GoodFrame;
    StepSound(cfg, c);
    var cur := AdvanceCursor(d.cursor, Top(d.frames), cfg.state, 255 - |d.frames|, c);
    next := d.(cursor := cur);
    Assoc(FramesText(d.frames), CursorText(d.cursor), [c]);
  }

  lemma AdvanceString(d: Derivation, cfg: Config) returns (next: Derivation)
    requires Describes(d, cfg) && Step(cfg, 34).Live? && d.cursor.InText? && cfg.state == ST
    ensures Describes(next, Step(cfg, 34)) && DerivationText(next) == DerivationText(d) + [34]
  {
    hide Transition, FramesText, CursorText, GoodCursor, GoodFrame;
    StepSound(cfg, 34);
    QuoteEnds();
    var cur := EndText(d.cursor, Top(d.frames), cfg.state, 255 - |d.frames|);
    next := d.(cursor := cur);
    Assoc(FramesText(d.frames), CursorText(d.cursor), [34]);
  }

  lemma AdvanceAction(d: Derivation, cfg: Config, c: byte) returns (next: Derivation)
    requires Describes(d, cfg) && !d.cursor.InNumber? && Step(cfg, c).Live?
    requires var e := Transition(cfg.state, ClassOf(c)); !e.Goto? && !e.Bad?
    ensures Describes(next, Step(cfg, c)) && DerivationText(next) == DerivationText(d) + [c]
  {
    hide Transition, ClassOf, Describes, DerivationText, Step;
    Due(d, cfg, c);
    match Transition(cfg.state, ClassOf(c)) {
      case EndEmptyObject => next := AdvanceEndEmpty(d, cfg, c);
      case EndObject => next := AdvanceEndObject(d, cfg);
      case EndArray =>
        if d.cursor.Gap? {
          next := AdvanceEndEmpty(d, cfg, c);
        } else {
          next := AdvanceEndArray(d, cfg);
        }
      case BeginObject => next := AdvanceBegin(d, cfg, c);
      case BeginArray => next := AdvanceBegin(d, cfg, c);
      case Separator => next := AdvanceComma(d, cfg);
      case KeyColon => next := AdvanceColon(d, cfg);
      case EndString => next := AdvanceString(d, cfg);
    }
  }

  /** The derivation follows the checker over any accepted character. */
  lemma Advance(d: Derivation, cfg: Config, c: byte) returns (next: Derivation)
    requires Describes(d, cfg) && Step(cfg, c).Live?
    ensures Describes(next, Step(cfg, c)) && DerivationText(next) == DerivationText(d) + [c]
  {
    assert Sound(cfg) && !Transition(cfg.state, ClassOf(c)).Bad?;
    hide Transition, ClassOf, Describes, DerivationText, Step, Sound;
    if Transition(cfg.state, ClassOf(c)).Goto? {
      next := AdvanceGoto(d, cfg, c);
    } else {
      var d2, cfg2 := Settle(d, cfg, c);
      next := AdvanceAction(d2, cfg2, c);
    }
  }

  lemma QuoteEnds()
    ensures Transition(ST, Quote) == EndString
  {}

  lemma StartDerivation() returns (d: Derivation)
    ensures Describes(d, START) && DerivationText(d) == []
  {
    WsNone();
    d := Derivation([], Gap([]));
  }

  /** Whatever was read without a rejection has a derivation. */
  lemma {:induction false} Derive(s: bytes) returns (d: Derivation)
    requires Run(START, s).Live?
    ensures Describes(d, Run(START, s)) && DerivationText(d) == s
  {
    hide Step, Sound, Describes, DerivationText;
    if s == [] {
      d := StartDerivation();
    } else {
      var prefix, c := s[..|s| - 1], s[|s| - 1];
      LiveBefore(prefix, c);
      assert s == prefix + [c];
      var before := Derive(prefix);
      d := Advance(before, Run(START, prefix), c);
    }
  }

  lemma LiveBefore(prefix: bytes, c: byte)
    ensures Sound(START)
    ensures Run(START, prefix + [c]) == Step(Run(START, prefix), c)
    ensures Run(START, prefix + [c]).Live? ==> Run(START, prefix).Live?
  {
    assert (prefix + [c])[..|prefix + [c]| - 1] == prefix;
  }

  /** `s` is whitespace, one document body, whitespace. */
  ghost predicate InLanguage(s: bytes) {
    exists lead: bytes, v: Value, trail: bytes {:trigger lead + ValueText(v) + trail} ::
      IsWs(lead) && IsDocument(v) && IsWs(trail) && s == lead + ValueText(v) + trail
  }

  /** The checker ends un-rejected and done exactly on the grammar's texts. */
  lemma AcceptsExactlyTheGrammar(s: bytes)
    ensures Finished(Run(START, s)) <==> InLanguage(s)
  {
    hide Finished, InLanguage, Run, Describes, DerivationText;
    if Finished(Run(START, s)) {
      FinishedIsLive(Run(START, s));
      var d := Derive(s);
      FinishedDocument(d, Run(START, s));
    }
    if InLanguage(s) {
      GrammarAccepted(s);
    }
  }

  lemma FinishedIsLive(cfg: Config)
    requires Finished(cfg)
    ensures cfg.Live?
  {}

  /** A finished checker has read a document. */
  lemma FinishedDocument(d: Derivation, cfg: Config)
    requires Finished(cfg) && Describes(d, cfg)
    ensures InLanguage(DerivationText(d))
  {
    hide Good, Depth, IsWs, ValueText, GoodFrame;
    assert d.frames == [] && d.cursor.AfterValue?;
    var AfterValue(lead, v, trail) := d.cursor;
    assert DerivationText(d) == lead + ValueText(v) + trail;
  }

  lemma GrammarAccepted(s: bytes)
    requires InLanguage(s)
    ensures Finished(Run(START, s))
  {
    hide IsWs, IsDocument, ValueText, Run;
    var lead, v, trail :| IsWs(lead) && IsDocument(v) && IsWs(trail) && s == lead + ValueText(v) + trail;
    JsonCompleteness.DocumentAccepted(lead, v, trail);
  }
}
