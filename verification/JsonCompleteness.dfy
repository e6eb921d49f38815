/**
 Every text of the grammar is accepted: a structural induction over the tree,
 following the checker through the text of each part.
 */
module JsonCompleteness {
  import opened Bytes
  import opened JsonBytes
  import opened JsonTable
  import opened JsonChecker
  import opened JsonGrammar

  lemma {:induction false} RunConcat(cfg: Config, a: bytes, b: bytes)
    requires Sound(cfg)
    ensures Run(cfg, a + b) == Run(Run(cfg, a), b)
  {
    if b == [] {
      assert a + b == a;
    } else {
      assert (a + b)[..|a + b| - 1] == a + b[..|b| - 1];
      RunConcat(cfg, a, b[..|b| - 1]);
    }
  }

  lemma RunNone(cfg: Config)
    requires Sound(cfg)
    ensures Run(cfg, []) == cfg
  {}

  lemma RunOne(cfg: Config, c: byte)
    requires Sound(cfg)
    ensures Run(cfg, [c]) == Step(cfg, c)
  {
    assert [c][..0] == [];
    assert Run(cfg, [c][..0]) == cfg;
  }

  /** A state that loops on every character of `s` is still the state after `s`. */
  lemma {:induction false} RunLoop(cfg: Config, s: bytes)
    requires Sound(cfg) && cfg.Live?
    requires forall i :: 0 <= i < |s| ==> Step(cfg, s[i]) == cfg
    ensures Run(cfg, s) == cfg
  {
    if s != [] {
      RunLoop(cfg, s[..|s| - 1]);
    }
  }

  /** A finished value on stack `st`: a complete literal or container, or a number that may end here. */
  ghost predicate Settled(cfg: Config, st: seq<Mode>, commas: nat) {
    cfg.Live? && cfg.stack == st && cfg.commas == commas && cfg.state in {OK, ZE, IN, FR, E3}
  }

  lemma {:induction false} SettledBlanks(cfg: Config, st: seq<Mode>, commas: nat, ws: bytes)
    requires Sound(cfg) && Settled(cfg, st, commas) && IsWs(ws)
    ensures Settled(Run(cfg, ws), st, commas)
  {
    if ws != [] {
      SettledBlanks(cfg, st, commas, ws[..|ws| - 1]);
      assert WsByte(ws[|ws| - 1]);
    }
  }

  lemma {:induction false} RunBlanks(cfg: Config, ws: bytes)
    requires Sound(cfg) && cfg.Live? && cfg.state in {GO, OB, KE, CO, VA, AR} && IsWs(ws)
    ensures Run(cfg, ws) == cfg
  {
    forall i | 0 <= i < |ws| ensures Step(cfg, ws[i]) == cfg {
      assert WsByte(ws[i]);
    }
    RunLoop(cfg, ws);
  }

  // ---- Strings, words and numbers ----

  lemma RunTwo(cfg: Config, a: byte, b: byte)
    requires Sound(cfg)
    ensures Sound(Step(cfg, a)) && Run(cfg, [a, b]) == Step(Step(cfg, a), b)
  {
    hide Run;
    StepSound(cfg, a);
    RunOne(cfg, a);
    RunConcat(cfg, [a], [b]);
    RunOne(Step(cfg, a), b);
    assert [a] + [b] == [a, b];
  }

  /** The bytes after the first that a unit's text is made of, step by step. */
  lemma RunEscaped(cfg: Config, b: byte)
    requires Sound(cfg) && cfg.Live? && cfg.state == ES && b in {34, 92, 47, 98, 102, 110, 114, 116}
    ensures Step(cfg, b) == cfg.(state := ST)
  {}

  lemma StepHex(cfg: Config, h: byte)
    requires Sound(cfg) && cfg.Live? && cfg.state in {U1, U2, U3, U4} && HexByte(h)
    ensures Step(cfg, h) == cfg.(state := match cfg.state case U1 => U2 case U2 => U3 case U3 => U4 case _ => ST)
  {}

  lemma StepEscape(cfg: Config)
    requires Sound(cfg) && cfg.Live?
    ensures cfg.state == ST ==> Step(cfg, 92) == cfg.(state := ES)
    ensures cfg.state == ES ==> Step(cfg, 117) == cfg.(state := U1)
  {}

  lemma RunUnicode(cfg: Config, hex: bytes)
    requires Sound(cfg) && cfg.Live? && cfg.state == ST && |hex| == 4 && AllHex(hex)
    ensures Run(cfg, [92, 117] + hex) == cfg
  {
    hide Run, Step, ClassOf;
    StepEscape(cfg);
    StepEscape(cfg.(state := ES));
    RunTwo(cfg, 92, 117);
    var c1 := cfg.(state := U1);
    StepHex(c1, hex[0]);
    StepHex(cfg.(state := U2), hex[1]);
    RunTwo(c1, hex[0], hex[1]);
    var c3 := cfg.(state := U3);
    StepHex(c3, hex[2]);
    StepHex(cfg.(state := U4), hex[3]);
    RunTwo(c3, hex[2], hex[3]);
    RunConcat(c1, [hex[0], hex[1]], [hex[2], hex[3]]);
    assert hex == [hex[0], hex[1]] + [hex[2], hex[3]];
    RunConcat(cfg, [92, 117], hex);
  }

  lemma RunUnit(cfg: Config, u: Unit)
    requires Sound(cfg) && cfg.Live? && cfg.state == ST && GoodUnit(u)
    ensures Run(cfg, UnitText(u)) == cfg
  {
    hide Run;
    match u
    case Plain(b) => RunOne(cfg, b);
    case Escape(b) =>
      hide Step;
      StepEscape(cfg);
      RunEscaped(cfg.(state := ES), b);
      RunTwo(cfg, 92, b);
    case Unicode(hex) => RunUnicode(cfg, hex);
  }

  lemma {:induction false} RunUnits(cfg: Config, us: seq<Unit>)
    requires Sound(cfg) && cfg.Live? && cfg.state == ST && GoodUnits(us)
    ensures Run(cfg, UnitsText(us)) == cfg
  {
    hide Run;
    if us == [] {
      RunNone(cfg);
    } else {
      var n := |us| - 1;
      RunUnits(cfg, us[..n]);
      RunUnit(cfg, us[n]);
      RunConcat(cfg, UnitsText(us[..n]), UnitText(us[n]));
    }
  }

  lemma RunQuoted(cfg: Config, us: seq<Unit>)
    requires Sound(cfg) && cfg.Live? && cfg.state in {OB, KE, VA, AR} && GoodUnits(us) && |cfg.stack| > 1
    ensures Run(cfg, Quoted(us)) == cfg.(state := if cfg.stack[|cfg.stack| - 1] == KeyMode then CO else OK)
  {
    hide Run;
    var inside := cfg.(state := ST);
    RunOne(cfg, 34);
    RunUnits(inside, us);
    RunConcat(cfg, [34], UnitsText(us));
    RunOne(inside, 34);
    RunConcat(cfg, [34] + UnitsText(us), [34]);
  }

  /** The states a word goes through, from the first letter on. */
  function WordStates(w: Word): seq<State> {
    match w
    case True => [T1, T2, T3, OK]
    case False => [F1, F2, F3, F4, OK]
    case Null => [N1, N2, N3, OK]
  }

  lemma StepLetter(cfg: Config, w: Word, k: nat)
    requires Sound(cfg) && cfg.Live? && k < |WordText(w)|
    requires if k == 0 then cfg.state in {VA, AR} else cfg.state == WordStates(w)[k - 1]
    ensures Step(cfg, WordText(w)[k]) == cfg.(state := WordStates(w)[k])
  {
    LetterRow(cfg.state, w, k);
    LetterCodes(w, k);
    hide ClassOf, Transition, WordText, WordStates;
  }

  lemma LetterCodes(w: Word, k: nat)
    requires k < |WordText(w)|
    ensures ClassOf(WordText(w)[k]) == WordClasses(w)[k] && !WordClasses(w)[k].Illegal?
  {
    LetterClasses();
    hide ClassOf;
  }

  lemma LetterClasses()
    ensures ClassOf(97) == LowA && ClassOf(101) == LowE && ClassOf(102) == LowF && ClassOf(108) == LowL
    ensures ClassOf(110) == LowN && ClassOf(114) == LowR && ClassOf(115) == LowS && ClassOf(116) == LowT
    ensures ClassOf(117) == LowU
  {}

  /** The classes of a word's letters. */
  function WordClasses(w: Word): (r: seq<Class>)
    ensures |r| == |WordText(w)|
  {
    match w
    case True => [LowT, LowR, LowU, LowE]
    case False => [LowF, LowA, LowL, LowS, LowE]
    case Null => [LowN, LowU, LowL, LowL]
  }

  lemma LetterRow(s: State, w: Word, k: nat)
    requires k < |WordText(w)|
    requires if k == 0 then s in {VA, AR} else s == WordStates(w)[k - 1]
    ensures Transition(s, WordClasses(w)[k]) == Goto(WordStates(w)[k])
  {}

  lemma {:induction false} RunLetters(cfg: Config, w: Word, k: nat)
    requires Sound(cfg) && cfg.Live? && cfg.state in {VA, AR} && 1 <= k <= |WordText(w)|
    ensures Run(cfg, WordText(w)[..k]) == cfg.(state := WordStates(w)[k - 1])
  {
    hide Run, Step;
    var t := WordText(w);
    if k == 1 {
      RunNone(cfg);
      assert t[..0] == [];
    } else {
      RunLetters(cfg, w, k - 1);
    }
    var before := Run(cfg, t[..k - 1]);
    StepLetter(before, w, k - 1);
    RunOne(before, t[k - 1]);
    RunConcat(cfg, t[..k - 1], [t[k - 1]]);
    assert t[..k - 1] + [t[k - 1]] == t[..k];
  }

  lemma RunWord(cfg: Config, w: Word)
    requires Sound(cfg) && cfg.Live? && cfg.state in {VA, AR}
    ensures Run(cfg, WordText(w)) == cfg.(state := OK)
  {
    hide Run;
    var t := WordText(w);
    RunLetters(cfg, w, |t|);
    assert t[..|t|] == t;
  }

  lemma {:induction false} RunDigits(cfg: Config, s: bytes)
    requires Sound(cfg) && cfg.Live? && cfg.state in {IN, FR, E3} && AllDigits(s)
    ensures Run(cfg, s) == cfg
  {
    forall i | 0 <= i < |s| ensures Step(cfg, s[i]) == cfg {
      assert DigitByte(s[i]);
    }
    RunLoop(cfg, s);
  }

  /** The checker's state after a number as far as it is written. */
  function Stage(n: Number): State {
    if n.exp.Some? then
      if n.exp.value.digits != [] then E3 else if n.exp.value.sign.Some? then E2 else E1
    else if n.frac.Some? then FR
    else if n.whole == [] then MI
    else if n.whole == [48] then ZE
    else IN
  }

  lemma StepWhole(cfg: Config, c: byte)
    requires Sound(cfg) && cfg.Live?
    ensures cfg.state in {VA, AR} && c == 45 ==> Step(cfg, c) == cfg.(state := MI)
    ensures cfg.state in {VA, AR, MI} && DigitByte(c) ==>
              Step(cfg, c) == cfg.(state := if c == 48 then ZE else IN)
  {}

  lemma RunWhole(cfg: Config, n: Number)
    requires Sound(cfg) && cfg.Live? && cfg.state in {VA, AR}
    requires GoodNumberPrefix(n) && n.whole != []
    ensures Run(cfg, (if n.minus then [45] else []) + n.whole) == cfg.(state := if n.whole == [48] then ZE else IN)
  {
    hide Run, Step, ClassOf;
    var sign: bytes := if n.minus then [45] else [];
    var signed := if n.minus then cfg.(state := MI) else cfg;
    RunNone(cfg);
    RunOne(cfg, 45);
    StepWhole(cfg, 45);
    assert Run(cfg, sign) == signed;
    var first, rest := n.whole[0], n.whole[1..];
    assert n.whole == [first] + rest;
    RunOne(signed, first);
    StepWhole(signed, first);
    if first == 48 {
      assert rest == [];
      RunNone(signed.(state := ZE));
    } else {
      RunDigits(signed.(state := IN), rest);
    }
    RunConcat(signed, [first], rest);
    RunConcat(cfg, sign, n.whole);
  }

  lemma StepExponent(cfg: Config, c: byte)
    requires Sound(cfg) && cfg.Live?
    ensures cfg.state in {IN, FR} && c in {69, 101} ==> Step(cfg, c) == cfg.(state := E1)
    ensures cfg.state == E1 && c in {43, 45} ==> Step(cfg, c) == cfg.(state := E2)
    ensures cfg.state in {E1, E2} && DigitByte(c) ==> Step(cfg, c) == cfg.(state := E3)
  {}

  lemma RunExponent(cfg: Config, e: Exponent)
    requires Sound(cfg) && cfg.Live? && cfg.state in {IN, FR} && e.mark in {69, 101}
    requires e.sign.Some? ==> e.sign.value in {43, 45}
    requires AllDigits(e.digits) && e.digits != []
    ensures Run(cfg, ExponentText(e)) == cfg.(state := E3)
  {
    hide Run, Step, ClassOf;
    var sign: bytes := if e.sign.Some? then [e.sign.value] else [];
    var marked := cfg.(state := E1);
    var signed := if e.sign.Some? then cfg.(state := E2) else marked;
    StepExponent(cfg, e.mark);
    RunOne(cfg, e.mark);
    RunNone(marked);
    if e.sign.Some? {
      StepExponent(marked, e.sign.value);
      RunOne(marked, e.sign.value);
    }
    RunConcat(cfg, [e.mark], sign);
    var rest := e.digits[1..];
    assert e.digits == [e.digits[0]] + rest;
    assert DigitByte(e.digits[0]);
    StepExponent(signed, e.digits[0]);
    RunOne(signed, e.digits[0]);
    assert AllDigits(rest);
    RunDigits(cfg.(state := E3), rest);
    RunConcat(signed, [e.digits[0]], rest);
    RunConcat(cfg, [e.mark] + sign, e.digits);
  }

  lemma RunNumber(cfg: Config, n: Number)
    requires Sound(cfg) && cfg.Live? && cfg.state in {VA, AR} && GoodNumber(n)
    ensures Run(cfg, NumberText(n)) == cfg.(state := Stage(n))
    ensures Stage(n) in {ZE, IN, FR, E3}
  {
    hide Run;
    var signed: bytes := (if n.minus then [45] else []) + n.whole;
    var c1 := cfg.(state := if n.whole == [48] then ZE else IN);
    RunWhole(cfg, n);
    var frac: bytes := if n.frac.Some? then [46] + n.frac.value else [];
    var c2 := if n.frac.Some? then cfg.(state := FR) else c1;
    RunNone(c1);
    if n.frac.Some? {
      RunOne(c1, 46);
      RunDigits(c2, n.frac.value);
      RunConcat(c1, [46], n.frac.value);
    }
    assert Run(c1, frac) == c2;
    RunConcat(cfg, signed, frac);
    if n.exp.Some? {
      RunExponent(c2, n.exp.value);
      RunConcat(cfg, signed + frac, ExponentText(n.exp.value));
    } else {
      assert NumberText(n) == signed + frac;
    }
  }

  // ---- Values ----

  lemma RunBracketed(cfg: Config, open: byte, inside: bytes, close: byte)
    requires Sound(cfg)
    ensures Sound(Step(cfg, open))
    ensures Run(cfg, [open] + inside + [close]) == Step(Run(Step(cfg, open), inside), close)
  {
    hide Run, Step;
    StepSound(cfg, open);
    RunOne(cfg, open);
    RunConcat(cfg, [open], inside);
    RunOne(Run(Step(cfg, open), inside), close);
    RunConcat(cfg, [open] + inside, [close]);
  }

  /** Nesting allowance: the open brackets plus the depth still to come. */
  ghost predicate Fits(cfg: Config, depth: nat) {
    Sound(cfg) && cfg.Live? && cfg.commas < TWO_TO_32 && |cfg.stack| - 1 + depth <= 255
  }

  function Plus(a: nat, b: nat): nat { (a + b) % TWO_TO_32 }

  lemma PlusAssoc(a: nat, b: nat, c: nat)
    ensures Plus(Plus(a, b), c) == Plus(a, b + c)
  {}

  // A settled value takes the separator and the closing brackets as the state OK does.

  lemma StepOpen(cfg: Config)
    requires Sound(cfg) && cfg.Live? && cfg.state in {GO, VA, AR} && |cfg.stack| <= 255
    ensures Step(cfg, 91) == cfg.(stack := cfg.stack + [ArrayMode], state := AR)
    ensures Step(cfg, 123) == cfg.(stack := cfg.stack + [KeyMode], state := OB)
  {}

  lemma StepCloseEmpty(cfg: Config, st: seq<Mode>)
    requires Sound(cfg) && cfg.Live? && cfg.state in {AR, OB}
    requires cfg.stack == st + [if cfg.state == AR then ArrayMode else KeyMode]
    ensures Step(cfg, if cfg.state == AR then 93 else 125) == Live(OK, st, cfg.commas)
  {}

  lemma StepClose(cfg: Config, st: seq<Mode>, m: Mode, commas: nat)
    requires m in {ArrayMode, ObjectMode} && Sound(cfg) && Settled(cfg, st + [m], commas)
    ensures Step(cfg, if m == ArrayMode then 93 else 125) == Live(OK, st, commas)
  {}

  lemma StepComma(cfg: Config, st: seq<Mode>, m: Mode, commas: nat)
    requires m in {ArrayMode, ObjectMode} && Sound(cfg) && Settled(cfg, st + [m], commas)
    ensures Step(cfg, 44) ==
            if m == ArrayMode then Live(VA, st + [ArrayMode], Plus(commas, 1))
            else Live(KE, st + [KeyMode], Plus(commas, 1))
  {}

  lemma {:induction false} RunValue(cfg: Config, v: Value)
    requires Good(v) && Fits(cfg, Depth(v)) && cfg.state in {VA, AR}
    requires cfg.stack[|cfg.stack| - 1] in {ArrayMode, ObjectMode}
    ensures Settled(Run(cfg, ValueText(v)), cfg.stack, Plus(cfg.commas, Commas(v)))
    decreases v, 1
  {
    hide Run, Step;
    match v
    case Text(us) => RunQuoted(cfg, us);
    case Num(n) => RunNumber(cfg, n);
    case Lit(w) => RunWord(cfg, w);
    case _ => RunContainer(cfg, v);
  }

  lemma {:induction false} RunContainer(cfg: Config, v: Value)
    requires Good(v) && IsContainer(v) && Fits(cfg, Depth(v)) && cfg.state in {GO, VA, AR}
    ensures Run(cfg, ValueText(v)) == Live(OK, cfg.stack, Plus(cfg.commas, Commas(v)))
    decreases v, 0
  {
    hide Run, Step;
    var inArray := cfg.(stack := cfg.stack + [ArrayMode], state := AR);
    var inObject := cfg.(stack := cfg.stack + [KeyMode], state := OB);
    StepOpen(cfg);
    match v {
      case EmptyArray(ws) =>
        RunBlanks(inArray, ws);
        StepCloseEmpty(inArray, cfg.stack);
        RunBracketed(cfg, 91, ws, 93);
      case Array(items) =>
        RunItems(inArray, items);
        StepClose(Run(inArray, ItemsText(items)), cfg.stack, ArrayMode, Plus(cfg.commas, Commas(v)));
        RunBracketed(cfg, 91, ItemsText(items), 93);
      case EmptyObject(ws) =>
        RunBlanks(inObject, ws);
        StepCloseEmpty(inObject, cfg.stack);
        RunBracketed(cfg, 123, ws, 125);
      case Object(ms) =>
        RunMembers(inObject, ms);
        StepClose(Run(inObject, MembersText(ms)), cfg.stack, ObjectMode, Plus(cfg.commas, Commas(v)));
        RunBracketed(cfg, 123, MembersText(ms), 125);
    }
  }

  lemma {:induction false} RunPadded(cfg: Config, pre: bytes, v: Value, post: bytes)
    requires Good(v) && Fits(cfg, Depth(v)) && cfg.state in {VA, AR} && IsWs(pre) && IsWs(post)
    requires cfg.stack[|cfg.stack| - 1] in {ArrayMode, ObjectMode}
    ensures Settled(Run(cfg, pre + ValueText(v) + post), cfg.stack, Plus(cfg.commas, Commas(v)))
    decreases v, 2
  {
    hide Run;
    RunBlanks(cfg, pre);
    RunValue(cfg, v);
    RunConcat(cfg, pre, ValueText(v));
    SettledBlanks(Run(cfg, ValueText(v)), cfg.stack, Plus(cfg.commas, Commas(v)), post);
    RunConcat(cfg, pre + ValueText(v), post);
  }

  lemma RunNext(cfg: Config, init: bytes, rest: bytes)
    requires Sound(cfg)
    ensures Sound(Step(Run(cfg, init), 44))
    ensures Run(cfg, init + [44] + rest) == Run(Step(Run(cfg, init), 44), rest)
  {
    hide Run, Step;
    StepSound(Run(cfg, init), 44);
    RunOne(Run(cfg, init), 44);
    RunConcat(cfg, init, [44]);
    RunConcat(cfg, init + [44], rest);
  }

  lemma {:induction false} RunItems(cfg: Config, items: Items)
    requires GoodItems(items) && Fits(cfg, ItemsDepth(items)) && cfg.state in {VA, AR}
    requires cfg.stack[|cfg.stack| - 1] == ArrayMode
    ensures Settled(Run(cfg, ItemsText(items)), cfg.stack, Plus(cfg.commas, ItemsCommas(items)))
    decreases items, 0
  {
    hide Run, Step;
    match items
    case FirstItem(pre, v, post) => RunPadded(cfg, pre, v, post);
    case NextItem(init, pre, v, post) =>
      RunItems(cfg, init);
      var k := Plus(cfg.commas, ItemsCommas(init));
      var st := cfg.stack[..|cfg.stack| - 1];
      assert cfg.stack == st + [ArrayMode];
      StepComma(Run(cfg, ItemsText(init)), st, ArrayMode, k);
      RunNext(cfg, ItemsText(init), pre + ValueText(v) + post);
      RunPadded(Live(VA, cfg.stack, Plus(k, 1)), pre, v, post);
      PlusAssoc(cfg.commas, ItemsCommas(init), 1);
      PlusAssoc(cfg.commas, ItemsCommas(init) + 1, Commas(v));
  }

  lemma RunKey(cfg: Config, pre: bytes, key: seq<Unit>, mid: bytes)
    requires Sound(cfg) && cfg.Live? && cfg.state in {OB, KE} && GoodKey(pre, key, mid)
    requires |cfg.stack| > 1 && cfg.stack[|cfg.stack| - 1] == KeyMode
    ensures Run(cfg, KeyText(pre, key, mid)) == cfg.(state := VA, stack := cfg.stack[..|cfg.stack| - 1] + [ObjectMode])
  {
    hide Run;
    RunBlanks(cfg, pre);
    RunQuoted(cfg, key);
    RunConcat(cfg, pre, Quoted(key));
    var keyed := cfg.(state := CO);
    RunBlanks(keyed, mid);
    RunConcat(cfg, pre + Quoted(key), mid);
    RunOne(keyed, 58);
    RunConcat(cfg, pre + Quoted(key) + mid, [58]);
  }

  lemma {:induction false} RunMember(cfg: Config, pre: bytes, key: seq<Unit>, mid: bytes, gap: bytes, v: Value,
                                     post: bytes)
    requires GoodKey(pre, key, mid) && IsWs(gap) && Good(v) && IsWs(post)
    requires Fits(cfg, Depth(v)) && cfg.state in {OB, KE} && cfg.stack[|cfg.stack| - 1] == KeyMode
    ensures Settled(Run(cfg, KeyText(pre, key, mid) + (gap + ValueText(v) + post)),
                    cfg.stack[..|cfg.stack| - 1] + [ObjectMode], Plus(cfg.commas, Commas(v)))
    decreases v, 3
  {
    hide Run;
    RunKey(cfg, pre, key, mid);
    var after := Run(cfg, KeyText(pre, key, mid));
    RunPadded(after, gap, v, post);
    RunConcat(cfg, KeyText(pre, key, mid), gap + ValueText(v) + post);
  }

  lemma {:induction false} RunMembers(cfg: Config, ms: Members)
    requires GoodMembers(ms) && Fits(cfg, MembersDepth(ms)) && cfg.state in {OB, KE}
    requires cfg.stack[|cfg.stack| - 1] == KeyMode
    ensures Settled(Run(cfg, MembersText(ms)), cfg.stack[..|cfg.stack| - 1] + [ObjectMode],
                    Plus(cfg.commas, MembersCommas(ms)))
    decreases ms, 0
  {
    hide Run, Step, KeyText;
    match ms
    case FirstMember(pre, key, mid, gap, v, post) => RunMember(cfg, pre, key, mid, gap, v, post);
    case NextMember(init, pre, key, mid, gap, v, post) =>
      RunMembers(cfg, init);
      var k := Plus(cfg.commas, MembersCommas(init));
      var st := cfg.stack[..|cfg.stack| - 1];
      assert cfg.stack == st + [KeyMode];
      var rest := KeyText(pre, key, mid) + (gap + ValueText(v) + post);
      StepComma(Run(cfg, MembersText(init)), st, ObjectMode, k);
      RunNext(cfg, MembersText(init), rest);
      RunMember(Live(KE, cfg.stack, Plus(k, 1)), pre, key, mid, gap, v, post);
      PlusAssoc(cfg.commas, MembersCommas(init), 1);
      PlusAssoc(cfg.commas, MembersCommas(init) + 1, Commas(v));
  }

  /** Whitespace, a document body and more whitespace leave the checker finished,
      with one comma counted per separator. */
  lemma DocumentAccepted(lead: bytes, v: Value, trail: bytes)
    requires IsWs(lead) && IsDocument(v) && IsWs(trail)
    ensures Run(START, lead + ValueText(v) + trail) == Live(OK, [DoneMode], Commas(v) % TWO_TO_32)
  {
    hide Run;
    RunBlanks(START, lead);
    RunContainer(START, v);
    RunConcat(START, lead, ValueText(v));
    var done := Live(OK, [DoneMode], Commas(v) % TWO_TO_32);
    forall i | 0 <= i < |trail| ensures Step(done, trail[i]) == done {
      assert WsByte(trail[i]);
    }
    RunLoop(done, trail);
    RunConcat(START, lead + ValueText(v), trail);
  }
}
