/**
 The language of the checker against RFC 8259. A standard text is whitespace, a
 value and whitespace in the grammar of that RFC, except that the bytes of a
 string need not be UTF-8. It is accepted if and only if the value is an array
 or object (section 2 of RFC 4627) nested at most 255 deep in which no number is
 a bare zero with an exponent.
 */
module JsonStandard {
  import opened Bytes
  import opened JsonBytes
  import opened JsonTable
  import opened JsonChecker
  import opened JsonGrammar
  import opened JsonCompleteness
  import opened JsonSoundness
  import opened JsonScan

  // ---- The standard ----

  /** Section 6: an integer without leading zeros, then perhaps a point and digits, then perhaps an exponent. */
  predicate StandardNumber(n: Number) {
    && n.whole != [] && AllDigits(n.whole) && (|n.whole| > 1 ==> n.whole[0] != 48)
    && (n.frac.Some? ==> n.frac.value != [] && AllDigits(n.frac.value))
    && (n.exp.Some? ==> StandardExponent(n.exp.value))
  }

  predicate StandardExponent(e: Exponent) {
    && e.mark in {69, 101} && (e.sign.Some? ==> e.sign.value in {43, 45})
    && e.digits != [] && AllDigits(e.digits)
  }

  predicate Standard(v: Value) {
    match v
    case Text(us) => GoodUnits(us)
    case Num(n) => StandardNumber(n)
    case Lit(_) => true
    case EmptyArray(ws) => IsWs(ws)
    case Array(items) => StandardItems(items)
    case EmptyObject(ws) => IsWs(ws)
    case Object(ms) => StandardMembers(ms)
  }

  predicate StandardItems(items: Items) {
    match items
    case FirstItem(pre, v, post) => IsWs(pre) && Standard(v) && IsWs(post)
    case NextItem(init, pre, v, post) => StandardItems(init) && IsWs(pre) && Standard(v) && IsWs(post)
  }

  predicate StandardMembers(ms: Members) {
    match ms
    case FirstMember(pre, key, mid, gap, v, post) => GoodKey(pre, key, mid) && IsWs(gap) && Standard(v) && IsWs(post)
    case NextMember(init, pre, key, mid, gap, v, post) =>
      StandardMembers(init) && GoodKey(pre, key, mid) && IsWs(gap) && Standard(v) && IsWs(post)
  }

  // ---- The exception ----

  /** A number like 0e1 or -0E+5. */
  predicate ZeroExponent(n: Number) { n.whole == [48] && n.frac.None? && n.exp.Some? }

  predicate HasZeroExponent(v: Value) {
    match v
    case Num(n) => ZeroExponent(n)
    case Array(items) => ItemsZeroExponent(items)
    case Object(ms) => MembersZeroExponent(ms)
    case _ => false
  }

  predicate ItemsZeroExponent(items: Items) {
    match items
    case FirstItem(_, v, _) => HasZeroExponent(v)
    case NextItem(init, _, v, _) => ItemsZeroExponent(init) || HasZeroExponent(v)
  }

  predicate MembersZeroExponent(ms: Members) {
    match ms
    case FirstMember(_, _, _, _, v, _) => HasZeroExponent(v)
    case NextMember(init, _, _, _, _, v, _) => MembersZeroExponent(init) || HasZeroExponent(v)
  }

  // ---- Without the exception a standard value is in the grammar ----

  lemma NumberGood(n: Number)
    requires StandardNumber(n)
    ensures GoodNumber(n) <==> !ZeroExponent(n)
  {
    hide AllDigits;
    NoDigits();
  }

  lemma {:induction false} ValueGood(v: Value)
    requires Standard(v)
    ensures Good(v) <==> !HasZeroExponent(v)
    decreases v
  {
    match v
    case Num(n) => NumberGood(n);
    case Array(items) => ItemsGood(items);
    case Object(ms) => MembersGood(ms);
    case _ =>
  }

  lemma {:induction false} ItemsGood(items: Items)
    requires StandardItems(items)
    ensures GoodItems(items) <==> !ItemsZeroExponent(items)
    decreases items
  {
    match items
    case FirstItem(_, v, _) => ValueGood(v);
    case NextItem(init, _, v, _) =>
      ItemsGood(init);
      ValueGood(v);
  }

  lemma {:induction false} MembersGood(ms: Members)
    requires StandardMembers(ms)
    ensures GoodMembers(ms) <==> !MembersZeroExponent(ms)
    decreases ms
  {
    match ms
    case FirstMember(_, _, _, _, v, _) => ValueGood(v);
    case NextMember(init, _, _, _, _, v, _) =>
      MembersGood(init);
      ValueGood(v);
  }

  // ---- Where the checker stops ----

  /** The checker can begin a value here. */
  ghost predicate AtValue(cfg: Config) {
    Sound(cfg) && cfg.Live? && cfg.commas < TWO_TO_32 && cfg.state in {VA, AR}
    && cfg.stack[|cfg.stack| - 1] in {ArrayMode, ObjectMode}
  }

  /** The brackets still to come do not fit above the open ones. */
  ghost predicate TooDeep(cfg: Config, depth: nat)
    requires cfg.Live?
  {
    |cfg.stack| - 1 + depth > 255
  }

  lemma DeadOnward(cfg: Config, a: bytes, b: bytes)
    requires Sound(cfg) && Run(cfg, a).Dead?
    ensures Run(cfg, a + b).Dead?
  {
    hide Run;
    RunConcat(cfg, a, b);
    DeadStays(Run(cfg, a), b);
  }

  lemma DeadBehind(cfg: Config, a: bytes, b: bytes)
    requires Sound(cfg) && Run(Run(cfg, a), b).Dead?
    ensures Run(cfg, a + b).Dead?
  {
    RunConcat(cfg, a, b);
  }

  /** After a bare zero the letter of an exponent is rejected. */
  lemma ZeroExponentDead(cfg: Config, n: Number)
    requires AtValue(cfg) && StandardNumber(n) && ZeroExponent(n)
    ensures Run(cfg, NumberText(n)).Dead?
  {
    hide Run, Step, ClassOf;
    var zero := n.(exp := None);
    var e := n.exp.value;
    RunWhole(cfg, zero);
    var half := (if n.minus then [45] else []) + n.whole;
    var cfg0 := cfg.(state := ZE);
    NoExponentAfterZero(cfg0, e.mark);
    RunOne(cfg0, e.mark);
    DeadOnward(cfg0, [e.mark], (if e.sign.Some? then [e.sign.value] else []) + e.digits);
    assert ExponentText(e) == [e.mark] + ((if e.sign.Some? then [e.sign.value] else []) + e.digits);
    DeadBehind(cfg, half, ExponentText(e));
    assert NumberText(n) == half + ExponentText(e);
  }

  lemma NoExponentAfterZero(cfg: Config, c: byte)
    requires Sound(cfg) && cfg.Live? && cfg.state == ZE && c in {69, 101}
    ensures Step(cfg, c).Dead?
  {}

  lemma NoRoom(cfg: Config)
    requires Sound(cfg) && cfg.Live? && cfg.state in {GO, VA, AR} && |cfg.stack| == 256
    ensures Step(cfg, 91).Dead? && Step(cfg, 123).Dead?
  {}

  lemma {:induction false} ValueDead(cfg: Config, v: Value)
    requires AtValue(cfg) && Standard(v) && (HasZeroExponent(v) || TooDeep(cfg, Depth(v)))
    ensures Run(cfg, ValueText(v)).Dead?
    decreases v, 1
  {
    hide Run, Step;
    if v.Num? {
      ZeroExponentDead(cfg, v.n);
    } else {
      ContainerDead(cfg, v);
    }
  }

  lemma {:induction false} ContainerDead(cfg: Config, v: Value)
    requires Sound(cfg) && cfg.Live? && cfg.commas < TWO_TO_32 && cfg.state in {GO, VA, AR}
    requires IsContainer(v) && Standard(v) && (HasZeroExponent(v) || TooDeep(cfg, Depth(v)))
    ensures Run(cfg, ValueText(v)).Dead?
    decreases v, 0
  {
    hide Run, Step, StandardItems, StandardMembers;
    var open: byte := if v.EmptyArray? || v.Array? then 91 else 123;
    var rest := ValueText(v)[1..];
    assert ValueText(v) == [open] + rest;
    RunOne(cfg, open);
    if |cfg.stack| == 256 {
      NoRoom(cfg);
      DeadOnward(cfg, [open], rest);
    } else {
      StepOpen(cfg);
      StepSound(cfg, open);
      if v.Array? {
        ItemsDead(Step(cfg, 91), v.items);
        DeadBehind(cfg, [91], ItemsText(v.items));
        DeadOnward(cfg, [91] + ItemsText(v.items), [93]);
      } else if v.Object? {
        MembersDead(Step(cfg, 123), v.members);
        DeadBehind(cfg, [123], MembersText(v.members));
        DeadOnward(cfg, [123] + MembersText(v.members), [125]);
      }
    }
  }

  lemma {:induction false} PaddedDead(cfg: Config, pre: bytes, v: Value, post: bytes)
    requires AtValue(cfg) && Standard(v) && IsWs(pre) && (HasZeroExponent(v) || TooDeep(cfg, Depth(v)))
    ensures Run(cfg, pre + ValueText(v) + post).Dead?
    decreases v, 2
  {
    hide Run, IsWs;
    RunBlanks(cfg, pre);
    ValueDead(cfg, v);
    DeadBehind(cfg, pre, ValueText(v));
    DeadOnward(cfg, pre + ValueText(v), post);
  }

  lemma {:induction false} ItemsDead(cfg: Config, items: Items)
    requires AtValue(cfg) && cfg.stack[|cfg.stack| - 1] == ArrayMode && StandardItems(items)
    requires ItemsZeroExponent(items) || TooDeep(cfg, ItemsDepth(items))
    ensures Run(cfg, ItemsText(items)).Dead?
    decreases items, 0
  {
    hide Run, Step, IsWs;
    match items
    case FirstItem(pre, v, post) => PaddedDead(cfg, pre, v, post);
    case NextItem(init, pre, v, post) =>
      var rest := pre + ValueText(v) + post;
      if ItemsZeroExponent(init) || TooDeep(cfg, ItemsDepth(init)) {
        ItemsDead(cfg, init);
        DeadOnward(cfg, ItemsText(init), [44] + rest);
        assert ItemsText(init) + [44] + rest == ItemsText(init) + ([44] + rest);
      } else {
        ItemsGood(init);
        RunItems(cfg, init);
        AfterComma(cfg, ItemsText(init), ArrayMode, JsonCompleteness.Plus(cfg.commas, ItemsCommas(init)));
        RunNext(cfg, ItemsText(init), rest);
        PaddedDead(Step(Run(cfg, ItemsText(init)), 44), pre, v, post);
      }
  }

  lemma AfterComma(cfg: Config, text: bytes, m: Mode, commas: nat)
    requires Sound(cfg) && cfg.Live? && m in {ArrayMode, ObjectMode}
    requires var st := cfg.stack[..|cfg.stack| - 1]; Settled(Run(cfg, text), st + [m], commas)
    ensures Sound(Step(Run(cfg, text), 44))
    ensures var st := cfg.stack[..|cfg.stack| - 1];
      Step(Run(cfg, text), 44)
      == if m == ArrayMode then Live(VA, st + [ArrayMode], JsonCompleteness.Plus(commas, 1))
         else Live(KE, st + [KeyMode], JsonCompleteness.Plus(commas, 1))
  {
    hide Run, Step;
    StepSound(Run(cfg, text), 44);
    StepComma(Run(cfg, text), cfg.stack[..|cfg.stack| - 1], m, commas);
  }

  lemma {:induction false} MemberDead(cfg: Config, pre: bytes, key: seq<Unit>, mid: bytes, gap: bytes, v: Value,
                                      post: bytes)
    requires GoodKey(pre, key, mid) && IsWs(gap) && Standard(v)
    requires Sound(cfg) && cfg.Live? && cfg.commas < TWO_TO_32 && cfg.state in {OB, KE}
    requires cfg.stack[|cfg.stack| - 1] == KeyMode && (HasZeroExponent(v) || TooDeep(cfg, Depth(v)))
    ensures Run(cfg, KeyText(pre, key, mid) + (gap + ValueText(v) + post)).Dead?
    decreases v, 3
  {
    hide Run, KeyText, GoodKey, IsWs;
    RunKey(cfg, pre, key, mid);
    PaddedDead(Run(cfg, KeyText(pre, key, mid)), gap, v, post);
    DeadBehind(cfg, KeyText(pre, key, mid), gap + ValueText(v) + post);
  }

  lemma {:induction false} MembersDead(cfg: Config, ms: Members)
    requires Sound(cfg) && cfg.Live? && cfg.commas < TWO_TO_32 && cfg.state in {OB, KE}
    requires cfg.stack[|cfg.stack| - 1] == KeyMode && StandardMembers(ms)
    requires MembersZeroExponent(ms) || TooDeep(cfg, MembersDepth(ms))
    ensures Run(cfg, MembersText(ms)).Dead?
    decreases ms, 0
  {
    hide Run, Step, KeyText, GoodKey, IsWs;
    match ms
    case FirstMember(pre, key, mid, gap, v, post) => MemberDead(cfg, pre, key, mid, gap, v, post);
    case NextMember(init, pre, key, mid, gap, v, post) =>
      var rest := KeyText(pre, key, mid) + (gap + ValueText(v) + post);
      if MembersZeroExponent(init) || TooDeep(cfg, MembersDepth(init)) {
        MembersDead(cfg, init);
        DeadOnward(cfg, MembersText(init), [44] + rest);
        assert MembersText(init) + [44] + rest == MembersText(init) + ([44] + rest);
      } else {
        MembersGood(init);
        RunMembers(cfg, init);
        AfterComma(cfg, MembersText(init), ObjectMode, JsonCompleteness.Plus(cfg.commas, MembersCommas(init)));
        RunNext(cfg, MembersText(init), rest);
        MemberDead(Step(Run(cfg, MembersText(init)), 44), pre, key, mid, gap, v, post);
      }
  }

  /** A value that is no array or object does not even begin a text. */
  lemma ScalarDead(v: Value)
    requires Standard(v) && !IsContainer(v)
    ensures Run(START, ValueText(v)).Dead?
  {
    var t := ValueText(v);
    ScalarBegins(v);
    hide Run, Step;
    RunOne(START, t[0]);
    assert t == [t[0]] + t[1..];
    DeadOnward(START, [t[0]], t[1..]);
  }

  lemma ScalarBegins(v: Value)
    requires Standard(v) && !IsContainer(v)
    ensures ValueText(v) != [] && Step(START, ValueText(v)[0]).Dead?
  {
    match v
    case Text(us) =>
      assert ValueText(v)[0] == 34;
    case Num(n) =>
      assert NumberText(n)[0] == if n.minus then 45 else n.whole[0];
      DigitIsNoStart(n.whole[0]);
    case Lit(w) =>
  }

  lemma DigitIsNoStart(c: byte)
    ensures DigitByte(c) ==> Step(START, c).Dead?
  {}

  /** The checker and RFC 8259, for every standard text: accepted if and only if the value is an array or
      object, no more than 255 brackets are open at once, and no number is a bare zero with an exponent. */
  lemma StandardTexts(lead: bytes, v: Value, trail: bytes)
    requires IsWs(lead) && Standard(v) && IsWs(trail)
    ensures InLanguage(lead + ValueText(v) + trail) <==> IsContainer(v) && Depth(v) <= 255 && !HasZeroExponent(v)
  {
    hide Run, Step, IsWs, Standard, Depth, HasZeroExponent, ValueText, Good, IsContainer;
    var s := lead + ValueText(v) + trail;
    ValueGood(v);
    if IsContainer(v) && Depth(v) <= 255 && !HasZeroExponent(v) {
      assert IsDocument(v);
      assert InLanguage(s);
    } else {
      AcceptsExactlyTheGrammar(s);
      RunBlanks(START, lead);
      if IsContainer(v) {
        ContainerDead(START, v);
      } else {
        ScalarDead(v);
      }
      DeadBehind(START, lead, ValueText(v));
      DeadOnward(START, lead + ValueText(v), trail);
    }
  }

  // ---- Numbers ----

  /** A standard number is accepted if and only if it is no bare zero with an exponent. */
  lemma NumberAccepted(n: Number)
    requires StandardNumber(n)
    ensures InLanguage([91] + NumberText(n) + [93]) <==> !ZeroExponent(n)
  {
    hide InLanguage, NumberText, StandardNumber, ZeroExponent;
    var items := FirstItem([], Num(n), []);
    assert IsWs([]) && Standard(Num(n)) && HasZeroExponent(Num(n)) == ZeroExponent(n) && Depth(Num(n)) == 0;
    assert StandardItems(items) && ItemsZeroExponent(items) == ZeroExponent(n) && ItemsDepth(items) == 0;
    StandardTexts([], Array(items), []);
    assert ValueText(Num(n)) == NumberText(n);
    assert ItemsText(items) == [] + NumberText(n) + [] == NumberText(n);
    var t := ValueText(Array(items));
    assert t == [91] + NumberText(n) + [93] && [] + t + [] == t;
  }

  function Signed(n: Number): bytes { (if n.minus then [45] else []) + n.whole }

  /** A standard number has no point but the one before its fraction. */
  lemma OnlyPoint(n: Number, i: nat)
    requires StandardNumber(n) && i < |NumberText(n)| && !(n.frac.Some? && i == |Signed(n)|)
    ensures NumberText(n)[i] != 46
  {
    DigitIsNoPoint();
    hide ClassOf;
    var frac: bytes := if n.frac.Some? then [46] + n.frac.value else [];
    var exp: bytes := if n.exp.Some? then ExponentText(n.exp.value) else [];
    assert NumberText(n) == Signed(n) + frac + exp;
    if i >= |Signed(n)| + |frac| {
      NoPointInExponent(n, i - |Signed(n)| - |frac|);
    }
  }

  /** In a standard number a digit follows a point. */
  lemma PointThenDigit(n: Number, i: nat)
    requires StandardNumber(n) && i < |NumberText(n)| && NumberText(n)[i] == 46
    ensures i + 1 < |NumberText(n)| && DigitByte(NumberText(n)[i + 1])
  {
    hide ClassOf;
    if !(n.frac.Some? && i == |Signed(n)|) {
      OnlyPoint(n, i);
    } else {
      assert NumberText(n)[i + 1] == n.frac.value[0];
    }
  }

  lemma DigitIsNoPoint()
    ensures !DigitByte(46) && !DigitByte(69) && !DigitByte(101)
  {}

  lemma NoPointInExponent(n: Number, k: int)
    requires StandardNumber(n)
    ensures n.exp.Some? && 0 <= k < |ExponentText(n.exp.value)| ==> ExponentText(n.exp.value)[k] != 46
  {
    DigitIsNoPoint();
    hide ClassOf;
  }

  /** A number of the grammar has a standard form with the same text if and only if a digit follows its point. */
  lemma StandardForm(n: Number)
    requires GoodNumber(n)
    ensures (exists m :: StandardNumber(m) && NumberText(m) == NumberText(n)) <==> n.frac != Some([])
  {
    if n.frac == Some([]) {
      forall m | NumberText(m) == NumberText(n) ensures !StandardNumber(m) {
        EmptyFraction(n);
        var i := if n.minus then 1 + |n.whole| else |n.whole|;
        if StandardNumber(m) {
          PointThenDigit(m, i);
        }
      }
    } else {
      assert StandardNumber(n);
    }
  }

  lemma EmptyFraction(n: Number)
    requires GoodNumber(n) && n.frac == Some([])
    ensures var i := if n.minus then 1 + |n.whole| else |n.whole|;
      var t := NumberText(n);
      i < |t| && t[i] == 46 && (i + 1 < |t| ==> !DigitByte(t[i + 1]))
  {
    DigitIsNoPoint();
    hide ClassOf;
    var i := if n.minus then 1 + |n.whole| else |n.whole|;
    var signed := (if n.minus then [45] else []) + n.whole;
    assert |signed| == i;
    if n.exp.Some? {
      assert NumberText(n) == signed + [46] + ExponentText(n.exp.value);
      assert NumberText(n)[i + 1] == n.exp.value.mark;
    }
  }

  /** Witnesses of the two differences: `[1.]` is in the language, `[0e1]` is not. */
  lemma NotTheStandard()
    ensures InLanguage([91, 49, 46, 93]) && !InLanguage([91, 48, 101, 49, 93])
  {
    var point := Number(false, [49], Some([]), None);
    var zero := Number(false, [48], None, Some(Exponent(101, None, [49])));
    assert DigitByte(49) && DigitByte(48);
    hide InLanguage, ClassOf;
    NumberAccepted(zero);
    assert [91] + NumberText(zero) + [93] == [91, 48, 101, 49, 93];
    var v := Array(FirstItem([], Num(point), []));
    assert IsWs([]) && IsDocument(v);
    assert ValueText(v) == [91, 49, 46, 93];
    DocumentInLanguage(v);
  }

  lemma DocumentInLanguage(v: Value)
    requires IsDocument(v)
    ensures InLanguage(ValueText(v))
  {
    assert IsWs([]);
    assert [] + ValueText(v) + [] == ValueText(v);
    hide ValueText, IsDocument;
  }
}
