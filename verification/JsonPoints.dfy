/**
 Which texts of the checker's language are texts of RFC 8259: those in which every
 point outside a string is followed by a digit.
 */
module JsonPoints {
  import opened Bytes
  import opened JsonBytes
  import opened JsonGrammar
  import opened JsonSoundness
  import opened JsonStandard

  // ---- Points outside strings ----

  datatype Place = Outside | Inside | Escaped

  function Next(q: Place, c: byte): Place {
    match q
    case Outside => if c == 34 then Inside else Outside
    case Inside => if c == 34 then Outside else if c == 92 then Escaped else Inside
    case Escaped => Inside
  }

  function After(q: Place, s: bytes): Place
    decreases |s|
  {
    if s == [] then q else After(Next(q, s[0]), s[1..])
  }

  predicate StartsWithDigit(s: bytes) { s != [] && DigitByte(s[0]) }

  /** Some point outside the strings has no digit behind it. */
  predicate BarePoint(q: Place, s: bytes)
    decreases |s|
  {
    s != [] && ((q.Outside? && s[0] == 46 && !StartsWithDigit(s[1..])) || BarePoint(Next(q, s[0]), s[1..]))
  }

  lemma {:induction false} AfterConcat(q: Place, a: bytes, b: bytes)
    ensures After(q, a + b) == After(After(q, a), b)
    decreases |a|
  {
    if a == [] {
      assert a + b == b;
    } else {
      assert (a + b)[1..] == a[1..] + b;
      AfterConcat(Next(q, a[0]), a[1..], b);
    }
  }

  /** A text without bare points adds none to what follows. */
  lemma {:induction false} NoneBefore(q: Place, a: bytes, b: bytes)
    requires !BarePoint(q, a)
    ensures BarePoint(q, a + b) <==> BarePoint(After(q, a), b)
    decreases |a|
  {
    if a == [] {
      assert a + b == b;
    } else {
      assert (a + b)[1..] == a[1..] + b;
      NoneBefore(Next(q, a[0]), a[1..], b);
    }
  }

  /** A bare point stays one before anything but a digit. */
  lemma {:induction false} StaysBare(q: Place, a: bytes, b: bytes)
    requires BarePoint(q, a) && !StartsWithDigit(b)
    ensures BarePoint(q, a + b)
    decreases |a|
  {
    assert (a + b)[1..] == a[1..] + b;
    if BarePoint(Next(q, a[0]), a[1..]) {
      StaysBare(Next(q, a[0]), a[1..], b);
    }
  }

  /** `s` leads from outside strings to outside strings, and has a bare point if and only if `bare` says so. */
  predicate Reads(s: bytes, bare: bool) { After(Outside, s) == Outside && BarePoint(Outside, s) == bare }

  lemma Joined(a: bytes, b: bytes, x: bool, y: bool)
    requires Reads(a, x) && Reads(b, y) && (x ==> !StartsWithDigit(b))
    ensures Reads(a + b, x || y)
  {
    hide StartsWithDigit;
    AfterConcat(Outside, a, b);
    if x {
      StaysBare(Outside, a, b);
    } else {
      NoneBefore(Outside, a, b);
    }
  }

  lemma {:induction false} Quiet(s: bytes)
    requires forall i :: 0 <= i < |s| ==> s[i] != 34 && s[i] != 46
    ensures Reads(s, false)
  {
    if s != [] {
      Quiet(s[1..]);
    }
  }

  lemma DigitsAreQuiet(c: byte)
    ensures DigitByte(c) ==> c != 34 && c != 46
    ensures WsByte(c) ==> c != 34 && c != 46 && !DigitByte(c)
    ensures HexByte(c) ==> c != 34 && c != 92
  {}

  lemma BlanksRead(ws: bytes)
    requires IsWs(ws)
    ensures Reads(ws, false) && !StartsWithDigit(ws)
  {
    forall i | 0 <= i < |ws| ensures ws[i] != 34 && ws[i] != 46 && !DigitByte(ws[i]) {
      DigitsAreQuiet(ws[i]);
    }
    Quiet(ws);
  }

  lemma DigitsRead(s: bytes)
    requires AllDigits(s)
    ensures Reads(s, false)
  {
    forall i | 0 <= i < |s| ensures s[i] != 34 && s[i] != 46 {
      DigitsAreQuiet(s[i]);
    }
    Quiet(s);
  }

  // ---- Strings ----

  /** Inside a string there is no point to look at. */
  predicate StaysInside(s: bytes) { After(Inside, s) == Inside && !BarePoint(Inside, s) }

  lemma InsideJoined(a: bytes, b: bytes)
    requires StaysInside(a) && StaysInside(b)
    ensures StaysInside(a + b)
  {
    AfterConcat(Inside, a, b);
    NoneBefore(Inside, a, b);
  }

  lemma {:induction false} PlainInside(s: bytes)
    requires forall i :: 0 <= i < |s| ==> s[i] != 34 && s[i] != 92
    ensures StaysInside(s)
  {
    if s != [] {
      PlainInside(s[1..]);
    }
  }

  lemma EscapeInside(c: byte)
    ensures StaysInside([92, c])
  {
    var s := [92, c];
    assert s[1..] == [c] && s[1..][1..] == [];
    assert After(Escaped, [c]) == Inside && !BarePoint(Escaped, [c]);
  }

  lemma UnitInside(u: Unit)
    requires GoodUnit(u)
    ensures StaysInside(UnitText(u))
  {
    match u
    case Plain(b) =>
      DigitsAreQuiet(b);
      PlainInside([b]);
    case Escape(b) => EscapeInside(b);
    case Unicode(hex) =>
      forall i | 0 <= i < |hex| ensures hex[i] != 34 && hex[i] != 92 {
        DigitsAreQuiet(hex[i]);
      }
      EscapeInside(117);
      PlainInside(hex);
      InsideJoined([92, 117], hex);
  }

  lemma {:induction false} UnitsInside(us: seq<Unit>)
    requires GoodUnits(us)
    ensures StaysInside(UnitsText(us))
  {
    hide UnitText, GoodUnit, StaysInside;
    if us == [] {
      PlainInside([]);
    } else {
      var n := |us| - 1;
      UnitsInside(us[..n]);
      UnitInside(us[n]);
      InsideJoined(UnitsText(us[..n]), UnitText(us[n]));
    }
  }

  lemma QuotedReads(us: seq<Unit>)
    requires GoodUnits(us)
    ensures Reads(Quoted(us), false)
  {
    hide UnitsText;
    var t := UnitsText(us);
    UnitsInside(us);
    assert Quoted(us) == [34] + (t + [34]);
    var q := [34] + (t + [34]);
    assert q[1..] == t + [34];
    AfterConcat(Inside, t, [34]);
    NoneBefore(Inside, t, [34]);
    OneQuote();
  }

  lemma OneQuote()
    ensures After(Inside, [34]) == Outside && !BarePoint(Inside, [34])
  {
    assert [34][1..] == [];
  }

  // ---- Numbers ----

  /** What numbers of the grammar and standard numbers have in common. */
  predicate LooseNumber(n: Number) {
    && AllDigits(n.whole) && (n.frac.Some? ==> AllDigits(n.frac.value))
    && (n.exp.Some? ==>
          && n.exp.value.mark in {69, 101} && (n.exp.value.sign.Some? ==> n.exp.value.sign.value in {43, 45})
          && AllDigits(n.exp.value.digits))
  }

  predicate BareFraction(n: Number) { n.frac == Some([]) }

  lemma PointReads(digits: bytes)
    requires AllDigits(digits)
    ensures Reads([46] + digits, digits == [])
  {
    DigitsRead(digits);
    var s := [46] + digits;
    assert s[1..] == digits;
  }

  lemma ExponentReads(e: Exponent)
    requires e.mark in {69, 101} && (e.sign.Some? ==> e.sign.value in {43, 45}) && AllDigits(e.digits)
    ensures Reads(ExponentText(e), false) && !StartsWithDigit(ExponentText(e))
  {
    var sign: bytes := if e.sign.Some? then [e.sign.value] else [];
    MarkIsNoDigit();
    Quiet([e.mark] + sign);
    DigitsRead(e.digits);
    Joined([e.mark] + sign, e.digits, false, false);
  }

  lemma MarkIsNoDigit()
    ensures !DigitByte(69) && !DigitByte(101) && !DigitByte(44) && !DigitByte(93)
    ensures !DigitByte(125)
  {}

  lemma NumberReads(n: Number)
    requires LooseNumber(n)
    ensures Reads(NumberText(n), BareFraction(n))
  {
    hide Reads, StartsWithDigit, AllDigits;
    var sign: bytes := if n.minus then [45] else [];
    var frac: bytes := if n.frac.Some? then [46] + n.frac.value else [];
    var exp: bytes := if n.exp.Some? then ExponentText(n.exp.value) else [];
    Quiet(sign);
    DigitsRead(n.whole);
    Joined(sign, n.whole, false, false);
    Quiet([]);
    if n.frac.Some? {
      PointReads(n.frac.value);
    }
    Joined(sign + n.whole, frac, false, BareFraction(n));
    NoneStarts();
    if n.exp.Some? {
      ExponentReads(n.exp.value);
    }
    Joined(sign + n.whole + frac, exp, BareFraction(n), false);
  }

  lemma NoneStarts()
    ensures !StartsWithDigit([])
  {}

  // ---- Values ----

  predicate Loose(v: Value) {
    match v
    case Text(us) => GoodUnits(us)
    case Num(n) => LooseNumber(n)
    case Lit(_) => true
    case EmptyArray(ws) => IsWs(ws)
    case Array(items) => LooseItems(items)
    case EmptyObject(ws) => IsWs(ws)
    case Object(ms) => LooseMembers(ms)
  }

  predicate LooseItems(items: Items) {
    match items
    case FirstItem(pre, v, post) => IsWs(pre) && Loose(v) && IsWs(post)
    case NextItem(init, pre, v, post) => LooseItems(init) && IsWs(pre) && Loose(v) && IsWs(post)
  }

  predicate LooseMembers(ms: Members) {
    match ms
    case FirstMember(pre, key, mid, gap, v, post) => GoodKey(pre, key, mid) && IsWs(gap) && Loose(v) && IsWs(post)
    case NextMember(init, pre, key, mid, gap, v, post) =>
      LooseMembers(init) && GoodKey(pre, key, mid) && IsWs(gap) && Loose(v) && IsWs(post)
  }

  /** A number in the value ends its point without a digit. */
  predicate HasBareFraction(v: Value) {
    match v
    case Num(n) => BareFraction(n)
    case Array(items) => ItemsBareFraction(items)
    case Object(ms) => MembersBareFraction(ms)
    case _ => false
  }

  predicate ItemsBareFraction(items: Items) {
    match items
    case FirstItem(_, v, _) => HasBareFraction(v)
    case NextItem(init, _, v, _) => ItemsBareFraction(init) || HasBareFraction(v)
  }

  predicate MembersBareFraction(ms: Members) {
    match ms
    case FirstMember(_, _, _, _, v, _) => HasBareFraction(v)
    case NextMember(init, _, _, _, _, v, _) => MembersBareFraction(init) || HasBareFraction(v)
  }

  lemma {:induction false} ValueReads(v: Value)
    requires Loose(v)
    ensures Reads(ValueText(v), HasBareFraction(v))
    decreases v, 0
  {
    hide Reads, LooseNumber, NumberText, Quoted, IsWs;
    match v
    case Text(us) => QuotedReads(us);
    case Num(n) => NumberReads(n);
    case Lit(w) => WordReads(w);
    case EmptyArray(ws) =>
      BlanksRead(ws);
      BracketsRead(91, ws, 93, false);
    case Array(items) =>
      ItemsRead(items);
      BracketsRead(91, ItemsText(items), 93, ItemsBareFraction(items));
    case EmptyObject(ws) =>
      BlanksRead(ws);
      BracketsRead(123, ws, 125, false);
    case Object(ms) =>
      MembersRead(ms);
      BracketsRead(123, MembersText(ms), 125, MembersBareFraction(ms));
  }

  lemma WordReads(w: Word)
    ensures Reads(WordText(w), false)
  {
    Quiet(WordText(w));
  }

  lemma BracketsRead(open: byte, inner: bytes, close: byte, bare: bool)
    requires Reads(inner, bare) && open in {91, 123} && close in {93, 125}
    ensures Reads([open] + inner + [close], bare)
  {
    Quiet([open]);
    Quiet([close]);
    MarkIsNoDigit();
    hide Reads;
    Joined([open], inner, false, bare);
    Joined([open] + inner, [close], bare, false);
  }

  /** A value between whitespace. */
  lemma {:induction false} PaddedReads(pre: bytes, v: Value, post: bytes)
    requires IsWs(pre) && Loose(v) && IsWs(post)
    ensures Reads(pre + ValueText(v) + post, HasBareFraction(v))
    decreases v, 1
  {
    hide Reads, IsWs, Loose, ValueText, HasBareFraction;
    BlanksRead(pre);
    BlanksRead(post);
    ValueReads(v);
    Joined(pre, ValueText(v), false, HasBareFraction(v));
    Joined(pre + ValueText(v), post, HasBareFraction(v), false);
  }

  lemma CommaReads(init: bytes, rest: bytes, x: bool, y: bool)
    requires Reads(init, x) && Reads(rest, y)
    ensures Reads(init + [44] + rest, x || y)
  {
    Quiet([44]);
    MarkIsNoDigit();
    hide Reads;
    Joined([44], rest, false, y);
    Joined(init, [44] + rest, x, y);
    assert init + [44] + rest == init + ([44] + rest);
  }

  lemma {:induction false} ItemsRead(items: Items)
    requires LooseItems(items)
    ensures Reads(ItemsText(items), ItemsBareFraction(items))
    decreases items, 0
  {
    hide Reads, IsWs, Loose, ValueText, HasBareFraction;
    match items
    case FirstItem(pre, v, post) => PaddedReads(pre, v, post);
    case NextItem(init, pre, v, post) =>
      ItemsRead(init);
      PaddedReads(pre, v, post);
      CommaReads(ItemsText(init), pre + ValueText(v) + post, ItemsBareFraction(init), HasBareFraction(v));
  }

  lemma KeyReads(pre: bytes, key: seq<Unit>, mid: bytes)
    requires GoodKey(pre, key, mid)
    ensures Reads(KeyText(pre, key, mid), false)
  {
    BlanksRead(pre);
    BlanksRead(mid);
    QuotedReads(key);
    Quiet([58]);
    hide Reads, Quoted, IsWs;
    Joined(pre, Quoted(key), false, false);
    Joined(pre + Quoted(key), mid, false, false);
    Joined(pre + Quoted(key) + mid, [58], false, false);
  }

  lemma {:induction false} MemberReads(pre: bytes, key: seq<Unit>, mid: bytes, gap: bytes, v: Value, post: bytes)
    requires GoodKey(pre, key, mid) && IsWs(gap) && Loose(v) && IsWs(post)
    ensures Reads(KeyText(pre, key, mid) + (gap + ValueText(v) + post), HasBareFraction(v))
    decreases v, 2
  {
    hide Reads, IsWs, GoodKey, KeyText, Loose, ValueText, HasBareFraction;
    KeyReads(pre, key, mid);
    PaddedReads(gap, v, post);
    Joined(KeyText(pre, key, mid), gap + ValueText(v) + post, false, HasBareFraction(v));
  }

  lemma {:induction false} MembersRead(ms: Members)
    requires LooseMembers(ms)
    ensures Reads(MembersText(ms), MembersBareFraction(ms))
    decreases ms, 0
  {
    hide Reads, IsWs, GoodKey, KeyText, Loose, ValueText, HasBareFraction;
    match ms
    case FirstMember(pre, key, mid, gap, v, post) => MemberReads(pre, key, mid, gap, v, post);
    case NextMember(init, pre, key, mid, gap, v, post) =>
      MembersRead(init);
      MemberReads(pre, key, mid, gap, v, post);
      CommaReads(MembersText(init), KeyText(pre, key, mid) + (gap + ValueText(v) + post),
                 MembersBareFraction(init), HasBareFraction(v));
  }

  // ---- The two grammars ----

  lemma GoodIsLooseNumber(n: Number)
    ensures GoodNumber(n) ==> LooseNumber(n) && (StandardNumber(n) <==> !BareFraction(n))
    ensures StandardNumber(n) ==> LooseNumber(n) && !BareFraction(n)
  {
    hide AllDigits;
  }

  lemma {:induction false} GoodIsLoose(v: Value)
    ensures Good(v) ==> Loose(v) && (Standard(v) <==> !HasBareFraction(v))
    ensures Standard(v) ==> Loose(v) && !HasBareFraction(v)
    decreases v
  {
    hide GoodNumber, StandardNumber, LooseNumber, BareFraction, IsWs;
    match v
    case Num(n) => GoodIsLooseNumber(n);
    case Array(items) => GoodItemsLoose(items);
    case Object(ms) => GoodMembersLoose(ms);
    case _ =>
  }

  lemma {:induction false} GoodItemsLoose(items: Items)
    ensures GoodItems(items) ==> LooseItems(items) && (StandardItems(items) <==> !ItemsBareFraction(items))
    ensures StandardItems(items) ==> LooseItems(items) && !ItemsBareFraction(items)
    decreases items
  {
    hide Good, Standard, Loose, HasBareFraction, IsWs;
    match items
    case FirstItem(_, v, _) => GoodIsLoose(v);
    case NextItem(init, _, v, _) =>
      GoodItemsLoose(init);
      GoodIsLoose(v);
  }

  lemma {:induction false} GoodMembersLoose(ms: Members)
    ensures GoodMembers(ms) ==> LooseMembers(ms) && (StandardMembers(ms) <==> !MembersBareFraction(ms))
    ensures StandardMembers(ms) ==> LooseMembers(ms) && !MembersBareFraction(ms)
    decreases ms
  {
    hide Good, Standard, Loose, HasBareFraction, IsWs, GoodKey;
    match ms
    case FirstMember(_, _, _, _, v, _) => GoodIsLoose(v);
    case NextMember(init, _, _, _, _, v, _) =>
      GoodMembersLoose(init);
      GoodIsLoose(v);
  }

  /** A text of RFC 8259. */
  ghost predicate IsStandardText(s: bytes) {
    exists lead, v, trail :: IsWs(lead) && Standard(v) && IsWs(trail) && s == lead + ValueText(v) + trail
  }

  /** For every byte string that the checker accepts: it is a text of RFC 8259 if and only if every point
      outside its strings has a digit behind it. */
  lemma LanguageIsStandard(s: bytes)
    requires InLanguage(s)
    ensures IsStandardText(s) <==> !BarePoint(Outside, s)
  {
    hide IsWs, Standard, Loose, HasBareFraction, ValueText, BarePoint, After;
    var lead, v, trail :| IsWs(lead) && IsDocument(v) && IsWs(trail) && s == lead + ValueText(v) + trail;
    GoodIsLoose(v);
    PaddedReads(lead, v, trail);
    forall a, w, b | IsWs(a) && Standard(w) && IsWs(b) && s == a + ValueText(w) + b
      ensures !BarePoint(Outside, s)
    {
      GoodIsLoose(w);
      PaddedReads(a, w, b);
    }
  }
}
