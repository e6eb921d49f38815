/**
 The language the transition table implements, as concrete syntax trees.
 It differs from section 6 of RFC 8259: a fraction may have no digits ("1.",
 "1.e5"), an exponent may not follow a bare zero ("0e1"), and any byte from
 0x7f up may stand in a string.
 */
module JsonGrammar {
  import opened Bytes
  import opened JsonBytes

  datatype Exponent = Exponent(mark: byte, sign: Option<byte>, digits: bytes)

  datatype Number = Number(minus: bool, whole: bytes, frac: Option<bytes>, exp: Option<Exponent>)

  /** One character of a string as written: itself, a backslash escape, or \u and hex digits. */
  datatype Unit = Plain(b: byte) | Escape(b: byte) | Unicode(hex: bytes)

  datatype Word = True | False | Null

  /** A value with the whitespace inside it; `ws` is the inside of empty brackets. */
  datatype Value =
    | Text(units: seq<Unit>)
    | Num(n: Number)
    | Lit(w: Word)
    | EmptyArray(ws: bytes)
    | Array(items: Items)
    | EmptyObject(ws: bytes)
    | Object(members: Members)

  /** A non-empty comma-separated list, grown at the right. */
  datatype Items =
    | FirstItem(pre: bytes, v: Value, post: bytes)
    | NextItem(init: Items, pre: bytes, v: Value, post: bytes)

  /** Members: whitespace `pre`, a key, whitespace `mid`, a colon, whitespace `gap`, a value, whitespace `post`. */
  datatype Members =
    | FirstMember(pre: bytes, key: seq<Unit>, mid: bytes, gap: bytes, v: Value, post: bytes)
    | NextMember(init: Members, pre: bytes, key: seq<Unit>, mid: bytes, gap: bytes, v: Value, post: bytes)

  // ---- Printing ----

  function WordText(w: Word): bytes {
    match w
    case True => [116, 114, 117, 101]
    case False => [102, 97, 108, 115, 101]
    case Null => [110, 117, 108, 108]
  }

  function UnitText(u: Unit): bytes {
    match u
    case Plain(b) => [b]
    case Escape(b) => [92, b]
    case Unicode(hex) => [92, 117] + hex
  }

  function UnitsText(us: seq<Unit>): bytes {
    if us == [] then [] else UnitsText(us[..|us| - 1]) + UnitText(us[|us| - 1])
  }

  function Quoted(us: seq<Unit>): bytes { [34] + UnitsText(us) + [34] }

  function ExponentText(e: Exponent): bytes {
    [e.mark] + (if e.sign.Some? then [e.sign.value] else []) + e.digits
  }

  function NumberText(n: Number): bytes {
    (if n.minus then [45] else []) + n.whole
    + (if n.frac.Some? then [46] + n.frac.value else [])
    + (if n.exp.Some? then ExponentText(n.exp.value) else [])
  }

  function ValueText(v: Value): bytes {
    match v
    case Text(us) => Quoted(us)
    case Num(n) => NumberText(n)
    case Lit(w) => WordText(w)
    case EmptyArray(ws) => [91] + ws + [93]
    case Array(items) => [91] + ItemsText(items) + [93]
    case EmptyObject(ws) => [123] + ws + [125]
    case Object(ms) => [123] + MembersText(ms) + [125]
  }

  function ItemsText(items: Items): bytes {
    match items
    case FirstItem(pre, v, post) => pre + ValueText(v) + post
    case NextItem(init, pre, v, post) => ItemsText(init) + [44] + (pre + ValueText(v) + post)
  }

  function KeyText(pre: bytes, key: seq<Unit>, mid: bytes): bytes { pre + Quoted(key) + mid + [58] }

  function MembersText(ms: Members): bytes {
    match ms
    case FirstMember(pre, key, mid, gap, v, post) => KeyText(pre, key, mid) + (gap + ValueText(v) + post)
    case NextMember(init, pre, key, mid, gap, v, post) =>
      MembersText(init) + [44] + (KeyText(pre, key, mid) + (gap + ValueText(v) + post))
  }

  // ---- Well-formedness ----

  predicate IsWs(s: bytes) { forall i :: 0 <= i < |s| ==> WsByte(s[i]) }

  predicate AllDigits(s: bytes) { forall i :: 0 <= i < |s| ==> DigitByte(s[i]) }

  predicate AllHex(s: bytes) { forall i :: 0 <= i < |s| ==> HexByte(s[i]) }

  predicate GoodUnit(u: Unit) {
    match u
    case Plain(b) => PlainByte(b)
    case Escape(b) => b in {34, 92, 47, 98, 102, 110, 114, 116}
    case Unicode(hex) => |hex| == 4 && AllHex(hex)
  }

  predicate GoodUnits(us: seq<Unit>) { forall i :: 0 <= i < |us| ==> GoodUnit(us[i]) }

  /** A number as far as it is written: `whole` may be missing after the sign,
      and the exponent may still lack its sign and digits. */
  predicate GoodNumberPrefix(n: Number) {
    && AllDigits(n.whole)
    && (|n.whole| > 1 ==> n.whole[0] != 48)
    && (n.whole == [] ==> n.minus && n.frac.None? && n.exp.None?)
    && (n.frac.Some? ==> AllDigits(n.frac.value))
    && (n.exp.Some? ==>
          && (n.whole == [48] ==> n.frac.Some?)
          && n.exp.value.mark in {69, 101}
          && (n.exp.value.sign.Some? ==> n.exp.value.sign.value in {43, 45})
          && AllDigits(n.exp.value.digits))
  }

  predicate GoodNumber(n: Number) {
    GoodNumberPrefix(n) && n.whole != [] && (n.exp.Some? ==> n.exp.value.digits != [])
  }

  predicate Good(v: Value) {
    match v
    case Text(us) => GoodUnits(us)
    case Num(n) => GoodNumber(n)
    case Lit(_) => true
    case EmptyArray(ws) => IsWs(ws)
    case Array(items) => GoodItems(items)
    case EmptyObject(ws) => IsWs(ws)
    case Object(ms) => GoodMembers(ms)
  }

  predicate GoodItems(items: Items) {
    match items
    case FirstItem(pre, v, post) => IsWs(pre) && Good(v) && IsWs(post)
    case NextItem(init, pre, v, post) => GoodItems(init) && IsWs(pre) && Good(v) && IsWs(post)
  }

  predicate GoodKey(pre: bytes, key: seq<Unit>, mid: bytes) { IsWs(pre) && GoodUnits(key) && IsWs(mid) }

  predicate GoodMembers(ms: Members) {
    match ms
    case FirstMember(pre, key, mid, gap, v, post) => GoodKey(pre, key, mid) && IsWs(gap) && Good(v) && IsWs(post)
    case NextMember(init, pre, key, mid, gap, v, post) =>
      GoodMembers(init) && GoodKey(pre, key, mid) && IsWs(gap) && Good(v) && IsWs(post)
  }

  // ---- Measures ----

  function Max(a: nat, b: nat): nat { if a < b then b else a }

  /** Bracket nesting. */
  function Depth(v: Value): nat {
    match v
    case Text(_) => 0
    case Num(_) => 0
    case Lit(_) => 0
    case EmptyArray(_) => 1
    case Array(items) => 1 + ItemsDepth(items)
    case EmptyObject(_) => 1
    case Object(ms) => 1 + MembersDepth(ms)
  }

  function ItemsDepth(items: Items): nat {
    match items
    case FirstItem(_, v, _) => Depth(v)
    case NextItem(init, _, v, _) => Max(ItemsDepth(init), Depth(v))
  }

  function MembersDepth(ms: Members): nat {
    match ms
    case FirstMember(_, _, _, _, v, _) => Depth(v)
    case NextMember(init, _, _, _, _, v, _) => Max(MembersDepth(init), Depth(v))
  }

  /** The number of separating commas. */
  function Commas(v: Value): nat {
    match v
    case Array(items) => ItemsCommas(items)
    case Object(ms) => MembersCommas(ms)
    case _ => 0
  }

  function ItemsCommas(items: Items): nat {
    match items
    case FirstItem(_, v, _) => Commas(v)
    case NextItem(init, _, v, _) => ItemsCommas(init) + 1 + Commas(v)
  }

  function MembersCommas(ms: Members): nat {
    match ms
    case FirstMember(_, _, _, _, v, _) => Commas(v)
    case NextMember(init, _, _, _, _, v, _) => MembersCommas(init) + 1 + Commas(v)
  }

  predicate IsContainer(v: Value) { v.EmptyArray? || v.Array? || v.EmptyObject? || v.Object? }

  /** A document body: one array or object nested at most 255 deep. */
  predicate IsDocument(v: Value) { IsContainer(v) && Good(v) && Depth(v) <= 255 }
}
