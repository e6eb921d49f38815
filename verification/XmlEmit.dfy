/** `_emit` of `python/xmltodict.py`, and what parsing its output gives back. */
module XmlEmit {
  import opened Bytes
  import opened XmlTree
  import opened XmlNormal
  import XmlDocuments

  /** The options of `unparse`, and the text Python makes of a value, which is written for a list directly in a list. */
  datatype Format = Format(pretty: bool, newl: string, indent: string, str: Value -> string)

  function Repeat(s: string, n: nat): string { if n == 0 then "" else s + Repeat(s, n - 1) }

  // ---- The tree a value is written as ----

  function AttrsOf(es: seq<Entry>): seq<Attr> {
    if es == [] then []
    else
      var e := es[|es| - 1];
      AttrsOf(es[..|es| - 1]) + if IsAttrKey(e.key) && e.value.Str? then [Attr(e.key[1..], e.value.s)] else []
  }

  /** The text of a dictionary: that of its last text entry. */
  function CDataOf(es: seq<Entry>): Option<string> {
    if es == [] then None
    else
      var e := es[|es| - 1];
      if e.key == TEXT_KEY then if e.value.Str? then Some(e.value.s) else None
      else CDataOf(es[..|es| - 1])
  }

  function Children(es: seq<Entry>): seq<Entry> {
    if es == [] then []
    else Children(es[..|es| - 1]) + if IsChildKey(es[|es| - 1].key) then [es[|es| - 1]] else []
  }

  function Blank(on: bool, s: string): seq<Node> { if on then [Chars(s)] else [] }

  /** The element for one value. */
  function ElementNode(key: string, v: Value, depth: nat, fmt: Format): (n: Node)
    ensures n.Element? && n.name == key
    decreases v, 1
  {
    match v
    case Str(s) => Element(key, [], [Chars(s)])
    case Dict(es) =>
      var spaced := fmt.pretty && Children(es) != [];
      Element(key, AttrsOf(es),
              Blank(spaced, fmt.newl) + ChildNodes(es, depth + 1, fmt)
              + (if CDataOf(es).Some? then [Chars(CDataOf(es).value)] else [])
              + Blank(spaced, Repeat(fmt.indent, depth)))
    case Nil => Element(key, [], [])
    case List(_) => Element(key, [], [Chars(fmt.str(v))])
  }

  /** An element with the whitespace written around it. */
  function Padded(key: string, v: Value, depth: nat, fmt: Format): seq<Node>
    decreases v, 2
  {
    Blank(fmt.pretty, Repeat(fmt.indent, depth)) + [ElementNode(key, v, depth, fmt)]
    + Blank(fmt.pretty && depth > 0, fmt.newl)
  }

  function ItemNodes(key: string, vs: seq<Value>, depth: nat, fmt: Format): seq<Node>
    decreases vs, 0
  {
    if vs == [] then [] else Padded(key, vs[0], depth, fmt) + ItemNodes(key, vs[1..], depth, fmt)
  }

  function ValueNodes(key: string, v: Value, depth: nat, fmt: Format): seq<Node>
    decreases v, 3
  {
    if v.List? then ItemNodes(key, v.items, depth, fmt) else Padded(key, v, depth, fmt)
  }

  function ChildNodes(es: seq<Entry>, depth: nat, fmt: Format): seq<Node>
    decreases es, 0
  {
    if es == [] then []
    else
      (if IsChildKey(es[0].key) then ValueNodes(es[0].key, es[0].value, depth, fmt) else [])
      + ChildNodes(es[1..], depth, fmt)
  }

  // ---- Reading the tree back ----

  predicate Spaces(fmt: Format) { AllSpace(fmt.newl) && AllSpace(fmt.indent) }

  lemma {:induction false} RepeatSpace(s: string, n: nat)
    requires AllSpace(s)
    ensures AllSpace(Repeat(s, n))
  {
    if n > 0 {
      RepeatSpace(s, n - 1);
    }
  }

  lemma {:induction false} GatherConcat(g: Gathered, a: seq<Node>, b: seq<Node>)
    ensures Gather(g, a + b) == Gather(Gather(g, a), b)
    decreases |a|
  {
    hide Absorb;
    if a == [] {
      assert a + b == b;
    } else {
      assert (a + b)[1..] == a[1..] + b;
      GatherConcat(Absorb(g, a[0]), a[1..], b);
    }
  }

  lemma GatherOne(g: Gathered, n: Node)
    ensures Gather(g, [n]) == Absorb(g, n)
  {
    hide Absorb;
    assert [n][1..] == [];
    assert Gather(Absorb(g, n), []) == Absorb(g, n);
  }

  /** `t` followed by whitespace only. */
  ghost predicate Spaced(s: string, t: string) { s <= t && AllSpace(t[|s|..]) }

  lemma SpacedTrans(s: string, t: string, u: string)
    requires Spaced(s, t) && Spaced(t, u)
    ensures Spaced(s, u)
  {
    assert u[|s|..] == t[|s|..] + u[|t|..];
  }

  /** `g` with `added` entries and only whitespace more. */
  ghost predicate Grown(g: Gathered, h: Gathered, added: seq<Entry>) {
    h.entries == g.entries + added && Spaced(g.text, h.text)
  }

  lemma GrownTrans(g: Gathered, h: Gathered, k: Gathered, a: seq<Entry>, b: seq<Entry>)
    requires Grown(g, h, a) && Grown(h, k, b)
    ensures Grown(g, k, a + b)
  {
    SpacedTrans(g.text, h.text, k.text);
  }

  lemma GatherBlank(g: Gathered, on: bool, s: string)
    requires AllSpace(s)
    ensures Grown(g, Gather(g, Blank(on, s)), [])
  {
    if on {
      GatherOne(g, Chars(s));
    }
  }

  lemma {:induction false} GatherPadded(g: Gathered, key: string, v: Value, depth: nat, fmt: Format)
    requires Normal(v) && Spaces(fmt)
    ensures var h := Gather(g, Padded(key, v, depth, fmt));
      h.entries == Push(g.entries, key, Canon(v)) && Spaced(g.text, h.text)
    decreases v, 2
  {
    hide Gather, Push, Canon, Spaced;
    var lead := Blank(fmt.pretty, Repeat(fmt.indent, depth));
    var e := ElementNode(key, v, depth, fmt);
    var trail := Blank(fmt.pretty && depth > 0, fmt.newl);
    RepeatSpace(fmt.indent, depth);
    GatherBlank(g, fmt.pretty, Repeat(fmt.indent, depth));
    GatherConcat(g, lead + [e], trail);
    GatherConcat(g, lead, [e]);
    var g1 := Gather(g, lead);
    ElementMeaning(key, v, depth, fmt);
    GatherOne(g1, e);
    var g2 := Gather(g1, [e]);
    GatherBlank(g2, fmt.pretty && depth > 0, fmt.newl);
    SpacedTrans(g.text, g1.text, Gather(g2, trail).text);
    assert g1.entries == g.entries + [] == g.entries;
  }

  /** What the list entry under a key is after some of its elements. */
  function Lump(cs: seq<Value>): Value
    requires cs != []
  {
    if |cs| == 1 then cs[0] else List(cs)
  }

  lemma PushNew(d: seq<Entry>, key: string, v: Value)
    requires !HasKey(d, key)
    ensures Push(d, key, v) == d + [Entry(key, v)]
  {
    XmlDocuments.IndexMissing(d, key);
  }

  lemma PushLump(d: seq<Entry>, key: string, cs: seq<Value>, v: Value)
    requires !HasKey(d, key) && cs != [] && !cs[0].List?
    ensures Push(d + [Entry(key, Lump(cs))], key, v) == d + [Entry(key, Lump(cs + [v]))]
  {
    var all := d + [Entry(key, Lump(cs))];
    assert all[|d|].key == key;
    assert forall i :: 0 <= i < |d| ==> all[i] == d[i];
    assert IndexOf(all, key) == |d| by {
      var i := IndexOf(all, key);
      XmlDocuments.IndexMissing(all, key);
      assert HasKey(all, key);
      assert i < |d| ==> HasKey(d, key);
    }
    if |cs| == 1 {
      assert cs + [v] == [cs[0], v];
    }
  }

  lemma GatherNone(g: Gathered)
    ensures Gather(g, []) == g && Spaced(g.text, g.text)
  {}

  /** The remaining elements of a list join the entry of the first ones. */
  lemma {:induction false} GatherItems(d: seq<Entry>, text: string, key: string, cs: seq<Value>, vs: seq<Value>,
                                       depth: nat, fmt: Format)
    requires !HasKey(d, key) && cs != [] && !cs[0].List? && Spaces(fmt)
    requires forall i :: 0 <= i < |vs| ==> Normal(vs[i])
    ensures var h := Gather(Gathered(d + [Entry(key, Lump(cs))], text), ItemNodes(key, vs, depth, fmt));
      h.entries == d + [Entry(key, Lump(cs + CanonList(vs)))] && Spaced(text, h.text)
    decreases vs, 0
  {
    hide Gather, Push, Canon, Padded, Lump;
    var g := Gathered(d + [Entry(key, Lump(cs))], text);
    if vs == [] {
      GatherNone(g);
      assert cs + CanonList(vs) == cs;
    } else {
      var c := Canon(vs[0]);
      GatherPadded(g, key, vs[0], depth, fmt);
      GatherConcat(g, Padded(key, vs[0], depth, fmt), ItemNodes(key, vs[1..], depth, fmt));
      PushLump(d, key, cs, c);
      var g1 := Gather(g, Padded(key, vs[0], depth, fmt));
      GatherItems(d, g1.text, key, cs + [c], vs[1..], depth, fmt);
      assert cs + [c] + CanonList(vs[1..]) == cs + CanonList(vs);
      SpacedTrans(text, g1.text, Gather(g1, ItemNodes(key, vs[1..], depth, fmt)).text);
    }
  }

  lemma {:induction false} GatherField(g: Gathered, key: string, v: Value, depth: nat, fmt: Format)
    requires NormalField(key, v) && IsChildKey(key) && !HasKey(g.entries, key) && Spaces(fmt)
    ensures Grown(g, Gather(g, ValueNodes(key, v, depth, fmt)), [Entry(key, Canon(v))])
    decreases v, 3
  {
    hide Gather, Push, Padded, Spaced;
    if v.List? {
      var vs := v.items;
      var c := Canon(vs[0]);
      GatherPadded(g, key, vs[0], depth, fmt);
      PushNew(g.entries, key, c);
      GatherConcat(g, Padded(key, vs[0], depth, fmt), ItemNodes(key, vs[1..], depth, fmt));
      var g1 := Gather(g, Padded(key, vs[0], depth, fmt));
      assert Lump([c]) == c;
      GatherItems(g.entries, g1.text, key, [c], vs[1..], depth, fmt);
      assert [c] + CanonList(vs[1..]) == CanonList(vs);
      SpacedTrans(g.text, g1.text, Gather(g1, ItemNodes(key, vs[1..], depth, fmt)).text);
    } else {
      GatherPadded(g, key, v, depth, fmt);
      PushNew(g.entries, key, Canon(v));
    }
  }

  lemma {:induction false} GatherChildren(g: Gathered, es: seq<Entry>, depth: nat, fmt: Format)
    requires NormalEntries(es) && UniqueKeys(es) && Spaces(fmt)
    requires forall i :: 0 <= i < |es| && IsChildKey(es[i].key) ==> !HasKey(g.entries, es[i].key)
    ensures Grown(g, Gather(g, ChildNodes(es, depth, fmt)), ChildPart(es))
    decreases es, 0
  {
    if es != [] {
      var e, rest := es[0], es[1..];
      var first := if IsChildKey(e.key) then ValueNodes(e.key, e.value, depth, fmt) else [];
      var part := if IsChildKey(e.key) then [Entry(e.key, Canon(e.value))] else [];
      assert NormalField(e.key, e.value);
      GatherConcat(g, first, ChildNodes(rest, depth, fmt));
      if IsChildKey(e.key) {
        GatherField(g, e.key, e.value, depth, fmt);
      }
      var g1 := Gather(g, first);
      assert Grown(g, g1, part);
      assert forall i :: 0 <= i < |rest| ==> rest[i] == es[i + 1];
      forall i | 0 <= i < |rest| && IsChildKey(rest[i].key) ensures !HasKey(g1.entries, rest[i].key) {
        assert es[i + 1].key != e.key;
        KeyAfter(g.entries, part, rest[i].key);
      }
      GatherChildren(g1, rest, depth, fmt);
      GrownTrans(g, g1, Gather(g1, ChildNodes(rest, depth, fmt)), part, ChildPart(rest));
    }
  }

  lemma KeyAfter(d: seq<Entry>, part: seq<Entry>, key: string)
    requires !HasKey(d, key) && forall i :: 0 <= i < |part| ==> part[i].key != key
    ensures !HasKey(d + part, key)
  {}

  /** The last entry and those before it. */
  lemma LastEntry(es: seq<Entry>)
    requires es != [] && NormalEntries(es) && UniqueKeys(es)
    ensures var init, e := es[..|es| - 1], es[|es| - 1];
      && NormalEntries(init) && UniqueKeys(init) && es == init + [e]
      && !HasKey(init, e.key) && NormalField(e.key, e.value)
  {
    hide NormalField;
  }

  lemma {:induction false} AttrEntriesOf(es: seq<Entry>)
    requires NormalEntries(es) && UniqueKeys(es)
    ensures AttrEntries(AttrsOf(es)) == AttrPart(es)
  {
    if es != [] {
      hide AttrPart, NormalField, NormalEntries, UniqueKeys, HasKey;
      var init, e := es[..|es| - 1], es[|es| - 1];
      LastEntry(es);
      AttrEntriesOf(init);
      AttrPartSnoc(init, e);
      if IsAttrKey(e.key) {
        AttrIsString(e);
        PartsKeys(init, e.key);
        AssignAttr(AttrsOf(init), e);
      } else {
        assert AttrsOf(es) == AttrsOf(init);
      }
    }
  }

  lemma AttrIsString(e: Entry)
    requires NormalField(e.key, e.value) && IsAttrKey(e.key)
    ensures e.value.Str?
  {}

  lemma AssignAttr(attrs: seq<Attr>, e: Entry)
    requires IsAttrKey(e.key) && e.value.Str? && !HasKey(AttrEntries(attrs), e.key)
    ensures AttrEntries(attrs + [Attr(e.key[1..], e.value.s)]) == AttrEntries(attrs) + [e]
  {
    var a := Attr(e.key[1..], e.value.s);
    assert (attrs + [a])[..|attrs + [a]| - 1] == attrs;
    assert "@" + a.name == e.key;
    XmlDocuments.IndexMissing(AttrEntries(attrs), e.key);
  }

  lemma {:induction false} AttrPartSnoc(es: seq<Entry>, e: Entry)
    ensures AttrPart(es + [e]) == AttrPart(es) + if IsAttrKey(e.key) then [e] else []
  {
    if es != [] {
      assert (es + [e])[1..] == es[1..] + [e];
      AttrPartSnoc(es[1..], e);
    }
  }

  lemma {:induction false} TextPartSnoc(es: seq<Entry>, e: Entry)
    ensures TextPart(es + [e]) == TextPart(es) + if e.key == TEXT_KEY then [e] else []
  {
    if es != [] {
      assert (es + [e])[1..] == es[1..] + [e];
      TextPartSnoc(es[1..], e);
    }
  }

  lemma NoKeyNoPart(part: seq<Entry>)
    requires |part| <= 1 && (part != [] ==> part[0].key == TEXT_KEY)
    ensures !HasKey(part, TEXT_KEY) ==> part == []
  {}

  lemma TextIsString(e: Entry)
    requires NormalField(e.key, e.value) && e.key == TEXT_KEY
    ensures e.value.Str? && Trimmed(e.value.s)
  {}

  /** A dictionary has at most one text, which `CDataOf` finds. */
  lemma {:induction false} TextPartOf(es: seq<Entry>)
    requires NormalEntries(es) && UniqueKeys(es)
    ensures TextPart(es) == if CDataOf(es).Some? then [Entry(TEXT_KEY, Str(CDataOf(es).value))] else []
    ensures CDataOf(es).Some? ==> Trimmed(CDataOf(es).value)
  {
    if es != [] {
      hide TextPart, NormalField, Trimmed, NormalEntries, UniqueKeys, HasKey;
      var init, e := es[..|es| - 1], es[|es| - 1];
      LastEntry(es);
      TextPartOf(init);
      TextPartSnoc(init, e);
      if e.key == TEXT_KEY {
        TextIsString(e);
        PartsKeys(init, TEXT_KEY);
        NoKeyNoPart(TextPart(init));
      } else {
        assert TextPart(es) == TextPart(init);
      }
    }
  }

  lemma {:induction false} PartsNonEmpty(es: seq<Entry>, i: nat)
    requires i < |es| && es[i].key != TEXT_KEY
    ensures AttrPart(es) + ChildPart(es) != []
  {
    if i > 0 {
      PartsNonEmpty(es[1..], i - 1);
    }
  }

  /** Text that is stripped, between whitespace, completes the entries. */
  lemma FinishPadded(entries: seq<Entry>, text: string, before: string, cdata: Option<string>)
    requires entries != [] && !HasKey(entries, TEXT_KEY) && AllSpace(before)
    requires Spaced(before + if cdata.Some? then cdata.value else "", text)
    requires cdata.Some? ==> Trimmed(cdata.value)
    ensures Finish(entries, text) ==
      Dict(entries + if cdata.Some? then [Entry(TEXT_KEY, Str(cdata.value))] else [])
  {
    hide Strip, Push;
    if cdata.Some? {
      var after := text[|before + cdata.value|..];
      assert text == before + cdata.value + after;
      StripPadded(before, cdata.value, after);
      PushNew(entries, TEXT_KEY, Str(cdata.value));
    } else {
      assert before + "" == before;
      assert text == before + text[|before|..];
      StripSpace(text);
      assert entries + [] == entries;
    }
  }

  /** Writing a value and reading the element back gives its canonical form. */
  lemma {:induction false} ElementMeaning(key: string, v: Value, depth: nat, fmt: Format)
    requires Normal(v) && Spaces(fmt)
    ensures Meaning(ElementNode(key, v, depth, fmt)) == Canon(v)
    decreases v, 1
  {
    match v {
      case Nil => StripSpace("");
      case Str(s) =>
        GatherOne(Gathered([], ""), Chars(s));
        assert "" + s == s && "" + s + "" == s;
        StripPadded("", s, "");
      case Dict(es) => DictMeaning(key, es, depth, fmt);
    }
  }

  lemma {:induction false} DictMeaning(key: string, es: seq<Entry>, depth: nat, fmt: Format)
    requires Normal(Dict(es)) && Spaces(fmt)
    ensures Meaning(ElementNode(key, Dict(es), depth, fmt)) == Canon(Dict(es))
    decreases es, 1
  {
    hide Gather, Finish, Canon;
    var spaced := fmt.pretty && Children(es) != [];
    var lead, children := Blank(spaced, fmt.newl), ChildNodes(es, depth + 1, fmt);
    var text := if CDataOf(es).Some? then [Chars(CDataOf(es).value)] else [];
    var trail := Blank(spaced, Repeat(fmt.indent, depth));
    var g0 := Gathered(AttrPart(es), "");
    AttrEntriesOf(es);
    RepeatSpace(fmt.indent, depth);
    GatherConcat(g0, lead + children + text, trail);
    GatherConcat(g0, lead + children, text);
    GatherConcat(g0, lead, children);
    GatherBlank(g0, spaced, fmt.newl);
    var g1 := Gather(g0, lead);
    forall i | 0 <= i < |es| && IsChildKey(es[i].key) ensures !HasKey(g1.entries, es[i].key) {
      PartsKeys(es, es[i].key);
      assert g1.entries == g0.entries;
    }
    GatherChildren(g1, es, depth + 1, fmt);
    var g2 := Gather(g1, children);
    GrownTrans(g0, g1, g2, [], ChildPart(es));
    assert [] + ChildPart(es) == ChildPart(es);
    GatherText(g2, CDataOf(es));
    var g3 := Gather(g2, text);
    GatherBlank(g3, spaced, Repeat(fmt.indent, depth));
    var g4 := Gather(g3, trail);
    TextPartOf(es);
    var i :| 0 <= i < |es| && es[i].key != TEXT_KEY;
    PartsNonEmpty(es, i);
    var entries := AttrPart(es) + ChildPart(es);
    assert g4.entries == entries;
    assert !HasKey(entries, TEXT_KEY) by {
      PartsKeys(es, TEXT_KEY);
      KeyAfterAll(AttrPart(es), ChildPart(es), TEXT_KEY);
    }
    assert AllSpace(g2.text) by {
      assert g2.text[|g0.text|..] == g2.text;
    }
    FinishPadded(entries, g4.text, g2.text, CDataOf(es));
    CanonDict(es);
  }

  lemma CanonDict(es: seq<Entry>)
    ensures Canon(Dict(es)) == Dict(AttrPart(es) + ChildPart(es) + TextPart(es))
  {}

  lemma KeyAfterAll(a: seq<Entry>, b: seq<Entry>, key: string)
    requires !HasKey(a, key) && !HasKey(b, key)
    ensures !HasKey(a + b, key)
  {}

  lemma GatherText(g: Gathered, cdata: Option<string>)
    ensures Gather(g, if cdata.Some? then [Chars(cdata.value)] else [])
         == g.(text := g.text + if cdata.Some? then cdata.value else "")
  {
    if cdata.Some? {
      GatherOne(g, Chars(cdata.value));
    } else {
      assert g.text + "" == g.text;
    }
  }
}
