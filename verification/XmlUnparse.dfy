/** The recursive emitter over a content handler, and `parse` after `unparse`. */
module XmlUnparse {
  import opened Bytes
  import opened XmlTree
  import opened XmlNormal
  import opened XmlHandler
  import opened XmlEmit
  import XmlDocuments

  /** The receiver of the output; whitespace it is told to ignore is text when read back. */
  class ContentHandler {
    var events: seq<Event>

    constructor ()
      ensures events == []
    {
      events := [];
    }

    method StartElement(name: string, attrs: seq<Attr>)
      modifies this
      ensures events == old(events) + [Start(name, attrs)]
    {
      events := events + [Start(name, attrs)];
    }

    method EndElement(name: string)
      modifies this
      ensures events == old(events) + [End(name)]
    {
      events := events + [End(name)];
    }

    method Characters(s: string)
      modifies this
      ensures events == old(events) + [Event.Characters(s)]
    {
      events := events + [Event.Characters(s)];
    }

    method IgnorableWhitespace(s: string)
      modifies this
      ensures events == old(events) + [Event.Characters(s)]
    {
      events := events + [Event.Characters(s)];
    }
  }

  /** Values with strings for the attributes and text of dictionaries (text may be None),
      except in lists that are themselves written as text. */
  predicate Emittable(v: Value)
    decreases v, 0
  {
    match v
    case Nil => true
    case Str(_) => true
    case List(vs) => forall i :: 0 <= i < |vs| ==> vs[i].List? || Emittable(vs[i])
    case Dict(es) => forall i :: 0 <= i < |es| ==> EmittableField(es[i].key, es[i].value)
  }

  predicate EmittableField(key: string, v: Value)
    decreases v, 1
  {
    if IsChildKey(key) then Emittable(v) else v.Str? || (key == TEXT_KEY && v.Nil?)
  }

  lemma {:induction false} NormalEmittable(v: Value)
    requires Normal(v)
    ensures Emittable(v)
    decreases v, 0
  {
    if v.Dict? {
      var es := v.entries;
      forall i | 0 <= i < |es| ensures EmittableField(es[i].key, es[i].value) {
        assert NormalField(es[i].key, es[i].value);
        FieldEmittable(es[i].key, es[i].value);
      }
    }
  }

  lemma {:induction false} FieldEmittable(key: string, v: Value)
    requires NormalField(key, v)
    ensures EmittableField(key, v)
    decreases v, 1
  {
    if IsChildKey(key) {
      if v.List? {
        forall i | 0 <= i < |v.items| ensures Emittable(v.items[i]) {
          NormalEmittable(v.items[i]);
        }
      } else {
        NormalEmittable(v);
      }
    }
  }

  lemma {:induction false} EventsConcat(a: seq<Node>, b: seq<Node>)
    ensures EventsOf(a + b) == EventsOf(a) + EventsOf(b)
  {
    hide NodeEvents;
    if a == [] {
      assert a + b == b;
    } else {
      assert (a + b)[1..] == a[1..] + b;
      EventsConcat(a[1..], b);
    }
  }

  lemma EventsOne(n: Node)
    ensures EventsOf([n]) == NodeEvents(n)
  {
    assert EventsOf([]) == [];
    assert [n][1..] == [];
  }

  /** What is written for the children in order. */
  function FieldEvents(cs: seq<Entry>, depth: nat, fmt: Format): seq<Event> {
    if cs == [] then []
    else
      var c := cs[|cs| - 1];
      FieldEvents(cs[..|cs| - 1], depth, fmt) + EventsOf(ValueNodes(c.key, c.value, depth, fmt))
  }

  lemma FieldEventsSnoc(cs: seq<Entry>, c: Entry, depth: nat, fmt: Format)
    ensures FieldEvents(cs + [c], depth, fmt)
         == FieldEvents(cs, depth, fmt) + EventsOf(ValueNodes(c.key, c.value, depth, fmt))
  {
    assert (cs + [c])[..|cs + [c]| - 1] == cs;
  }

  lemma {:induction false} ChildNodesSnoc(es: seq<Entry>, e: Entry, depth: nat, fmt: Format)
    ensures ChildNodes(es + [e], depth, fmt)
         == ChildNodes(es, depth, fmt) + if IsChildKey(e.key) then ValueNodes(e.key, e.value, depth, fmt) else []
  {
    hide ValueNodes;
    if es == [] {
      assert [e][1..] == [] && [] + [e] == [e];
      assert ChildNodes([], depth, fmt) == [];
    } else {
      assert (es + [e])[1..] == es[1..] + [e];
      ChildNodesSnoc(es[1..], e, depth, fmt);
    }
  }

  lemma {:induction false} ChildEvents(es: seq<Entry>, depth: nat, fmt: Format)
    ensures EventsOf(ChildNodes(es, depth, fmt)) == FieldEvents(Children(es), depth, fmt)
  {
    if es != [] {
      hide ValueNodes, EventsOf, ChildNodes;
      var init, e := es[..|es| - 1], es[|es| - 1];
      assert es == init + [e];
      ChildEvents(init, depth, fmt);
      ChildNodesSnoc(init, e, depth, fmt);
      if IsChildKey(e.key) {
        EventsConcat(ChildNodes(init, depth, fmt), ValueNodes(e.key, e.value, depth, fmt));
        FieldEventsSnoc(Children(init), e, depth, fmt);
      } else {
        assert Children(es) == Children(init);
        assert ChildNodes(es, depth, fmt) == ChildNodes(init, depth, fmt);
      }
    } else {
      assert ChildNodes(es, depth, fmt) == [];
    }
  }

  function BlankEvent(on: bool, s: string): seq<Event> { if on then [Characters(s)] else [] }

  function CDataEvent(cdata: Option<string>): seq<Event> {
    if cdata.Some? then [Characters(cdata.value)] else []
  }

  /** Everything between the tags of a dictionary's element. */
  function InnerEvents(es: seq<Entry>, depth: nat, fmt: Format): seq<Event> {
    var spaced := fmt.pretty && Children(es) != [];
    BlankEvent(spaced, fmt.newl) + FieldEvents(Children(es), depth + 1, fmt)
    + CDataEvent(CDataOf(es)) + BlankEvent(spaced, Repeat(fmt.indent, depth))
  }

  lemma NodeEventsOf(key: string, es: seq<Entry>, depth: nat, fmt: Format)
    ensures NodeEvents(ElementNode(key, Dict(es), depth, fmt))
         == [Start(key, AttrsOf(es))] + InnerEvents(es, depth, fmt) + [End(key)]
  {
    hide EventsOf, ChildNodes, FieldEvents, Children, CDataOf, AttrsOf;
    var spaced := fmt.pretty && Children(es) != [];
    var a, b := Blank(spaced, fmt.newl), ChildNodes(es, depth + 1, fmt);
    var c := if CDataOf(es).Some? then [Chars(CDataOf(es).value)] else [];
    var d := Blank(spaced, Repeat(fmt.indent, depth));
    EventsConcat(a + b + c, d);
    EventsConcat(a + b, c);
    EventsConcat(a, b);
    ChildEvents(es, depth + 1, fmt);
    BlankEvents(spaced, fmt.newl);
    BlankEvents(spaced, Repeat(fmt.indent, depth));
    BlankEvents(CDataOf(es).Some?, if CDataOf(es).Some? then CDataOf(es).value else "");
  }

  lemma PaddedEvents(key: string, v: Value, depth: nat, fmt: Format)
    ensures EventsOf(Padded(key, v, depth, fmt)) ==
      BlankEvent(fmt.pretty, Repeat(fmt.indent, depth)) + NodeEvents(ElementNode(key, v, depth, fmt))
      + BlankEvent(fmt.pretty && depth > 0, fmt.newl)
  {
    hide EventsOf, NodeEvents, ElementNode;
    var lead, trail := Blank(fmt.pretty, Repeat(fmt.indent, depth)), Blank(fmt.pretty && depth > 0, fmt.newl);
    var n := ElementNode(key, v, depth, fmt);
    EventsConcat(lead + [n], trail);
    EventsConcat(lead, [n]);
    EventsOne(n);
    BlankEvents(fmt.pretty, Repeat(fmt.indent, depth));
    BlankEvents(fmt.pretty && depth > 0, fmt.newl);
  }

  /** Every value is written as a dictionary's element. */
  function AsDict(v: Value, fmt: Format): seq<Entry> {
    match v
    case Nil => []
    case Str(s) => [Entry(TEXT_KEY, v)]
    case List(_) => [Entry(TEXT_KEY, Str(fmt.str(v)))]
    case Dict(es) => es
  }

  lemma AsDictEvents(key: string, v: Value, depth: nat, fmt: Format)
    ensures NodeEvents(ElementNode(key, v, depth, fmt))
         == NodeEvents(ElementNode(key, Dict(AsDict(v, fmt)), depth, fmt))
  {
    var es := AsDict(v, fmt);
    NodeEventsOf(key, es, depth, fmt);
    if v.Str? || v.List? {
      var s := if v.Str? then v.s else fmt.str(v);
      assert es[..0] == [] && IsAttrKey(TEXT_KEY) == false;
      assert AttrsOf(es) == [] && Children(es) == [] && CDataOf(es) == Some(s);
      assert InnerEvents(es, depth, fmt) == [Characters(s)];
      EventsOne(Chars(s));
    }
  }

  lemma Flatten(base: seq<Event>, lead: seq<Event>, start: seq<Event>, b: seq<Event>, f: seq<Event>, c: seq<Event>,
                d: seq<Event>, end: seq<Event>, trail: seq<Event>)
    ensures base + lead + start + b + f + c + d + end + trail
         == base + (lead + (start + (b + f + c + d) + end) + trail)
  {}

  lemma BlankEvents(on: bool, s: string)
    ensures EventsOf(Blank(on, s)) == BlankEvent(on, s)
  {
    if on {
      EventsOne(Chars(s));
    }
  }

  lemma ItemNodesSnoc(key: string, vs: seq<Value>, v: Value, depth: nat, fmt: Format)
    ensures EventsOf(ItemNodes(key, vs + [v], depth, fmt))
         == EventsOf(ItemNodes(key, vs, depth, fmt)) + EventsOf(Padded(key, v, depth, fmt))
    decreases |vs|
  {
    hide EventsOf, Padded;
    if vs == [] {
      assert [v][1..] == [] && [] + [v] == [v];
      EventsNone();
      assert ItemNodes(key, [v], depth, fmt) == Padded(key, v, depth, fmt) + ItemNodes(key, [], depth, fmt);
      EventsConcat(Padded(key, v, depth, fmt), []);
    } else {
      assert (vs + [v])[1..] == vs[1..] + [v];
      ItemNodesSnoc(key, vs[1..], v, depth, fmt);
      EventsConcat(Padded(key, vs[0], depth, fmt), ItemNodes(key, vs[1..] + [v], depth, fmt));
      EventsConcat(Padded(key, vs[0], depth, fmt), ItemNodes(key, vs[1..], depth, fmt));
    }
  }

  lemma EventsNone()
    ensures EventsOf([]) == []
  {}

  /** The loop over a dictionary's entries: attributes, children and text apart. */
  method Sort(es: seq<Entry>) returns (attrs: seq<Attr>, children: seq<Entry>, cdata: Option<string>)
    requires forall i :: 0 <= i < |es| ==> EmittableField(es[i].key, es[i].value)
    ensures attrs == AttrsOf(es) && children == Children(es) && cdata == CDataOf(es)
  {
    attrs, children, cdata := [], [], None;
    for i := 0 to |es|
      invariant attrs == AttrsOf(es[..i]) && children == Children(es[..i]) && cdata == CDataOf(es[..i])
    {
      assert es[..i + 1][..i] == es[..i];
      assert EmittableField(es[i].key, es[i].value);
      if es[i].key == TEXT_KEY {
        cdata := if es[i].value.Nil? then None else Some(es[i].value.s);
      } else if IsAttrKey(es[i].key) {
        attrs := attrs + [Attr(es[i].key[1..], es[i].value.s)];
      } else {
        children := children + [es[i]];
      }
    }
    assert es[..|es|] == es;
  }

  /** `_emit`; it refuses a document with several roots. */
  method Emit(key: string, value: Value, out: ContentHandler, depth: nat, fmt: Format) returns (ok: bool)
    requires Emittable(value)
    modifies out
    ensures ok <==> !(depth == 0 && value.List? && |value.items| > 1)
    ensures out.events == if ok then old(out.events) + EventsOf(ValueNodes(key, value, depth, fmt)) else old(out.events)
    decreases value, 2
  {
    hide EventsOf, Padded, Emittable, EmittableField, ItemNodes, ValueNodes;
    ItemsEmittable(key, value, depth, fmt);
    var values := if value.List? then value.items else [value];
    if depth == 0 && |values| > 1 {
      return false;
    }
    assert values[..0] == [];
    NoItems(key, depth, fmt);
    for i := 0 to |values|
      invariant out.events == old(out.events) + EventsOf(ItemNodes(key, values[..i], depth, fmt))
    {
      EmitOne(key, values[i], out, depth, fmt);
      assert values[..i + 1] == values[..i] + [values[i]];
      ItemNodesSnoc(key, values[..i], values[i], depth, fmt);
    }
    assert values[..|values|] == values;
    return true;
  }

  lemma NoItems(key: string, depth: nat, fmt: Format)
    ensures EventsOf(ItemNodes(key, [], depth, fmt)) == []
  {
    EventsNone();
  }

  /** A value is emitted as its items, or as itself alone. */
  lemma ItemsEmittable(key: string, value: Value, depth: nat, fmt: Format)
    requires Emittable(value)
    ensures var values := if value.List? then value.items else [value];
      && (forall i :: 0 <= i < |values| ==> values[i].List? || Emittable(values[i]))
      && EventsOf(ValueNodes(key, value, depth, fmt)) == EventsOf(ItemNodes(key, values, depth, fmt))
  {
    hide EventsOf, Padded;
    if !value.List? {
      assert [] + [value] == [value];
      EventsNone();
      ItemNodesSnoc(key, [], value, depth, fmt);
    }
  }

  /** The loop over the children of `v`. */
  method EmitChildren(ghost v: Value, children: seq<Entry>, out: ContentHandler, depth: nat, fmt: Format)
    requires v.List? || Emittable(v)
    requires forall j :: 0 <= j < |children| ==> children[j] in AsDict(v, fmt) && IsChildKey(children[j].key)
    requires depth > 0
    modifies out
    ensures out.events == old(out.events) + FieldEvents(children, depth, fmt)
    decreases v, 0
  {
    hide EventsOf, ValueNodes, FieldEvents, AsDict, Emittable, EmittableField, IsChildKey;
    assert children[..0] == [];
    FieldEventsNone(depth, fmt);
    for j := 0 to |children|
      invariant out.events == old(out.events) + FieldEvents(children[..j], depth, fmt)
    {
      var c := children[j];
      ChildOf(v, c, fmt);
      var emitted := Emit(c.key, c.value, out, depth, fmt);
      assert children[..j + 1] == children[..j] + [c];
      FieldEventsSnoc(children[..j], c, depth, fmt);
    }
    assert children[..|children|] == children;
  }

  lemma ChildOf(v: Value, c: Entry, fmt: Format)
    requires (v.List? || Emittable(v)) && c in AsDict(v, fmt) && IsChildKey(c.key)
    ensures Emittable(c.value) && c.value < v
  {
    var i :| 0 <= i < |AsDict(v, fmt)| && AsDict(v, fmt)[i] == c;
    assert v.Dict? && EmittableField(v.entries[i].key, v.entries[i].value);
  }

  lemma {:induction false} ChildrenIn(es: seq<Entry>)
    ensures forall c :: c in Children(es) ==> c in es && IsChildKey(c.key)
  {
    if es != [] {
      ChildrenIn(es[..|es| - 1]);
    }
  }

  lemma FieldEventsNone(depth: nat, fmt: Format)
    ensures FieldEvents([], depth, fmt) == []
  {}

  lemma AsDictEmittable(v: Value, fmt: Format)
    requires v.List? || Emittable(v)
    ensures var es := AsDict(v, fmt); forall i :: 0 <= i < |es| ==> EmittableField(es[i].key, es[i].value)
  {}

  /** Whitespace of a pretty print. */
  method Space(out: ContentHandler, on: bool, s: string)
    modifies out
    ensures out.events == old(out.events) + BlankEvent(on, s)
  {
    if on {
      out.IgnorableWhitespace(s);
    }
  }

  method Text(out: ContentHandler, cdata: Option<string>)
    modifies out
    ensures out.events == old(out.events) + CDataEvent(cdata)
  {
    if cdata.Some? {
      out.Characters(cdata.value);
    }
  }

  /** The body of the loop over the values of one key. */
  method EmitOne(key: string, v: Value, out: ContentHandler, depth: nat, fmt: Format)
    requires v.List? || Emittable(v)
    modifies out
    ensures out.events == old(out.events) + EventsOf(Padded(key, v, depth, fmt))
    decreases v, 1
  {
    hide EventsOf, NodeEvents, Padded, Emittable, EmittableField, AttrsOf, Children, CDataOf, FieldEvents, AsDict;
    hide BlankEvent, CDataEvent, ElementNode, Repeat, IsChildKey, IsAttrKey;
    ghost var base := out.events;
    var es := AsDict(v, fmt);
    AsDictEmittable(v, fmt);
    var attrs, children, cdata := Sort(es);
    ChildrenIn(es);
    Space(out, fmt.pretty, Repeat(fmt.indent, depth));
    out.StartElement(key, attrs);
    var spaced := fmt.pretty && children != [];
    Space(out, spaced, fmt.newl);
    EmitChildren(v, children, out, depth + 1, fmt);
    Text(out, cdata);
    Space(out, spaced, Repeat(fmt.indent, depth));
    out.EndElement(key);
    Space(out, fmt.pretty && depth > 0, fmt.newl);
    Flatten(base, BlankEvent(fmt.pretty, Repeat(fmt.indent, depth)), [Start(key, attrs)],
            BlankEvent(spaced, fmt.newl), FieldEvents(children, depth + 1, fmt),
            CDataEvent(cdata), BlankEvent(spaced, Repeat(fmt.indent, depth)),
            [End(key)], BlankEvent(fmt.pretty && depth > 0, fmt.newl));
    NodeEventsOf(key, es, depth, fmt);
    AsDictEvents(key, v, depth, fmt);
    PaddedEvents(key, v, depth, fmt);
  }

  // ---- parse after unparse ----

  lemma RootEntries(key: string, v: Value, fmt: Format, es: seq<Event>)
    requires Normal(v) && Spaces(fmt) && Coalesce(es) == Coalesce(EventsOf(ValueNodes(key, v, 0, fmt)))
    ensures Run(INITIAL, es) == State([], [], [Entry(key, Canon(v))], "")
  {
    hide EventsOf, Run, Coalesce, ElementNode;
    var nodes := ValueNodes(key, v, 0, fmt);
    CoalesceSame(INITIAL, es);
    CoalesceSame(INITIAL, EventsOf(nodes));
    RunGathers(INITIAL, nodes);
    var e := ElementNode(key, v, 0, fmt);
    ElementMeaning(key, v, 0, fmt);
    var g := Gathered([], "");
    var lead := Blank(fmt.pretty, "");
    assert nodes == lead + [e];
    GatherConcat(g, lead, [e]);
    if fmt.pretty {
      GatherOne(g, Chars(""));
      assert "" + "" == "";
    }
    GatherOne(g, e);
  }

  /** Parsing what `unparse` wrote for a normal-form tree, in whatever pieces the
      text arrives and with or without pretty-printing, gives the tree back up to
      the order of keys. */
  lemma RoundTrip(key: string, v: Value, fmt: Format, es: seq<Event>)
    requires Normal(v) && Spaces(fmt) && Coalesce(es) == Coalesce(EventsOf(ValueNodes(key, v, 0, fmt)))
    ensures var parsed := Run(INITIAL, es);
      parsed.stack == [] && parsed.entries == [Entry(key, Canon(v))] && Same(v, Canon(v))
  {
    RootEntries(key, v, fmt, es);
    CanonSame(v);
  }

  /** Writing what a document was parsed to and parsing that changes nothing. */
  lemma ReparseIsStable(root: Node, first: seq<Event>, fmt: Format, second: seq<Event>)
    requires root.Element? && XmlDocuments.Legal(root) && Spaces(fmt)
    requires Coalesce(first) == Coalesce(NodeEvents(root))
    requires Coalesce(second) == Coalesce(EventsOf(ValueNodes(root.name, Meaning(root), 0, fmt)))
    ensures Run(INITIAL, first) == State([], [], [Entry(root.name, Meaning(root))], "")
    ensures Run(INITIAL, second) == Run(INITIAL, first)
  {
    hide EventsOf, Run, Coalesce, Meaning;
    ParseMeaning(root, first);
    XmlDocuments.MeaningNormal(root);
    RootEntries(root.name, Meaning(root), fmt, second);
  }

  // ---- Exactly the normal-form trees come back ----

  lemma LegalConcat(a: seq<Node>, b: seq<Node>)
    requires XmlDocuments.LegalContent(a) && XmlDocuments.LegalContent(b)
    ensures XmlDocuments.LegalContent(a + b)
  {}

  lemma {:induction false} ElementLegal(key: string, v: Value, depth: nat, fmt: Format)
    requires IsChildKey(key)
    ensures XmlDocuments.Legal(ElementNode(key, v, depth, fmt))
    decreases v, 1
  {
    if v.Dict? {
      ChildrenLegal(v.entries, depth + 1, fmt);
    }
  }

  lemma {:induction false} PaddedLegal(key: string, v: Value, depth: nat, fmt: Format)
    requires IsChildKey(key)
    ensures XmlDocuments.LegalContent(Padded(key, v, depth, fmt))
    decreases v, 2
  {
    ElementLegal(key, v, depth, fmt);
  }

  lemma {:induction false} ItemsLegal(key: string, vs: seq<Value>, depth: nat, fmt: Format)
    requires IsChildKey(key)
    ensures XmlDocuments.LegalContent(ItemNodes(key, vs, depth, fmt))
    decreases vs, 0
  {
    if vs != [] {
      PaddedLegal(key, vs[0], depth, fmt);
      ItemsLegal(key, vs[1..], depth, fmt);
      LegalConcat(Padded(key, vs[0], depth, fmt), ItemNodes(key, vs[1..], depth, fmt));
    }
  }

  lemma {:induction false} ChildrenLegal(es: seq<Entry>, depth: nat, fmt: Format)
    ensures XmlDocuments.LegalContent(ChildNodes(es, depth, fmt))
    decreases es, 0
  {
    if es != [] {
      ChildrenLegal(es[1..], depth, fmt);
      if IsChildKey(es[0].key) {
        if es[0].value.List? {
          ItemsLegal(es[0].key, es[0].value.items, depth, fmt);
        } else {
          PaddedLegal(es[0].key, es[0].value, depth, fmt);
        }
        LegalConcat(ValueNodes(es[0].key, es[0].value, depth, fmt), ChildNodes(es[1..], depth, fmt));
      }
    }
  }

  /** No dictionary repeats a key. */
  predicate Keyed(v: Value)
    decreases v
  {
    match v
    case List(vs) => forall i :: 0 <= i < |vs| ==> Keyed(vs[i])
    case Dict(es) => UniqueKeys(es) && forall i :: 0 <= i < |es| ==> Keyed(es[i].value)
    case _ => true
  }

  lemma {:induction false} SameNormal(a: Value, b: Value)
    requires Keyed(a) && Same(a, b) && Normal(b)
    ensures Normal(a)
    decreases a, 0
  {
    if a.Dict? {
      var es, fs := a.entries, b.entries;
      forall i | 0 <= i < |es| ensures NormalField(es[i].key, es[i].value) {
        var j := IndexOf(fs, es[i].key);
        assert NormalField(fs[j].key, fs[j].value);
        SameNormalField(es[i].key, es[i].value, fs[j].value);
      }
      if forall i :: 0 <= i < |es| ==> es[i].key == TEXT_KEY {
        OnlyText(es, fs);
      }
    }
  }

  lemma RepeatedText(es: seq<Entry>)
    requires |es| > 1 && forall i :: 0 <= i < |es| ==> es[i].key == TEXT_KEY
    ensures !UniqueKeys(es)
  {
    assert es[0].key == es[1].key;
  }

  /** A dictionary of text only has one entry, and so has any reordering of it. */
  lemma OnlyText(es: seq<Entry>, fs: seq<Entry>)
    requires UniqueKeys(es) && |es| == |fs| && forall i :: 0 <= i < |es| ==> es[i].key == TEXT_KEY
    requires forall i :: 0 <= i < |es| ==> IndexOf(fs, es[i].key) < |fs|
    ensures forall i :: 0 <= i < |fs| ==> fs[i].key == TEXT_KEY
  {
    if |es| > 1 {
      RepeatedText(es);
    } else if |es| == 1 {
      assert IndexOf(fs, es[0].key) == 0;
    }
  }

  lemma {:induction false} SameNormalField(key: string, a: Value, b: Value)
    requires Keyed(a) && Same(a, b) && NormalField(key, b)
    ensures NormalField(key, a)
    decreases a, 1
  {
    if IsChildKey(key) {
      if a.List? {
        forall i | 0 <= i < |a.items| ensures Normal(a.items[i]) {
          SameNormal(a.items[i], b.items[i]);
        }
      } else {
        SameNormal(a, b);
      }
    }
  }

  /** Of the values `unparse` can write, exactly the normal-form ones are read
      back as they were, up to the order of keys. */
  lemma RoundTripExactly(key: string, v: Value, fmt: Format)
    requires IsChildKey(key) && !v.List? && Emittable(v) && Keyed(v) && Spaces(fmt)
    ensures Same(v, Meaning(ElementNode(key, v, 0, fmt))) <==> Normal(v)
  {
    hide Meaning, ElementNode;
    if Normal(v) {
      ElementMeaning(key, v, 0, fmt);
      CanonSame(v);
    }
    if Same(v, Meaning(ElementNode(key, v, 0, fmt))) {
      ElementLegal(key, v, 0, fmt);
      XmlDocuments.MeaningNormal(ElementNode(key, v, 0, fmt));
      SameNormal(v, Meaning(ElementNode(key, v, 0, fmt)));
    }
  }
}
