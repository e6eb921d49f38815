/** What `strip` does to the text of a document, by the characters themselves. */
module XmlText {
  import opened Bytes
  import opened XmlTree
  import opened XmlNormal
  import opened XmlHandler
  import opened XmlEmit
  import XmlUnparse

  /** The white space of XML: section 2.3 of XML 1.0. */
  predicate XmlSpace(c: char) { c == ' ' || c == '\t' || c == '\r' || c == '\n' }

  predicate Blank(s: string) { forall i :: 0 <= i < |s| ==> XmlSpace(s[i]) }

  /** A character that is seen on paper. */
  predicate Printed(c: char) { '!' <= c <= '~' }

  lemma BlankIsSpace(s: string)
    requires Blank(s)
    ensures AllSpace(s)
  {}

  lemma PrintedIsTrimmed(s: string)
    requires s != "" && Printed(s[0]) && Printed(s[|s| - 1])
    ensures Trimmed(s)
  {}

  /** White space around a text is not part of its value ... */
  lemma TextIsStripped(name: string, a: string, s: string, b: string)
    requires Blank(a) && Blank(b) && s != "" && Printed(s[0]) && Printed(s[|s| - 1])
    ensures Meaning(Element(name, [], [Chars(a + s + b)])) == Str(s)
  {
    BlankIsSpace(a);
    BlankIsSpace(b);
    PrintedIsTrimmed(s);
    StripPadded(a, s, b);
    hide Strip, Blank;
    GatherOne(Gathered([], ""), Chars(a + s + b));
    assert "" + (a + s + b) == a + s + b;
  }

  /** ... and white space alone is no value. */
  lemma BlankIsNil(name: string, a: string)
    requires Blank(a)
    ensures Meaning(Element(name, [], [Chars(a)])) == Nil
  {
    BlankIsSpace(a);
    StripSpace(a);
    hide Strip, Blank;
    GatherOne(Gathered([], ""), Chars(a));
    assert "" + a == a;
  }

  /** The children without the text between them. */
  function OnlyElements(content: seq<Node>): seq<Node> {
    if content == [] then []
    else (if content[0].Element? then [content[0]] else []) + OnlyElements(content[1..])
  }

  lemma {:induction false} GatherBlanks(g: Gathered, content: seq<Node>)
    requires AllSpace(g.text) && forall i :: 0 <= i < |content| && content[i].Chars? ==> Blank(content[i].s)
    ensures var r := Gather(g, content);
      AllSpace(r.text) && r.entries == Gather(Gathered(g.entries, ""), OnlyElements(content)).entries
    ensures Gather(Gathered(g.entries, ""), OnlyElements(content)).text == ""
    decreases |content|
  {
    if content != [] {
      var n := content[0];
      if n.Chars? {
        BlankIsSpace(n.s);
        GatherBlanks(Gathered(g.entries, g.text + n.s), content[1..]);
        assert OnlyElements(content) == OnlyElements(content[1..]);
      } else {
        hide Meaning;
        var e := Push(g.entries, n.name, Meaning(n));
        GatherBlanks(Gathered(e, g.text), content[1..]);
        var only := OnlyElements(content);
        assert only == [n] + OnlyElements(content[1..]) && only[1..] == OnlyElements(content[1..]);
      }
    }
  }

  /** Indentation is not part of a document: where all text is white space, it might as well not be there. */
  lemma IndentationIsIgnored(name: string, attrs: seq<Attr>, content: seq<Node>)
    requires forall i :: 0 <= i < |content| && content[i].Chars? ==> Blank(content[i].s)
    ensures Meaning(Element(name, attrs, content)) == Meaning(Element(name, attrs, OnlyElements(content)))
  {
    var g := Gathered(AttrEntries(attrs), "");
    GatherBlanks(g, content);
    StripSpace(Gather(g, content).text);
    StripSpace("");
    hide Strip, Gather;
  }

  /** With the newline and the indentation `unparse` has by default, pretty-printed or not: what it
      writes for a normal-form tree is read back as that tree, up to the order of keys. */
  lemma DefaultRoundTrip(key: string, v: Value, pretty: bool, str: Value -> string, es: seq<Event>)
    requires Normal(v)
    requires Coalesce(es) == Coalesce(EventsOf(ValueNodes(key, v, 0, Format(pretty, "\n", "\t", str))))
    ensures var parsed := Run(INITIAL, es);
      parsed.stack == [] && parsed.entries == [Entry(key, Canon(v))] && Same(v, Canon(v))
  {
    BlankIsSpace("\n");
    BlankIsSpace("\t");
    XmlUnparse.RoundTrip(key, v, Format(pretty, "\n", "\t", str), es);
  }

  /** The characters `strip` removes: white space of Unicode, and four control characters. */
  lemma SpacesExactly(c: char)
    ensures IsSpace(c) <==>
      c as int in {
        9, 10, 11, 12, 13, 28, 29, 30, 31, 32, 133, 160, 5760, 8192, 8193, 8194, 8195, 8196, 8197, 8198, 8199, 8200,
        8201, 8202, 8232, 8233, 8239, 8287, 12288}
  {}

  // ---- An example ----

  /** <a x="1"> t <b/><b>u</b></a> */
  function Example(): Node {
    Element("a", [Attr("x", "1")], [Chars(" t "), Element("b", [], []), Element("b", [], [Chars("u")])])
  }

  /** ... is {"@x": "1", "b": [None, "u"], "#text": "t"}. */
  lemma ExampleMeans()
    ensures Meaning(Example()) ==
      Dict([Entry("@x", Str("1")), Entry("b", List([Nil, Str("u")])), Entry("#text", Str("t"))])
  {
    assert " " + "t" + " " == " t ";
    PrintedIsTrimmed("t");
    StripPadded(" ", "t", " ");
    AttributeMeans();
    ExampleGathered();
    hide Strip, Gather;
  }

  lemma ExampleGathered()
    ensures Gather(Gathered([Entry("@x", Str("1"))], ""), Example().content)
         == Gathered([Entry("@x", Str("1")), Entry("b", List([Nil, Str("u")]))], " t ")
  {
    hide Meaning;
    EmptyMeans();
    TextIsStripped("b", "", "u", "");
    assert "" + "u" + "" == "u";
    var empty, text := Element("b", [], []), Element("b", [], [Chars("u")]);
    var g0 := Gathered([Entry("@x", Str("1"))], "");
    var g1 := Gathered(g0.entries, " t ");
    var g2 := Gathered([Entry("@x", Str("1")), Entry("b", Nil)], " t ");
    assert Absorb(g0, Chars(" t ")) == g1;
    assert Absorb(g1, empty) == g2;
    var g3 := Absorb(g2, text);
    assert g3.entries == [Entry("@x", Str("1")), Entry("b", List([Nil, Str("u")]))];
    hide Absorb;
    GatherThree(g0, Chars(" t "), empty, text);
  }

  lemma GatherThree(g: Gathered, a: Node, b: Node, c: Node)
    ensures Gather(g, [a, b, c]) == Absorb(Absorb(Absorb(g, a), b), c)
  {
    hide Absorb;
    GatherConcat(g, [a], [b, c]);
    GatherOne(g, a);
    GatherConcat(Absorb(g, a), [b], [c]);
    GatherOne(Absorb(g, a), b);
    GatherOne(Absorb(Absorb(g, a), b), c);
    assert [a] + [b, c] == [a, b, c] && [b] + [c] == [b, c];
  }

  lemma EmptyMeans()
    ensures Meaning(Element("b", [], [])) == Nil
  {
    StripSpace("");
  }

  lemma AttributeMeans()
    ensures AttrEntries([Attr("x", "1")]) == [Entry("@x", Str("1"))]
  {
    assert [Attr("x", "1")][..0] == [];
    assert "@" + "x" == "@x";
  }

  // ---- What a pretty print looks like ----

  function Pretty(str: Value -> string): Format { Format(true, "\n", "\t", str) }

  lemma TabsAre()
    ensures Repeat("\t", 0) == "" && Repeat("\t", 1) == "\t" && Repeat("\t", 2) == "\t\t"
  {
    assert Repeat("\t", 2) == "\t" + Repeat("\t", 1);
  }

  lemma LeafPadded(key: string, s: string, str: Value -> string)
    ensures Padded(key, Str(s), 1, Pretty(str)) == [Chars("\t"), Element(key, [], [Chars(s)]), Chars("\n")]
  {
    TabsAre();
  }

  /** {"a": {"b": "x", "c": "y"}} is written on four lines, the children indented by one tab. */
  lemma PrettyExample(str: Value -> string)
    ensures ValueNodes("a", Dict([Entry("b", Str("x")), Entry("c", Str("y"))]), 0, Pretty(str)) == [
      Chars(""),
      Element("a", [], [
        Chars("\n"),
        Chars("\t"), Element("b", [], [Chars("x")]), Chars("\n"),
        Chars("\t"), Element("c", [], [Chars("y")]), Chars("\n"),
        Chars("")])]
  {
    hide Padded;
    var fmt := Pretty(str);
    var b, c := Entry("b", Str("x")), Entry("c", Str("y"));
    var es := [b, c];
    TabsAre();
    LeafPadded("b", "x", str);
    LeafPadded("c", "y", str);
    ChildrenExample(b, c, str);
    TwoChildren(b, c);
    ElementExample(es, fmt);
    hide ValueNodes, ChildNodes, Repeat;
    var leaf1 := [Chars("\t"), Element("b", [], [Chars("x")]), Chars("\n")];
    var leaf2 := [Chars("\t"), Element("c", [], [Chars("y")]), Chars("\n")];
    assert [Chars("\n")] + (leaf1 + leaf2) + [Chars("")] == [
      Chars("\n"),
      Chars("\t"), Element("b", [], [Chars("x")]), Chars("\n"),
      Chars("\t"), Element("c", [], [Chars("y")]), Chars("\n"),
      Chars("")];
  }

  lemma TwoChildren(b: Entry, c: Entry)
    requires IsChildKey(b.key) && IsChildKey(c.key)
    ensures AttrsOf([b, c]) == [] && CDataOf([b, c]) == None && Children([b, c]) == [b, c]
  {
    assert [b, c][..1] == [b] && [b][..0] == [];
    assert AttrsOf([b]) == [] && CDataOf([b]) == None && Children([b]) == [b];
  }

  lemma ChildrenExample(b: Entry, c: Entry, str: Value -> string)
    requires IsChildKey(b.key) && b.value.Str? && IsChildKey(c.key) && c.value.Str?
    ensures ChildNodes([b, c], 1, Pretty(str))
         == Padded(b.key, b.value, 1, Pretty(str)) + Padded(c.key, c.value, 1, Pretty(str))
  {
    hide Padded;
    assert [b, c][1..] == [c] && [c][1..] == [];
    assert ChildNodes([], 1, Pretty(str)) == [];
    assert ChildNodes([c], 1, Pretty(str)) == Padded(c.key, c.value, 1, Pretty(str));
  }

  lemma ElementExample(es: seq<Entry>, fmt: Format)
    requires fmt.pretty && AttrsOf(es) == [] && CDataOf(es) == None && Children(es) != []
    ensures ValueNodes("a", Dict(es), 0, fmt) ==
      [Chars(Repeat(fmt.indent, 0)),
       Element("a", [], [Chars(fmt.newl)] + ChildNodes(es, 1, fmt) + [Chars(Repeat(fmt.indent, 0))])]
  {
    hide AttrsOf, CDataOf, Children, ChildNodes, Repeat;
    var inner, last := [Chars(fmt.newl)] + ChildNodes(es, 1, fmt), [Chars(Repeat(fmt.indent, 0))];
    assert inner + [] + last == inner + last;
    var e := ElementNode("a", Dict(es), 0, fmt);
    assert e == Element("a", [], inner + last);
    assert [Chars(Repeat(fmt.indent, 0))] + [e] + [] == [Chars(Repeat(fmt.indent, 0)), e];
  }
}
