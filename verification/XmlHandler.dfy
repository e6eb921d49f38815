/**
 `_DictSAXHandler` of `python/xmltodict.py` with its default options
 (`item_depth` 0, attributes kept under "@", text under "#text"): a stack
 machine over parser events, and what it makes of a document.
 */
module XmlHandler {
  import opened Bytes
  import opened XmlTree

  datatype Event = Start(name: string, attrs: seq<Attr>) | End(name: string) | Characters(s: string)

  datatype Frame = Frame(entries: seq<Entry>, text: string)

  /** The machine's state; no entries stand for None, and no text for None. */
  datatype State = State(path: seq<string>, stack: seq<Frame>, entries: seq<Entry>, text: string)

  const INITIAL := State([], [], [], "")

  function Step(st: State, e: Event): State {
    match e
    case Start(name, attrs) =>
      State(st.path + [name], st.stack + [Frame(st.entries, st.text)], AttrEntries(attrs), "")
    case Characters(s) => st.(text := st.text + s)
    case End(name) =>
      if st.path == [] then st
      else
        var path := st.path[..|st.path| - 1];
        if st.stack == [] then State(path, [], [], "")
        else
          var f := st.stack[|st.stack| - 1];
          State(path, st.stack[..|st.stack| - 1], Push(f.entries, name, Finish(st.entries, st.text)), f.text)
  }

  function Run(st: State, es: seq<Event>): State
    decreases |es|
  {
    if es == [] then st else Run(Step(st, es[0]), es[1..])
  }

  // ---- The handler object ----

  type Item = Option<seq<Entry>>

  function Entries(item: Item): seq<Entry> { if item.Some? then item.value else [] }

  function TextOf(data: Option<string>): string { if data.Some? then data.value else "" }

  type Saved = (Item, Option<string>)

  function FramesOf(stack: seq<Saved>): seq<Frame> {
    seq(|stack|, i requires 0 <= i < |stack| => Frame(Entries(stack[i].0), TextOf(stack[i].1)))
  }

  class DictHandler {
    var path: seq<string>
    var stack: seq<Saved>
    var item: Item
    var data: Option<string>

    /** A dictionary exists only once something is in it. */
    ghost predicate Valid()
      reads this
    {
      item != Some([]) && forall i :: 0 <= i < |stack| ==> stack[i].0 != Some([])
    }

    ghost function View(): State
      reads this
    {
      State(path, FramesOf(stack), Entries(item), TextOf(data))
    }

    constructor ()
      ensures Valid() && View() == INITIAL
    {
      path, stack, item, data := [], [], None, None;
    }

    method StartElement(name: string, attrs: seq<Attr>)
      requires Valid()
      modifies this
      ensures Valid() && View() == Step(old(View()), Start(name, attrs))
    {
      assert FramesOf(stack + [(item, data)]) == FramesOf(stack) + [Frame(Entries(item), TextOf(data))];
      path := path + [name];
      stack := stack + [(item, data)];
      var entries := AttrEntries(attrs);
      item := if entries == [] then None else Some(entries);
      data := None;
    }

    method CharacterData(s: string)
      requires Valid()
      modifies this`data
      ensures Valid() && View() == Step(old(View()), Characters(s))
    {
      if data == None || data == Some("") {
        data := Some(s);
      } else {
        data := Some(data.value + s);
      }
    }

    /** `push_data`, with the dictionary handed over and returned. */
    method PushData(into: Item, key: string, v: Value) returns (r: Item)
      ensures r == Some(Push(Entries(into), key, v))
    {
      var d := if into.None? then [] else into.value;
      var i := IndexOf(d, key);
      if i < |d| {
        var value := d[i].value;
        if value.List? {
          d := d[i := Entry(key, List(value.items + [v]))];
        } else {
          d := d[i := Entry(key, List([value, v]))];
        }
      } else {
        d := d + [Entry(key, v)];
      }
      return Some(d);
    }

    /** The parser calls this only inside an element. */
    method EndElement(name: string)
      requires Valid() && path != []
      modifies this
      ensures Valid() && View() == Step(old(View()), End(name))
    {
      hide Strip, Push;
      StripSpace("");
      if |stack| > 0 {
        assert FramesOf(stack)[..|stack| - 1] == FramesOf(stack[..|stack| - 1]);
        var own, text := item, data;
        item, data := stack[|stack| - 1].0, stack[|stack| - 1].1;
        stack := stack[..|stack| - 1];
        if text.Some? {
          var stripped := Strip(text.value);
          text := if stripped == "" then None else Some(stripped);
        }
        if own.Some? {
          if text.Some? {
            own := PushData(own, TEXT_KEY, Str(text.value));
          }
          item := PushData(item, name, Dict(own.value));
        } else {
          item := PushData(item, name, if text.Some? then Str(text.value) else Nil);
        }
      } else {
        item, data := None, None;
      }
      path := path[..|path| - 1];
    }
  }

  // ---- The machine computes the meaning of a document ----

  function EventsOf(nodes: seq<Node>): seq<Event>
    decreases nodes, 0
  {
    if nodes == [] then [] else NodeEvents(nodes[0]) + EventsOf(nodes[1..])
  }

  function NodeEvents(n: Node): seq<Event>
    decreases n, 1
  {
    match n
    case Chars(s) => [Characters(s)]
    case Element(name, attrs, content) => [Start(name, attrs)] + EventsOf(content) + [End(name)]
  }

  lemma {:induction false} RunConcat(st: State, a: seq<Event>, b: seq<Event>)
    ensures Run(st, a + b) == Run(Run(st, a), b)
    decreases |a|
  {
    if a == [] {
      assert a + b == b;
    } else {
      assert (a + b)[1..] == a[1..] + b;
      RunConcat(Step(st, a[0]), a[1..], b);
    }
  }

  /** The events of some content do to the state what reading the content does. */
  lemma {:induction false} RunGathers(st: State, nodes: seq<Node>)
    ensures var g := Gather(Gathered(st.entries, st.text), nodes);
            Run(st, EventsOf(nodes)) == st.(entries := g.entries, text := g.text)
    decreases nodes, 0
  {
    if nodes != [] {
      RunConcat(st, NodeEvents(nodes[0]), EventsOf(nodes[1..]));
      RunNode(st, nodes[0]);
      RunGathers(Run(st, NodeEvents(nodes[0])), nodes[1..]);
    }
  }

  lemma {:induction false} RunNode(st: State, n: Node)
    ensures Run(st, NodeEvents(n)) ==
      match n
      case Chars(s) => st.(text := st.text + s)
      case Element(name, _, _) => st.(entries := Push(st.entries, name, Meaning(n)))
    decreases n, 1
  {
    match n
    case Chars(s) =>
      assert Run(Step(st, Characters(s)), []) == Step(st, Characters(s));
    case Element(name, attrs, content) =>
      var inside := Step(st, Start(name, attrs));
      RunGathers(inside, content);
      var filled := Run(inside, EventsOf(content));
      RunConcat(inside, EventsOf(content), [End(name)]);
      assert Run(Step(filled, End(name)), []) == Step(filled, End(name));
      assert [End(name)][1..] == [];
      assert NodeEvents(n) == [Start(name, attrs)] + (EventsOf(content) + [End(name)]);
      assert Run(st, NodeEvents(n)) == Run(inside, EventsOf(content) + [End(name)]);
      assert inside.path[..|inside.path| - 1] == st.path && inside.stack[..|inside.stack| - 1] == st.stack;
  }

  // ---- However the text is chunked ----

  /** Neighbouring character events joined, empty ones dropped. */
  function Coalesce(es: seq<Event>): seq<Event> {
    if es == [] then []
    else
      var r := Coalesce(es[1..]);
      if !es[0].Characters? then [es[0]] + r
      else if es[0].s == "" then r
      else if r != [] && r[0].Characters? then [Characters(es[0].s + r[0].s)] + r[1..]
      else [es[0]] + r
  }

  lemma {:induction false} CoalesceSame(st: State, es: seq<Event>)
    ensures Run(st, Coalesce(es)) == Run(st, es)
    decreases |es|
  {
    if es != [] {
      var r := Coalesce(es[1..]);
      CoalesceSame(Step(st, es[0]), es[1..]);
      if es[0].Characters? && es[0].s == "" {
        assert st.text + "" == st.text;
      } else if es[0].Characters? && r != [] && r[0].Characters? {
        assert st.text + (es[0].s + r[0].s) == st.text + es[0].s + r[0].s;
        assert Run(Step(st, es[0]), r) == Run(Step(Step(st, es[0]), r[0]), r[1..]);
        assert ([Characters(es[0].s + r[0].s)] + r[1..])[1..] == r[1..];
      } else {
        assert ([es[0]] + r)[1..] == r;
      }
    }
  }

  /** The dictionary `parse` returns for a document with the given root element,
      whatever pieces the parser delivers the text in. */
  lemma ParseMeaning(root: Node, es: seq<Event>)
    requires root.Element? && Coalesce(es) == Coalesce(NodeEvents(root))
    ensures Run(INITIAL, es) == State([], [], [Entry(root.name, Meaning(root))], "")
  {
    CoalesceSame(INITIAL, es);
    CoalesceSame(INITIAL, NodeEvents(root));
    RunNode(INITIAL, root);
  }
}
