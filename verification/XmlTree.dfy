/**
 The dictionaries `python/xmltodict.py` works with, the XML trees they stand
 for, and the dictionary a tree means.
 */
module XmlTree {

  // ---- Values and dictionaries ----

  /** None, a string, a dictionary in insertion order, or a list. */
  datatype Value = Nil | Str(s: string) | Dict(entries: seq<Entry>) | List(items: seq<Value>)

  datatype Entry = Entry(key: string, value: Value)

  /** Position of `key`, or the length if it is missing. */
  function IndexOf(d: seq<Entry>, key: string): (r: nat)
    ensures r <= |d|
    ensures r < |d| ==> d[r].key == key
    ensures forall i :: 0 <= i < r ==> d[i].key != key
  {
    if d == [] || d[0].key == key then 0 else 1 + IndexOf(d[1..], key)
  }

  predicate HasKey(d: seq<Entry>, key: string) { exists i :: 0 <= i < |d| && d[i].key == key }

  predicate UniqueKeys(d: seq<Entry>) { forall i, j :: 0 <= i < j < |d| ==> d[i].key != d[j].key }

  /** `push_data` on a dictionary: a repeated key gathers its values in a list. */
  function Push(d: seq<Entry>, key: string, v: Value): (r: seq<Entry>)
    ensures r != []
  {
    var i := IndexOf(d, key);
    if i == |d| then d + [Entry(key, v)]
    else
      var old' := d[i].value;
      d[i := Entry(key, if old'.List? then List(old'.items + [v]) else List([old', v]))]
  }

  /** Plain assignment to a key. */
  function Assign(d: seq<Entry>, key: string, v: Value): seq<Entry> {
    var i := IndexOf(d, key);
    if i == |d| then d + [Entry(key, v)] else d[i := Entry(key, v)]
  }

  // ---- Whitespace ----

  /** The characters `str.strip` removes. */
  predicate IsSpace(c: char) {
    var n := c as int;
    9 <= n <= 13 || 28 <= n <= 32 || n == 0x85 || n == 0xA0 || n == 0x1680 || 0x2000 <= n <= 0x200A
    || n == 0x2028 || n == 0x2029 || n == 0x202F || n == 0x205F || n == 0x3000
  }

  predicate AllSpace(s: string) { forall i :: 0 <= i < |s| ==> IsSpace(s[i]) }

  function LStrip(s: string): string { if s != "" && IsSpace(s[0]) then LStrip(s[1..]) else s }

  function RStrip(s: string): string { if s != "" && IsSpace(s[|s| - 1]) then RStrip(s[..|s| - 1]) else s }

  function Strip(s: string): string { RStrip(LStrip(s)) }

  /** Non-empty, with no whitespace at either end. */
  predicate Trimmed(s: string) { s != "" && !IsSpace(s[0]) && !IsSpace(s[|s| - 1]) }

  lemma {:induction false} LStripSpace(a: string, s: string)
    requires AllSpace(a)
    ensures LStrip(a + s) == LStrip(s)
  {
    if a == "" {
      assert a + s == s;
    } else {
      assert (a + s)[1..] == a[1..] + s;
      LStripSpace(a[1..], s);
    }
  }

  lemma {:induction false} RStripSpace(s: string, b: string)
    requires AllSpace(b)
    ensures RStrip(s + b) == RStrip(s)
  {
    if b == "" {
      assert s + b == s;
    } else {
      assert (s + b)[..|s + b| - 1] == s + b[..|b| - 1];
      RStripSpace(s, b[..|b| - 1]);
    }
  }

  lemma StripPadded(a: string, s: string, b: string)
    requires AllSpace(a) && AllSpace(b) && Trimmed(s)
    ensures Strip(a + s + b) == s
  {
    assert a + s + b == a + (s + b);
    LStripSpace(a, s + b);
    RStripSpace(s, b);
  }

  lemma StripSpace(a: string)
    requires AllSpace(a)
    ensures Strip(a) == ""
  {
    LStripSpace(a, "");
    assert a + "" == a;
  }

  lemma {:induction false} RStripEnds(s: string)
    ensures var r := RStrip(s); r <= s && (r != "" ==> !IsSpace(r[|r| - 1]))
  {
    if s != "" && IsSpace(s[|s| - 1]) {
      RStripEnds(s[..|s| - 1]);
    }
  }

  lemma {:induction false} LStripEnds(s: string)
    ensures var r := LStrip(s); r != "" ==> !IsSpace(r[0])
  {
    if s != "" && IsSpace(s[0]) {
      LStripEnds(s[1..]);
    }
  }

  lemma StripTrims(s: string)
    ensures Strip(s) == "" || Trimmed(Strip(s))
  {
    LStripEnds(s);
    RStripEnds(LStrip(s));
  }

  // ---- XML trees ----

  datatype Attr = Attr(name: string, value: string)

  datatype Node = Element(name: string, attrs: seq<Attr>, content: seq<Node>) | Chars(s: string)

  const TEXT_KEY := "#text"

  predicate IsAttrKey(key: string) { key != "" && key[0] == '@' }

  /** The attributes as dictionary entries. */
  function AttrEntries(attrs: seq<Attr>): seq<Entry> {
    if attrs == [] then []
    else Assign(AttrEntries(attrs[..|attrs| - 1]), "@" + attrs[|attrs| - 1].name, Str(attrs[|attrs| - 1].value))
  }

  /** The value of an element from its gathered entries and its text: text alone
      is a string, nothing at all is None. */
  function Finish(entries: seq<Entry>, text: string): Value {
    var t := Strip(text);
    if entries == [] then if t == "" then Nil else Str(t)
    else if t == "" then Dict(entries)
    else Dict(Push(entries, TEXT_KEY, Str(t)))
  }

  datatype Gathered = Gathered(entries: seq<Entry>, text: string)

  function Absorb(g: Gathered, n: Node): Gathered
    decreases n, 2
  {
    match n
    case Chars(s) => g.(text := g.text + s)
    case Element(name, _, _) => g.(entries := Push(g.entries, name, Meaning(n)))
  }

  /** Reading content from left to right. */
  function Gather(g: Gathered, nodes: seq<Node>): Gathered
    decreases nodes, 0
  {
    if nodes == [] then g else Gather(Absorb(g, nodes[0]), nodes[1..])
  }

  /** What an element means. */
  function Meaning(e: Node): Value
    requires e.Element?
    decreases e, 1
  {
    var g := Gather(Gathered(AttrEntries(e.attrs), ""), e.content);
    Finish(g.entries, g.text)
  }
}
