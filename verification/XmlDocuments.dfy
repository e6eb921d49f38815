/** Every document means a normal-form dictionary in canonical order. */
module XmlDocuments {
  import opened XmlTree
  import opened XmlNormal

  /** Element names as XML allows them: never "@..." nor "#text". */
  predicate Legal(n: Node)
    decreases n, 1
  {
    n.Element? ==> IsChildKey(n.name) && LegalContent(n.content)
  }

  predicate LegalContent(nodes: seq<Node>)
    decreases nodes, 0
  {
    forall i :: 0 <= i < |nodes| ==> Legal(nodes[i])
  }

  function Rank(key: string): nat { if IsAttrKey(key) then 0 else if key == TEXT_KEY then 2 else 1 }

  predicate InOrder(d: seq<Entry>) { forall i, j :: 0 <= i < j < |d| ==> Rank(d[i].key) <= Rank(d[j].key) }

  predicate CanonEntries(d: seq<Entry>) { forall i :: 0 <= i < |d| ==> CanonOf(d[i]) == d[i].value }

  /** A dictionary as it stands before the text is added. */
  predicate Building(d: seq<Entry>) {
    UniqueKeys(d) && NormalEntries(d) && InOrder(d) && CanonEntries(d) && !HasKey(d, TEXT_KEY)
  }

  lemma {:induction false} NoSuchPart(d: seq<Entry>, r: nat)
    requires forall i :: 0 <= i < |d| ==> Rank(d[i].key) >= r
    ensures r >= 1 ==> AttrPart(d) == []
    ensures r >= 2 ==> ChildPart(d) == []
  {
    if d != [] {
      assert Rank(d[0].key) >= r;
      NoSuchPart(d[1..], r);
    }
  }

  /** The least-ranked entry in front stays in front. */
  lemma ReorderedCons(e: Entry, rest: seq<Entry>)
    requires CanonOf(e) == e.value
    requires forall i :: 0 <= i < |rest| ==> Rank(rest[i].key) >= Rank(e.key)
    ensures Reordered([e] + rest) == [e] + Reordered(rest)
  {
    hide Canon;
    NoSuchPart(rest, Rank(e.key));
    var d := [e] + rest;
    assert d[1..] == rest && d[0] == e;
  }

  lemma InOrderTail(d: seq<Entry>)
    requires InOrder(d) && CanonEntries(d) && d != []
    ensures InOrder(d[1..]) && CanonEntries(d[1..])
    ensures forall i :: 0 <= i < |d[1..]| ==> Rank(d[1..][i].key) >= Rank(d[0].key)
  {
    hide Rank, CanonOf;
    var rest := d[1..];
    assert forall i :: 0 <= i < |rest| ==> rest[i] == d[i + 1];
  }

  lemma {:induction false} InOrderIsCanonical(d: seq<Entry>)
    requires InOrder(d) && CanonEntries(d)
    ensures Reordered(d) == d
  {
    if d != [] {
      hide Rank, CanonOf, Reordered, InOrder;
      InOrderTail(d);
      InOrderIsCanonical(d[1..]);
      ReorderedCons(d[0], d[1..]);
      assert d == [d[0]] + d[1..];
    }
  }

  lemma IndexMissing(d: seq<Entry>, key: string)
    ensures IndexOf(d, key) == |d| <==> !HasKey(d, key)
  {
    if HasKey(d, key) {
      var i :| 0 <= i < |d| && d[i].key == key;
    }
  }

  lemma CanonLumps(vs: seq<Value>, v: Value)
    requires CanonList(vs) == vs && Canon(v) == v
    ensures CanonList(vs + [v]) == vs + [v]
  {
    forall i | 0 <= i < |vs + [v]| ensures CanonList(vs + [v])[i] == (vs + [v])[i] {
      CanonListAt(vs + [v], i);
      if i < |vs| {
        CanonListAt(vs, i);
      }
    }
  }

  lemma LumpCanonical(was: Value, v: Value)
    requires Canon(was) == was && Canon(v) == v
    ensures var lump := if was.List? then was.items else [was];
            Canon(List(lump + [v])) == List(lump + [v])
  {
    if was.List? {
      CanonLumps(was.items, v);
    } else {
      assert CanonList([]) == [];
      CanonLumps([], was);
      assert [] + [was] == [was];
      CanonLumps([was], v);
    }
  }

  lemma NoText(d: seq<Entry>, k: nat)
    requires !HasKey(d, TEXT_KEY) && k < |d|
    ensures d[k].key != TEXT_KEY
  {}

  /** A value under a new key. */
  lemma AppendBuilding(d: seq<Entry>, name: string, v: Value)
    requires Building(d) && IsChildKey(name) && NormalField(name, v) && Canon(v) == v && !HasKey(d, name)
    ensures Building(d + [Entry(name, v)])
  {
    hide Canon, NormalField;
    var r := d + [Entry(name, v)];
    assert r[|d|] == Entry(name, v);
    assert forall k :: 0 <= k < |d| ==> r[k] == d[k];
    forall k | 0 <= k < |r| ensures r[k].key != TEXT_KEY {
      if k < |d| {
        NoText(d, k);
      }
    }
  }

  /** Another value under the same key. */
  lemma ReplaceBuilding(d: seq<Entry>, i: nat, v: Value)
    requires Building(d) && i < |d| && IsChildKey(d[i].key) && NormalField(d[i].key, v) && Canon(v) == v
    ensures Building(d[i := Entry(d[i].key, v)])
  {
    hide Canon, NormalField;
    var r := d[i := Entry(d[i].key, v)];
    assert forall k :: 0 <= k < |d| ==> r[k].key == d[k].key;
    forall k | 0 <= k < |r| ensures r[k].key != TEXT_KEY {
      NoText(d, k);
    }
  }

  /** Pushing one more element's value keeps everything in order. */
  lemma PushBuilding(d: seq<Entry>, name: string, v: Value)
    requires Building(d) && IsChildKey(name) && Normal(v) && Canon(v) == v
    ensures Building(Push(d, name, v))
  {
    hide Building, Canon;
    var i := IndexOf(d, name);
    IndexMissing(d, name);
    if i < |d| {
      var was := d[i].value;
      assert NormalField(name, was) && Canon(was) == was by {
        FieldOf(d, i);
      }
      var lump := if was.List? then was.items else [was];
      LumpCanonical(was, v);
      assert !was.List? ==> [was] + [v] == [was, v];
      ReplaceBuilding(d, i, List(lump + [v]));
    } else {
      AppendBuilding(d, name, v);
    }
  }

  lemma FieldOf(d: seq<Entry>, i: nat)
    requires Building(d) && i < |d| && IsChildKey(d[i].key)
    ensures NormalField(d[i].key, d[i].value) && Canon(d[i].value) == d[i].value
  {
    assert CanonOf(d[i]) == d[i].value;
  }

  lemma {:induction false} AttrsBuilding(attrs: seq<Attr>)
    ensures Building(AttrEntries(attrs))
    ensures forall i :: 0 <= i < |AttrEntries(attrs)| ==> IsAttrKey(AttrEntries(attrs)[i].key)
  {
    if attrs != [] {
      var n := |attrs| - 1;
      AttrsBuilding(attrs[..n]);
      var d := AttrEntries(attrs[..n]);
      var key := "@" + attrs[n].name;
      var i := IndexOf(d, key);
      IndexMissing(d, key);
      var r := Assign(d, key, Str(attrs[n].value));
      assert IsAttrKey(key) && key != TEXT_KEY;
      assert forall k :: 0 <= k < |r| ==> r[k].key == (if k < |d| then d[k].key else key);
      forall k | 0 <= k < |r| ensures NormalField(r[k].key, r[k].value) && CanonOf(r[k]) == r[k].value {
        if k < |d| && k != i {
          assert r[k] == d[k] && NormalField(d[k].key, d[k].value);
        }
      }
    }
  }

  /** Stripped text in last place completes a normal, canonical dictionary. */
  lemma FinishNormal(d: seq<Entry>, text: string)
    requires Building(d)
    ensures Normal(Finish(d, text)) && Canon(Finish(d, text)) == Finish(d, text)
  {
    var t := Strip(text);
    StripTrims(text);
    if d != [] {
      assert d[0].key != TEXT_KEY by {
        assert d[0].key == TEXT_KEY ==> HasKey(d, TEXT_KEY);
      }
      InOrderIsCanonical(d);
      if t != "" {
        var r := Push(d, TEXT_KEY, Str(t));
        IndexMissing(d, TEXT_KEY);
        assert r == d + [Entry(TEXT_KEY, Str(t))];
        forall k | 0 <= k < |d| ensures d[k].key != TEXT_KEY {
          assert d[k].key == TEXT_KEY ==> HasKey(d, TEXT_KEY);
        }
        forall k | 0 <= k < |r| ensures NormalField(r[k].key, r[k].value) && CanonOf(r[k]) == r[k].value {
          if k < |d| {
            assert r[k] == d[k] && NormalField(d[k].key, d[k].value);
          }
        }
        assert r[0] == d[0];
        InOrderIsCanonical(r);
      }
    }
  }

  lemma {:induction false} GatherBuilding(g: Gathered, nodes: seq<Node>)
    requires Building(g.entries) && LegalContent(nodes)
    ensures Building(Gather(g, nodes).entries)
    decreases nodes, 0
  {
    hide Building;
    if nodes != [] {
      assert Legal(nodes[0]);
      match nodes[0] {
        case Chars(s) => GatherBuilding(g.(text := g.text + s), nodes[1..]);
        case Element(name, _, _) =>
          MeaningNormal(nodes[0]);
          PushBuilding(g.entries, name, Meaning(nodes[0]));
          GatherBuilding(g.(entries := Push(g.entries, name, Meaning(nodes[0]))), nodes[1..]);
      }
    }
  }

  /** What an element means is in normal form and canonical order. */
  lemma {:induction false} MeaningNormal(e: Node)
    requires e.Element? && Legal(e)
    ensures Normal(Meaning(e)) && Canon(Meaning(e)) == Meaning(e)
    decreases e, 1
  {
    hide Building, Finish;
    AttrsBuilding(e.attrs);
    GatherBuilding(Gathered(AttrEntries(e.attrs), ""), e.content);
    var g := Gather(Gathered(AttrEntries(e.attrs), ""), e.content);
    FinishNormal(g.entries, g.text);
  }
}
