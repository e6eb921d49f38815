/**
 Normal-form dictionaries, their canonical key order, and the proof that every
 document means one.
 */
module XmlNormal {
  import opened XmlTree

  /** The value of one element: text is non-empty and stripped, a dictionary holds
      more than text, a list (under a child key) at least two elements. */
  predicate Normal(v: Value)
    decreases v, 0
  {
    match v
    case Nil => true
    case Str(s) => Trimmed(s)
    case List(_) => false
    case Dict(es) => NormalEntries(es) && UniqueKeys(es) && exists i :: 0 <= i < |es| && es[i].key != TEXT_KEY
  }

  predicate NormalEntries(es: seq<Entry>)
    decreases es, 0
  {
    forall i :: 0 <= i < |es| ==> NormalField(es[i].key, es[i].value)
  }

  predicate NormalField(key: string, v: Value)
    decreases v, 1
  {
    if key == TEXT_KEY then v.Str? && Trimmed(v.s)
    else if IsAttrKey(key) then v.Str?
    else if v.List? then |v.items| >= 2 && forall i :: 0 <= i < |v.items| ==> Normal(v.items[i])
    else Normal(v)
  }

  predicate IsChildKey(key: string) { key != TEXT_KEY && !IsAttrKey(key) }

  // ---- Canonical order: attributes, children, text ----

  function AttrPart(es: seq<Entry>): seq<Entry> {
    if es == [] then []
    else (if IsAttrKey(es[0].key) then [es[0]] else []) + AttrPart(es[1..])
  }

  function TextPart(es: seq<Entry>): seq<Entry> {
    if es == [] then []
    else (if es[0].key == TEXT_KEY then [es[0]] else []) + TextPart(es[1..])
  }

  function ChildPart(es: seq<Entry>): seq<Entry>
    decreases es, 0
  {
    if es == [] then []
    else (if IsChildKey(es[0].key) then [Entry(es[0].key, Canon(es[0].value))] else []) + ChildPart(es[1..])
  }

  function CanonList(vs: seq<Value>): (r: seq<Value>)
    ensures |r| == |vs|
    decreases vs, 0
  {
    if vs == [] then [] else [Canon(vs[0])] + CanonList(vs[1..])
  }

  /** The same value with every dictionary in canonical order. */
  function Canon(v: Value): Value
    decreases v, 1
  {
    match v
    case Nil => v
    case Str(_) => v
    case List(vs) => List(CanonList(vs))
    case Dict(es) => Dict(AttrPart(es) + ChildPart(es) + TextPart(es))
  }

  /** Equal up to the order of keys, at every level. */
  predicate Same(a: Value, b: Value)
    decreases a
  {
    match a
    case Nil => b.Nil?
    case Str(_) => a == b
    case List(vs) => b.List? && |b.items| == |vs| && forall i :: 0 <= i < |vs| ==> Same(vs[i], b.items[i])
    case Dict(es) =>
      && b.Dict? && |b.entries| == |es| && UniqueKeys(b.entries)
      && forall i :: 0 <= i < |es| ==>
           var j := IndexOf(b.entries, es[i].key);
           j < |es| && Same(es[i].value, b.entries[j].value)
  }

  lemma {:induction false} CanonListAt(vs: seq<Value>, i: nat)
    requires i < |vs|
    ensures CanonList(vs)[i] == Canon(vs[i])
  {
    if i > 0 {
      CanonListAt(vs[1..], i - 1);
    }
  }

  /** The canonical value of an entry. */
  function CanonOf(e: Entry): Value { if IsChildKey(e.key) then Canon(e.value) else e.value }

  function Reordered(es: seq<Entry>): seq<Entry> { AttrPart(es) + ChildPart(es) + TextPart(es) }

  /** Reordering keeps exactly the entries, with canonical values. */
  lemma {:induction false} ReorderedHas(es: seq<Entry>, e: Entry)
    ensures e in Reordered(es) <==> exists i :: 0 <= i < |es| && e == Entry(es[i].key, CanonOf(es[i]))
    ensures |Reordered(es)| == |es|
  {
    if es != [] {
      var rest := es[1..];
      ReorderedHas(rest, e);
      assert e in Reordered(es) <==> e == Entry(es[0].key, CanonOf(es[0])) || e in Reordered(rest);
      if e in Reordered(rest) {
        var i :| 0 <= i < |rest| && e == Entry(rest[i].key, CanonOf(rest[i]));
        assert e == Entry(es[i + 1].key, CanonOf(es[i + 1]));
      }
      if i :| 0 <= i < |es| && e == Entry(es[i].key, CanonOf(es[i])) {
        assert i > 0 ==> es[i] == rest[i - 1];
      }
    }
  }

  /** Entries whose keys come from `es` one for one have unique keys if `es` has. */
  lemma {:induction false} PartsKeys(es: seq<Entry>, key: string)
    ensures HasKey(AttrPart(es), key) ==> HasKey(es, key) && IsAttrKey(key)
    ensures HasKey(ChildPart(es), key) ==> HasKey(es, key) && IsChildKey(key)
    ensures HasKey(TextPart(es), key) ==> HasKey(es, key) && key == TEXT_KEY
  {
    if es != [] {
      PartsKeys(es[1..], key);
      HasKeyTail(es, key);
      if IsAttrKey(es[0].key) { HasKeyCons(es[0], AttrPart(es[1..]), key); }
      if IsChildKey(es[0].key) { HasKeyCons(Entry(es[0].key, Canon(es[0].value)), ChildPart(es[1..]), key); }
      if es[0].key == TEXT_KEY { HasKeyCons(es[0], TextPart(es[1..]), key); }
    }
  }

  lemma HasKeyTail(es: seq<Entry>, key: string)
    requires es != []
    ensures HasKey(es, key) <==> es[0].key == key || HasKey(es[1..], key)
  {
    if i :| 0 <= i < |es[1..]| && es[1..][i].key == key {
      assert es[i + 1].key == key;
    }
    if i :| 0 <= i < |es| && es[i].key == key {
      assert i > 0 ==> es[1..][i - 1].key == key;
    }
  }

  lemma HasKeyCons(e: Entry, es: seq<Entry>, key: string)
    ensures HasKey([e] + es, key) <==> e.key == key || HasKey(es, key)
  {
    HasKeyTail([e] + es, key);
    assert ([e] + es)[1..] == es;
  }

  lemma UniqueCons(e: Entry, es: seq<Entry>)
    ensures UniqueKeys([e] + es) <==> !HasKey(es, e.key) && UniqueKeys(es)
  {
    var all := [e] + es;
    if UniqueKeys(all) {
      forall i, j | 0 <= i < j < |es| ensures es[i].key != es[j].key {
        assert all[i + 1].key != all[j + 1].key;
      }
      forall i | 0 <= i < |es| ensures es[i].key != e.key {
        assert all[0].key != all[i + 1].key;
      }
    }
    if !HasKey(es, e.key) && UniqueKeys(es) {
      forall i, j | 0 <= i < j < |all| ensures all[i].key != all[j].key {
        assert all[j] == es[j - 1];
        assert i > 0 ==> all[i] == es[i - 1];
      }
    }
  }

  lemma {:induction false} UniqueConcat(a: seq<Entry>, b: seq<Entry>)
    requires UniqueKeys(a) && UniqueKeys(b) && forall i :: 0 <= i < |a| ==> !HasKey(b, a[i].key)
    ensures UniqueKeys(a + b)
  {
    forall i, j | 0 <= i < j < |a + b| ensures (a + b)[i].key != (a + b)[j].key {
      if i < |a| <= j {
        assert b[j - |a|].key == (a + b)[j].key;
      }
    }
  }

  lemma {:induction false} PartsUnique(es: seq<Entry>)
    requires UniqueKeys(es)
    ensures UniqueKeys(AttrPart(es)) && UniqueKeys(ChildPart(es)) && UniqueKeys(TextPart(es))
  {
    if es != [] {
      var e, rest := es[0], es[1..];
      assert es == [e] + rest;
      UniqueCons(e, rest);
      PartsUnique(rest);
      PartsKeys(rest, e.key);
      UniqueCons(e, AttrPart(rest));
      UniqueCons(Entry(e.key, Canon(e.value)), ChildPart(rest));
      UniqueCons(e, TextPart(rest));
    }
  }

  lemma ReorderedUnique(es: seq<Entry>)
    requires UniqueKeys(es)
    ensures UniqueKeys(Reordered(es))
  {
    PartsUnique(es);
    var a, c, t := AttrPart(es), ChildPart(es), TextPart(es);
    forall i | 0 <= i < |a| ensures !HasKey(c, a[i].key) && !HasKey(t, a[i].key) {
      PartsKeys(es, a[i].key);
      assert HasKey(a, a[i].key);
    }
    forall i | 0 <= i < |c| ensures !HasKey(t, c[i].key) {
      PartsKeys(es, c[i].key);
      assert HasKey(c, c[i].key);
    }
    UniqueConcat(a, c);
    UniqueConcat(a + c, t);
  }

  /** The canonical form differs from a normal form in key order only. */
  lemma {:induction false} CanonSame(v: Value)
    requires Normal(v)
    ensures Same(v, Canon(v))
    decreases v, 0
  {
    if v.Dict? {
      var es, b := v.entries, Reordered(v.entries);
      ReorderedUnique(es);
      forall i | 0 <= i < |es|
        ensures var j := IndexOf(b, es[i].key); j < |b| && Same(es[i].value, b[j].value)
      {
        var e := Entry(es[i].key, CanonOf(es[i]));
        ReorderedHas(es, e);
        var k :| 0 <= k < |b| && b[k] == e;
        assert NormalField(es[i].key, es[i].value);
        FieldSame(es[i]);
      }
      ReorderedHas(es, es[0]);
    }
  }

  lemma {:induction false} FieldSame(e: Entry)
    requires NormalField(e.key, e.value)
    ensures Same(e.value, CanonOf(e))
    decreases e.value, 1
  {
    if IsChildKey(e.key) {
      if e.value.List? {
        var vs := e.value.items;
        forall i | 0 <= i < |vs| ensures Same(vs[i], CanonList(vs)[i]) {
          CanonListAt(vs, i);
          CanonSame(vs[i]);
        }
      } else {
        CanonSame(e.value);
      }
    }
  }
}
