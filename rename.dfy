/** The attribute renamer: qualifies clashing attribute names with their element's tag. */
module Rename {
  import opened Records

  /** The fixed table from tag to the attribute names that get qualified. */
  const Searches: map<string, seq<string>> := map[
    "inning" := ["num"],
    "atbat" := ["num", "des", "des_es", "event", "b", "s", "o", "score"],
    "pitch" := ["des", "des_es", "id", "tfs", "tfs_zulu"],
    "runner" := ["id", "event", "score"],
    "action" := ["b", "s", "o", "des", "des_es", "event", "tfs", "tfs_zulu"],
    "po" := ["des"]
  ]

  /** The names listed for `tag`; nothing for a tag outside the table. */
  function Listed(tag: string): seq<string>
  {
    if tag in Searches then Searches[tag] else []
  }

  function Qualify(tag: string, name: string): string
  {
    tag + "_" + name
  }

  lemma QualifyInjective(tag: string, a: string, b: string)
    requires Qualify(tag, a) == Qualify(tag, b)
    ensures a == b
  {
    assert a == Qualify(tag, a)[|tag| + 1..];
    assert b == Qualify(tag, b)[|tag| + 1..];
  }

  /** No qualified name is itself a listed name, so a moved attribute is never moved again. */
  predicate NoChains(tag: string, names: seq<string>)
  {
    forall a :: a in names ==> Qualify(tag, a) !in names
  }

  /** The table has no chains: every listed name starts with a letter other than its tag's first. */
  lemma {:induction false} SearchesHaveNoChains(tag: string)
    ensures NoChains(tag, Listed(tag))
  {
    if tag in Searches {
      var names := Searches[tag];
      assert forall a :: a in names ==> a[0] != tag[0];
      forall a | a in names
        ensures Qualify(tag, a) !in names
      {
        assert Qualify(tag, a)[0] == tag[0];
      }
    }
  }

  /** The listed names present on the element. */
  function Moved(names: seq<string>, attrs: Row): set<string>
  {
    set a | a in names && a in attrs
  }

  /** The keys the moved attributes land on. */
  function Landed(tag: string, names: seq<string>, attrs: Row): set<string>
  {
    set a | a in Moved(names, attrs) :: Qualify(tag, a)
  }

  /** The moved attributes under their qualified keys. */
  function Landing(tag: string, names: seq<string>, attrs: Row): map<string, Value>
  {
    var moved := Moved(names, attrs);
    assert forall a, b :: a in moved && b in moved && Qualify(tag, a) == Qualify(tag, b) ==> a == b by {
      forall a, b | a in moved && b in moved && Qualify(tag, a) == Qualify(tag, b)
        ensures a == b
      {
        QualifyInjective(tag, a, b);
      }
    }
    map a | a in moved :: Qualify(tag, a) := attrs[a]
  }

  lemma LandingAt(tag: string, names: seq<string>, attrs: Row, a: string)
    requires a in Moved(names, attrs)
    ensures Qualify(tag, a) in Landing(tag, names, attrs)
    ensures Landing(tag, names, attrs)[Qualify(tag, a)] == attrs[a]
  {
    var l := Landing(tag, names, attrs);
    assert Qualify(tag, a) in l;
    forall b | b in Moved(names, attrs) && Qualify(tag, b) == Qualify(tag, a)
      ensures b == a
    {
      QualifyInjective(tag, a, b);
    }
  }

  /** The attributes after renaming, stated declaratively: the listed attributes present are
      taken out and their values put under the qualified keys; everything else stays. */
  function RenamedAttrs(tag: string, names: seq<string>, attrs: Row): (r: Row)
    ensures forall k :: k in attrs && k !in names ==> k in r
  {
    (attrs - Moved(names, attrs)) + Landing(tag, names, attrs)
  }

  /** What renaming does to one element's attributes: each listed attribute present moves to
      its qualified key with the same value and its own key is gone; every other attribute keeps
      its value unless a moved one landed on its key; no other key appears. */
  lemma RenamedAttrsMeaning(tag: string, names: seq<string>, attrs: Row)
    ensures var r := RenamedAttrs(tag, names, attrs);
            && (forall a :: a in names && a in attrs ==> Qualify(tag, a) in r && r[Qualify(tag, a)] == attrs[a])
            && (NoChains(tag, names) ==> forall a :: a in names ==> a !in r)
            && (forall k :: k in attrs && k !in names && k !in Landed(tag, names, attrs) ==> k in r && r[k] == attrs[k])
            && r.Keys == (attrs.Keys - Moved(names, attrs)) + Landed(tag, names, attrs)
  {
    var r := RenamedAttrs(tag, names, attrs);
    assert Landing(tag, names, attrs).Keys == Landed(tag, names, attrs);
    forall a | a in names && a in attrs
      ensures Qualify(tag, a) in r && r[Qualify(tag, a)] == attrs[a]
    {
      LandingAt(tag, names, attrs, a);
    }
    if NoChains(tag, names) {
      forall a | a in names
        ensures a !in r
      {
        forall b | b in Moved(names, attrs)
          ensures Qualify(tag, b) != a
        {
        }
      }
    }
  }

  lemma NoChainsPrefix(tag: string, names: seq<string>, i: nat)
    requires NoChains(tag, names) && i <= |names|
    ensures NoChains(tag, names[..i])
  {
    forall a | a in names[..i]
      ensures Qualify(tag, a) !in names[..i]
    {
      assert a in names;
    }
  }

  lemma {:induction false} LandingSnoc(tag: string, names: seq<string>, a: string, attrs: Row)
    requires a in attrs && a !in names
    ensures Landing(tag, names + [a], attrs) == Landing(tag, names, attrs)[Qualify(tag, a) := attrs[a]]
  {
    var l := Landing(tag, names, attrs);
    var l' := Landing(tag, names + [a], attrs);
    assert Moved(names + [a], attrs) == Moved(names, attrs) + {a};
    assert l'.Keys == l.Keys + {Qualify(tag, a)};
    forall k | k in l'
      ensures l'[k] == l[Qualify(tag, a) := attrs[a]][k]
    {
      var b :| b in Moved(names + [a], attrs) && k == Qualify(tag, b);
      LandingAt(tag, names + [a], attrs, b);
      if b != a {
        assert Qualify(tag, a) != Qualify(tag, b) by {
          if Qualify(tag, a) == Qualify(tag, b) {
            QualifyInjective(tag, a, b);
          }
        }
        LandingAt(tag, names, attrs, b);
      }
    }
  }

  /** The step when `a` is still present: it joins the moved set. */
  lemma {:induction false} RenameStepMoves(tag: string, names: seq<string>, a: string, attrs: Row)
    requires a in attrs && a !in names
    requires forall b :: b in names ==> a != Qualify(tag, b)
    ensures var m := RenamedAttrs(tag, names, attrs);
            a in m && RenamedAttrs(tag, names + [a], attrs) == (m - {a})[Qualify(tag, a) := m[a]]
  {
    var l := Landing(tag, names, attrs);
    var moved := Moved(names, attrs);
    LandingSnoc(tag, names, a, attrs);
    assert Moved(names + [a], attrs) == moved + {a};
    assert a !in l;
    var m := RenamedAttrs(tag, names, attrs);
    assert m == (attrs - moved) + l;
    assert a in m && m[a] == attrs[a];
    var m' := RenamedAttrs(tag, names + [a], attrs);
    assert m' == (attrs - (moved + {a})) + l[Qualify(tag, a) := attrs[a]];
    var n := (m - {a})[Qualify(tag, a) := attrs[a]];
    assert forall k :: k in m' <==> k in n;
    assert forall k :: k in m' ==> m'[k] == n[k];
  }

  /** The step when `a` is absent (never present, or moved already): nothing changes. */
  lemma RenameStepSkips(tag: string, names: seq<string>, a: string, attrs: Row)
    requires a !in attrs || a in names
    ensures RenamedAttrs(tag, names + [a], attrs) == RenamedAttrs(tag, names, attrs)
  {
    assert Moved(names + [a], attrs) == Moved(names, attrs);
    assert Landed(tag, names + [a], attrs) == Landed(tag, names, attrs);
  }

  /** One pass of the innermost loop: a present attribute is popped and reinserted under its
      qualified key, an absent one is skipped. */
  lemma {:induction false} RenameStep(tag: string, names: seq<string>, i: nat, attrs: Row)
    requires NoChains(tag, names) && i < |names|
    ensures var m := RenamedAttrs(tag, names[..i], attrs);
            var a := names[i];
            RenamedAttrs(tag, names[..i + 1], attrs) == if a in m then (m - {a})[Qualify(tag, a) := m[a]] else m
  {
    var p := names[..i];
    var a := names[i];
    var m := RenamedAttrs(tag, p, attrs);
    assert names[..i + 1] == p + [a];
    NoChainsPrefix(tag, names, i);
    if a in attrs && a !in p {
      forall b | b in p
        ensures a != Qualify(tag, b)
      {
        assert b in names;
      }
      assert a !in Landed(tag, p, attrs);
      RenameStepMoves(tag, p, a, attrs);
    } else {
      RenameStepSkips(tag, p, a, attrs);
      assert a !in m;
    }
  }

  /** The renaming of one element's attributes, pair by pair as the source's innermost loop does. */
  method RenameAttrs(tag: string, attrs: Row) returns (r: Row)
    ensures r == RenamedAttrs(tag, Listed(tag), attrs)
  {
    var names := Listed(tag);
    SearchesHaveNoChains(tag);
    r := attrs;
    for i := 0 to |names|
      invariant r == RenamedAttrs(tag, names[..i], attrs)
    {
      var name := names[i];
      if name in r {
        var v := r[name];
        r := (r - {name})[Qualify(tag, name) := v];
      }
      assert r == RenamedAttrs(tag, names[..i + 1], attrs) by {
        RenameStep(tag, names, i, attrs);
      }
    }
    assert names[..|names|] == names;
  }

  /** With no listed attribute present, renaming changes nothing. */
  lemma RenamedAttrsNoMove(tag: string, names: seq<string>, attrs: Row)
    requires Moved(names, attrs) == {}
    ensures RenamedAttrs(tag, names, attrs) == attrs
  {
    assert Landing(tag, names, attrs) == map[];
    assert (attrs - {}) + map[] == attrs;
  }

  /** Renaming an element's attributes a second time changes nothing. */
  lemma RenamedAttrsIdempotent(tag: string, attrs: Row)
    ensures var r := RenamedAttrs(tag, Listed(tag), attrs);
            RenamedAttrs(tag, Listed(tag), r) == r
  {
    var names := Listed(tag);
    var r := RenamedAttrs(tag, names, attrs);
    assert Moved(names, r) == {} by {
      SearchesHaveNoChains(tag);
      RenamedAttrsMeaning(tag, names, attrs);
      forall a | a in names
        ensures a !in r
      {
      }
    }
    RenamedAttrsNoMove(tag, names, r);
  }

  /** A node after renaming: every element, at every depth, has its listed attributes qualified. */
  function RenamedNode(n: Node): (r: Node)
    ensures r.Element? <==> n.Element?
    ensures n.Element? ==> r.tag == n.tag && |r.children| == |n.children|
  {
    match n
    case Text(_) => n
    case Element(tag, attrs, children) =>
      Element(tag, RenamedAttrs(tag, Listed(tag), attrs), RenamedForest(children))
  }

  function RenamedForest(nodes: seq<Node>): (r: seq<Node>)
    ensures |r| == |nodes|
  {
    seq(|nodes|, i requires 0 <= i < |nodes| => RenamedNode(nodes[i]))
  }

  lemma RenamedForestSnoc(nodes: seq<Node>, i: nat)
    requires i < |nodes|
    ensures RenamedForest(nodes[..i + 1]) == RenamedForest(nodes[..i]) + [RenamedNode(nodes[i])]
  {
  }

  /** The source walks every element with a listed tag and rewrites its attributes in place;
      here the document is a value, rebuilt element by element. */
  method RenameKeys(nodes: seq<Node>) returns (r: seq<Node>)
    ensures r == RenamedForest(nodes)
  {
    r := [];
    for i := 0 to |nodes|
      invariant r == RenamedForest(nodes[..i])
    {
      RenamedForestSnoc(nodes, i);
      var n := nodes[i];
      match n {
        case Text(_) =>
          r := r + [n];
        case Element(tag, attrs, children) =>
          var a := RenameAttrs(tag, attrs);
          var cs := RenameKeys(children);
          assert Element(tag, a, cs) == RenamedNode(n);
          r := r + [Element(tag, a, cs)];
      }
    }
    assert nodes[..|nodes|] == nodes;
  }

  /** Two trees with the same tags, text and nesting; only attributes may differ. */
  predicate SameShape(a: Node, b: Node)
  {
    match (a, b)
    case (Text(s), Text(t)) => s == t
    case (Element(t, _, ac), Element(u, _, bc)) =>
      t == u && |ac| == |bc| && forall i :: 0 <= i < |ac| ==> SameShape(ac[i], bc[i])
    case _ => false
  }

  /** Renaming keeps every tag, every text node and the nesting. */
  lemma {:induction false} RenamePreservesShape(n: Node)
    ensures SameShape(n, RenamedNode(n))
  {
    match n
    case Text(_) =>
    case Element(tag, attrs, children) =>
      var cs := RenamedForest(children);
      forall i | 0 <= i < |children|
        ensures SameShape(children[i], cs[i])
      {
        RenamePreservesShape(children[i]);
      }
  }

  /** An element whose tag is not in the table keeps its attributes exactly. */
  lemma UnlistedTagKept(tag: string, attrs: Row)
    requires tag !in Searches
    ensures RenamedAttrs(tag, Listed(tag), attrs) == attrs
  {
    assert Moved(Listed(tag), attrs) == {};
    RenamedAttrsNoMove(tag, Listed(tag), attrs);
  }

  /** Renaming a second time changes nothing: no qualified key is listed again. */
  lemma {:induction false} RenameIdempotent(n: Node)
    ensures RenamedNode(RenamedNode(n)) == RenamedNode(n)
  {
    match n
    case Text(_) =>
    case Element(tag, attrs, children) =>
      var a := RenamedAttrs(tag, Listed(tag), attrs);
      var cs := RenamedForest(children);
      RenamedAttrsIdempotent(tag, attrs);
      forall i | 0 <= i < |cs|
        ensures RenamedNode(cs[i]) == cs[i]
      {
        RenameIdempotent(children[i]);
      }
      assert RenamedForest(cs) == cs;
      assert RenamedNode(Element(tag, a, cs)) == Element(tag, RenamedAttrs(tag, Listed(tag), a), RenamedForest(cs));
  }
}
