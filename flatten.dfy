/** The tree flattener: one row per element without contents, carrying every ancestor's attributes. */
module Flatten {
  import opened Records

  /** The rows emitted for a run of sibling nodes that all inherit `acc`. A text node has no
      attributes and is passed over; an element with contents (even text only) is descended
      into with its own attributes merged over `acc`; an element without contents is emitted. */
  function Rows(nodes: seq<Node>, acc: Row): (r: seq<Row>)
    ensures forall k :: 0 <= k < |r| ==> acc.Keys <= r[k].Keys
  {
    if nodes == [] then [] else NodeRows(nodes[0], acc) + Rows(nodes[1..], acc)
  }

  /** The rows of one node; every row keeps every inherited key. */
  function NodeRows(n: Node, acc: Row): (r: seq<Row>)
    ensures forall k :: 0 <= k < |r| ==> acc.Keys <= r[k].Keys
  {
    match n
    case Text(_) => []
    case Element(_, attrs, children) =>
      if |children| > 0 then Rows(children, acc + attrs) else [acc + attrs]
  }

  /** Siblings are flattened independently: each sees only what it inherits, never what an
      earlier sibling contributed. */
  lemma {:induction false} RowsConcat(a: seq<Node>, b: seq<Node>, acc: Row)
    ensures Rows(a + b, acc) == Rows(a, acc) + Rows(b, acc)
  {
    if a == [] {
      assert a + b == b;
    } else {
      assert (a + b)[1..] == a[1..] + b;
      RowsConcat(a[1..], b, acc);
    }
  }

  lemma RowsSnoc(nodes: seq<Node>, i: nat, acc: Row)
    requires i < |nodes|
    ensures Rows(nodes[..i + 1], acc) == Rows(nodes[..i], acc) + NodeRows(nodes[i], acc)
  {
    assert nodes[..i + 1] == nodes[..i] + [nodes[i]];
    RowsConcat(nodes[..i], [nodes[i]], acc);
    assert Rows([nodes[i]], acc) == NodeRows(nodes[i], acc) + Rows([], acc);
  }

  // ----- An independent description: root-to-leaf chains of elements -----

  /** The chains of elements from a node in `nodes` down to an element without contents, in
      depth-first pre-order. */
  function LeafPaths(nodes: seq<Node>): seq<seq<Node>>
  {
    if nodes == [] then [] else NodePaths(nodes[0]) + LeafPaths(nodes[1..])
  }

  function NodePaths(n: Node): seq<seq<Node>>
  {
    match n
    case Text(_) => []
    case Element(_, _, children) =>
      if |children| > 0 then Prepend(n, LeafPaths(children)) else [[n]]
  }

  function Prepend(n: Node, paths: seq<seq<Node>>): seq<seq<Node>>
  {
    seq(|paths|, i requires 0 <= i < |paths| => [n] + paths[i])
  }

  function AttrsOf(n: Node): Row
  {
    if n.Element? then n.attrs else map[]
  }

  /** `acc` overlaid by the attributes of each element of `path` in turn, the deepest last. */
  function Overlay(acc: Row, path: seq<Node>): Row
    decreases path
  {
    if path == [] then acc else Overlay(acc + AttrsOf(path[0]), path[1..])
  }

  function OverlayAll(acc: Row, paths: seq<seq<Node>>): seq<Row>
  {
    seq(|paths|, i requires 0 <= i < |paths| => Overlay(acc, paths[i]))
  }

  /** `path` descends from one of `nodes` through elements with contents to an element without. */
  ghost predicate Chain(nodes: seq<Node>, path: seq<Node>)
  {
    && |path| > 0
    && path[0] in nodes
    && (forall j :: 0 <= j < |path| ==> path[j].Element?)
    && (forall j :: 0 <= j < |path| - 1 ==> |path[j].children| > 0 && path[j + 1] in path[j].children)
    && Last(path).children == []
  }

  /** Every chain ends at an element without contents and passes only through elements with
      contents: text nodes are never emitted, and neither is an element with any contents. */
  lemma {:induction false} LeafPathsAreChains(nodes: seq<Node>)
    ensures forall i :: 0 <= i < |LeafPaths(nodes)| ==> Chain(nodes, LeafPaths(nodes)[i])
  {
    if nodes != [] {
      var n := nodes[0];
      LeafPathsAreChains(nodes[1..]);
      var here := NodePaths(n);
      var rest := LeafPaths(nodes[1..]);
      forall i | 0 <= i < |here|
        ensures Chain(nodes, here[i])
      {
        if |n.children| > 0 {
          LeafPathsAreChains(n.children);
          var p := LeafPaths(n.children)[i];
          assert Chain(n.children, p);
          assert here[i] == [n] + p;
        }
      }
      forall i | 0 <= i < |rest|
        ensures Chain(nodes, rest[i])
      {
        assert Chain(nodes[1..], rest[i]);
      }
      assert LeafPaths(nodes) == here + rest;
    }
  }

  /** Conversely, every chain is emitted: no element without contents is missed. */
  lemma {:induction false} ChainsAreLeafPaths(nodes: seq<Node>, path: seq<Node>)
    requires Chain(nodes, path)
    ensures path in LeafPaths(nodes)
    decreases |path|, 1
  {
    var k :| 0 <= k < |nodes| && nodes[k] == path[0];
    ChainIsNodePath(nodes, path);
    NodePathInLeafPaths(nodes, k, path);
  }

  /** A chain is one of the paths of the node it starts from. */
  lemma {:induction false} ChainIsNodePath(nodes: seq<Node>, path: seq<Node>)
    requires Chain(nodes, path)
    ensures path in NodePaths(path[0])
    decreases |path|, 0
  {
    var n := path[0];
    assert n.Element?;
    if |path| == 1 {
      assert Last(path) == n;
      assert path == [n];
    } else {
      var tail := path[1..];
      assert Last(tail) == Last(path);
      assert Chain(n.children, tail);
      ChainsAreLeafPaths(n.children, tail);
      var i :| 0 <= i < |LeafPaths(n.children)| && LeafPaths(n.children)[i] == tail;
      assert Prepend(n, LeafPaths(n.children))[i] == path;
    }
  }

  lemma {:induction false} NodePathInLeafPaths(nodes: seq<Node>, k: nat, path: seq<Node>)
    requires k < |nodes| && path in NodePaths(nodes[k])
    ensures path in LeafPaths(nodes)
  {
    if k > 0 {
      NodePathInLeafPaths(nodes[1..], k - 1, path);
    }
  }

  lemma OverlayAllConcat(acc: Row, a: seq<seq<Node>>, b: seq<seq<Node>>)
    ensures OverlayAll(acc, a + b) == OverlayAll(acc, a) + OverlayAll(acc, b)
  {
  }

  lemma OverlayAllPrepend(acc: Row, n: Node, paths: seq<seq<Node>>)
    ensures OverlayAll(acc, Prepend(n, paths)) == OverlayAll(acc + AttrsOf(n), paths)
  {
    forall i | 0 <= i < |paths|
      ensures Overlay(acc, [n] + paths[i]) == Overlay(acc + AttrsOf(n), paths[i])
    {
      assert ([n] + paths[i])[1..] == paths[i];
    }
  }

  /** Flattening emits, in order, one row per leaf chain: what the root-side path inherited,
      overlaid by each element's attributes down the chain. */
  lemma {:induction false} RowsArePathOverlays(nodes: seq<Node>, acc: Row)
    ensures Rows(nodes, acc) == OverlayAll(acc, LeafPaths(nodes))
  {
    if nodes != [] {
      var n := nodes[0];
      RowsArePathOverlays(nodes[1..], acc);
      OverlayAllConcat(acc, NodePaths(n), LeafPaths(nodes[1..]));
      match n {
        case Text(_) =>
        case Element(_, attrs, children) =>
          if |children| > 0 {
            RowsArePathOverlays(children, acc + attrs);
            OverlayAllPrepend(acc, n, LeafPaths(children));
          } else {
            assert Overlay(acc, [n]) == Overlay(acc + attrs, []);
          }
      }
    }
  }

  /** On a key clash the deepest element that has the key wins. */
  lemma {:induction false} OverlayDeepestWins(acc: Row, path: seq<Node>, j: nat, k: string)
    requires j < |path| && k in AttrsOf(path[j])
    requires forall j' :: j < j' < |path| ==> k !in AttrsOf(path[j'])
    ensures k in Overlay(acc, path) && Overlay(acc, path)[k] == AttrsOf(path[j])[k]
    decreases path
  {
    if j == 0 {
      OverlayKeeps(acc + AttrsOf(path[0]), path[1..], k);
    } else {
      OverlayDeepestWins(acc + AttrsOf(path[0]), path[1..], j - 1, k);
    }
  }

  /** A key no element of the path carries keeps its inherited value; no key comes from nowhere. */
  lemma {:induction false} OverlayKeeps(acc: Row, path: seq<Node>, k: string)
    requires forall j :: 0 <= j < |path| ==> k !in AttrsOf(path[j])
    ensures k in Overlay(acc, path) <==> k in acc
    ensures k in acc ==> Overlay(acc, path)[k] == acc[k]
    decreases path
  {
    if path != [] {
      OverlayKeeps(acc + AttrsOf(path[0]), path[1..], k);
    }
  }

  /** The number of elements without contents, at any depth. */
  function CountLeaves(nodes: seq<Node>): nat
  {
    if nodes == [] then 0
    else
      (match nodes[0]
       case Text(_) => 0
       case Element(_, _, children) => if |children| > 0 then CountLeaves(children) else 1)
      + CountLeaves(nodes[1..])
  }

  /** Exactly one row per element without contents. */
  lemma {:induction false} RowCount(nodes: seq<Node>, acc: Row)
    ensures |Rows(nodes, acc)| == CountLeaves(nodes)
  {
    if nodes != [] {
      RowCount(nodes[1..], acc);
      match nodes[0] {
        case Text(_) =>
        case Element(_, attrs, children) =>
          if |children| > 0 {
            RowCount(children, acc + attrs);
          }
      }
    }
  }

  /** The closure state of the source's flattener: the list the nested walker appends to. */
  class Flattener {
    var rows: seq<Row>

    constructor ()
      ensures rows == []
    {
      rows := [];
    }

    /** Walks the children of one node; `attrDict` is what they inherit. A fresh merged
        dictionary is built for each child, so the caller's dictionary is never changed. */
    method GetAttributes(source: seq<Node>, attrDict: Row)
      modifies this
      ensures rows == old(rows) + Rows(source, attrDict)
    {
      for i := 0 to |source|
        invariant rows == old(rows) + Rows(source[..i], attrDict)
      {
        RowsSnoc(source, i, attrDict);
        match source[i] {
          case Text(_) =>
          case Element(_, attrs, children) =>
            var newAttr := attrDict + attrs;
            if |children| > 0 {
              GetAttributes(children, newAttr);
            } else {
              rows := rows + [newAttr];
            }
        }
      }
      assert source[..|source|] == source;
    }
  }

  /** Every row stamped with the game id and its 1-based position. */
  function Stamped(rows: seq<Row>, gid: string): (r: seq<Row>)
    ensures |r| == |rows|
  {
    seq(|rows|, k requires 0 <= k < |rows| => rows[k]["game_id" := Str(gid)]["event_index" := Int(k + 1)])
  }

  /** After stamping, every row carries the game id, the event indexes are exactly 1..N in
      order, and every other field is as it was. */
  lemma StampedIndexes(rows: seq<Row>, gid: string)
    ensures var r := Stamped(rows, gid);
            && |r| == |rows|
            && (forall k :: 0 <= k < |r| ==> "game_id" in r[k] && r[k]["game_id"] == Str(gid))
            && (forall k :: 0 <= k < |r| ==> "event_index" in r[k] && r[k]["event_index"] == Int(k + 1))
            && (forall i, j :: 0 <= i < j < |r| ==> r[i]["event_index"].n < r[j]["event_index"].n)
            && (forall k, f :: 0 <= k < |r| && f != "game_id" && f != "event_index" ==>
                  (f in r[k] <==> f in rows[k]) && (f in rows[k] ==> r[k][f] == rows[k][f]))
  {
  }

  /** The stamping loop: a running counter from 1, each row updated in place. */
  method StampRows(rows: array<Row>, gid: string)
    modifies rows
    ensures rows[..] == Stamped(old(rows[..]), gid)
  {
    var c := 1;
    for i := 0 to rows.Length
      invariant c == i + 1
      invariant rows[..i] == Stamped(old(rows[..]), gid)[..i]
      invariant rows[i..] == old(rows[..])[i..]
    {
      rows[i] := rows[i]["game_id" := Str(gid)]["event_index" := Int(c)];
      c := c + 1;
    }
  }

  /** Flattening the whole document into a fresh array of stamped rows. */
  method FlattenRows(doc: seq<Node>, gid: string) returns (rows: array<Row>)
    ensures fresh(rows)
    ensures rows[..] == Stamped(Rows(doc, map[]), gid)
  {
    var f := new Flattener();
    f.GetAttributes(doc, map[]);
    var emitted := f.rows;
    rows := new Row[|emitted|](i requires 0 <= i < |emitted| => emitted[i]);
    assert rows[..] == emitted;
    StampRows(rows, gid);
  }
}
