/**
 * Writing a partition out as rows, as `iter_gen_rows` in pynock/pynock.py
 * does it: one node row per registered name, each followed by that node's
 * edge rows numbered from 0, optionally sorted by node name, by relation id
 * and by destination name.
 */
module PynockEmit {
  import opened Strs
  import opened Graph
  import opened PynockIngest

  // ------------------------------------------------------------------
  // Orders

  /**
   * The ids 0 .. n - 1 in order. Ids are handed out in registration order,
   * so this is the order `node_names.items()` yields them in.
   */
  function Ids(n: nat): (r: seq<nat>)
    ensures |r| == n && forall k :: 0 <= k < n ==> r[k] == k
  {
    seq(n, k requires 0 <= k < n => k as nat)
  }

  /** The name stored under an id: the key `sorted(node_names.items())` orders by. */
  function NameOf(s: State): nat -> string
  {
    (id: nat) => if id in s.nodes then s.nodes[id].name else EMPTY_STRING
  }

  /** The name of an edge's destination: the key edges are sorted by. */
  function DstName(s: State): Edge -> string
  {
    (e: Edge) => NameOf(s)(e.node_id)
  }

  /** The ids of the nodes in the order their rows are written. */
  function NodeOrder(s: State, sort: bool): (r: seq<nat>)
    ensures multiset(r) == multiset(Ids(s.next_node))
  {
    if sort then SortBy(Ids(s.next_node), KeyLess(NameOf(s))) else Ids(s.next_node)
  }

  /** The relations of a node in the order their edge lists are written. */
  function GroupOrder(n: Node, sort: bool): (r: seq<nat>)
    ensures multiset(r) == multiset(n.edge_map.rels)
  {
    if sort then SortBy(n.edge_map.rels, NatLess()) else n.edge_map.rels
  }

  /** One relation's edge list in the order it is written. */
  function Ordered(s: State, list: seq<Edge>, sort: bool): (r: seq<Edge>)
    ensures multiset(r) == multiset(list)
  {
    if sort then SortBy(list, KeyLess(DstName(s))) else list
  }

  /** Sorted relation groups come in strictly ascending relation id, as `sorted(edge_map.items())` gives them. */
  lemma SortedGroupOrder(n: Node)
    requires n.edge_map.Valid()
    ensures forall i, j :: 0 <= i < j < |GroupOrder(n, true)| ==> GroupOrder(n, true)[i] < GroupOrder(n, true)[j]
  {
    NatLessIsStrictWeakOrder();
    SortBySorted(n.edge_map.rels, NatLess());
    DistinctSortBy(n.edge_map.rels, NatLess());
    var r := GroupOrder(n, true);
    forall i, j | 0 <= i < j < |r| ensures r[i] < r[j] {
      assert !NatLess()(r[j], r[i]);
    }
  }

  /**
   * A sorted edge list comes in ascending destination name, and edges whose
   * destinations share a name keep the order they were added in.
   */
  lemma SortedEdgeOrder(s: State, list: seq<Edge>)
    ensures var r := Ordered(s, list, true);
      forall i, j :: 0 <= i < j < |r| ==> !Less(DstName(s)(r[j]), DstName(s)(r[i]))
    ensures forall c :: Equivalents(Ordered(s, list, true), c, KeyLess(DstName(s))) == Equivalents(list, c, KeyLess(DstName(s)))
  {
    KeyLessIsStrictWeakOrder(DstName(s));
    SortBySorted(list, KeyLess(DstName(s)));
    forall c ensures Equivalents(Ordered(s, list, true), c, KeyLess(DstName(s))) == Equivalents(list, c, KeyLess(DstName(s))) {
      SortByStable(list, c, KeyLess(DstName(s)));
    }
  }

  /** The edges of the given relations' lists, group after group. */
  function EdgesOfGroups(s: State, m: EdgeMap, groups: seq<nat>, sort: bool): (r: seq<Edge>)
    ensures |r| == Sum(groups, ListLengths(m))
  {
    if groups == [] then []
    else EdgesOfGroups(s, m, groups[..|groups| - 1], sort) + Ordered(s, m.ListFor(groups[|groups| - 1]), sort)
  }

  /** A node's edges in the order its edge rows are written; none is lost or repeated. */
  function NodeEdges(s: State, n: Node, sort: bool): (r: seq<Edge>)
    ensures |r| == n.edge_map.Count()
  {
    SumSortBy(n.edge_map.rels, NatLess(), ListLengths(n.edge_map));
    EdgesOfGroups(s, n.edge_map, GroupOrder(n, sort), sort)
  }

  // ------------------------------------------------------------------
  // Rows

  /** The row written for a node: no relation, no destination, its labels joined. */
  function NodeRow(json: JsonCodec, n: Node): Row
  {
    Row(n.name, -1, None, None, n.truth, n.shadow, n.is_rdf, Some(EncodeLabels(n.label_set)), SaveProps(json, n.prop_map))
  }

  /** The row written for edge `e` of node `n`, numbered `edge_id` among that node's edges. */
  function EdgeRow(json: JsonCodec, s: State, n: Node, e: Edge, edge_id: nat): Row
    requires e.rel < |s.edge_rels|
  {
    Row(n.name, edge_id, Some(s.edge_rels[e.rel]), Some(NameOf(s)(e.node_id)), e.truth, -1, n.is_rdf, None,
        SaveProps(json, e.prop_map))
  }

  /** The rows of the edges `es`, numbered from `start`. */
  function EdgeRows(json: JsonCodec, s: State, n: Node, es: seq<Edge>, start: nat): (r: seq<Row>)
    requires forall k :: 0 <= k < |es| ==> es[k].rel < |s.edge_rels|
    ensures |r| == |es|
  {
    seq(|es|, k requires 0 <= k < |es| => EdgeRow(json, s, n, es[k], start + k))
  }


  /** Numbering the rows of two batches of edges continues from the first into the second. */
  lemma EdgeRowsAppend(json: JsonCodec, s: State, n: Node, a: seq<Edge>, b: seq<Edge>, start: nat)
    requires forall k :: 0 <= k < |a| ==> a[k].rel < |s.edge_rels|
    requires forall k :: 0 <= k < |b| ==> b[k].rel < |s.edge_rels|
    ensures forall k :: 0 <= k < |a + b| ==> (a + b)[k].rel < |s.edge_rels|
    ensures EdgeRows(json, s, n, a + b, start) == EdgeRows(json, s, n, a, start) + EdgeRows(json, s, n, b, start + |a|)
  {
    assert forall k :: 0 <= k < |a + b| ==> (a + b)[k] == if k < |a| then a[k] else b[k - |a|];
  }

  /** Every edge of the given groups comes from one of their lists, and every such edge is there. */
  lemma {:induction false} EdgesOfGroupsMembers(s: State, m: EdgeMap, groups: seq<nat>, sort: bool)
    ensures forall e :: e in EdgesOfGroups(s, m, groups, sort) <==>
      exists k :: 0 <= k < |groups| && e in m.ListFor(groups[k])
  {
    if groups != [] {
      var init := groups[..|groups| - 1];
      var last := groups[|groups| - 1];
      EdgesOfGroupsMembers(s, m, init, sort);
      var front := EdgesOfGroups(s, m, init, sort);
      var tail := Ordered(s, m.ListFor(last), sort);
      assert EdgesOfGroups(s, m, groups, sort) == front + tail;
      forall e | e in front + tail ensures exists k :: 0 <= k < |groups| && e in m.ListFor(groups[k]) {
        if e in front {
          var k :| 0 <= k < |init| && e in m.ListFor(init[k]);
          assert groups[k] == init[k];
        } else {
          assert e in multiset(tail);
          assert groups[|groups| - 1] == last;
        }
      }
      forall e, k | 0 <= k < |groups| && e in m.ListFor(groups[k]) ensures e in front + tail {
        if k < |init| {
          assert init[k] == groups[k];
        } else {
          assert e in multiset(m.ListFor(last));
        }
      }
    }
  }

  /**
   * The edges written for a node are exactly the edges it stores, sorted or
   * not, and each of them fits the partition.
   */
  lemma NodeEdgesMembers(s: State, n: Node, sort: bool)
    requires n.edge_map.Valid() && ListsFit(s, n.edge_map)
    ensures forall e :: e in NodeEdges(s, n, sort) <==> e.rel in n.edge_map.lists && e in n.edge_map.lists[e.rel]
    ensures forall k :: 0 <= k < |NodeEdges(s, n, sort)| ==> EdgeFits(s, NodeEdges(s, n, sort)[k])
  {
    var m := n.edge_map;
    var groups := GroupOrder(n, sort);
    EdgesOfGroupsMembers(s, m, groups, sort);
    forall e ensures e in NodeEdges(s, n, sort) <==> e.rel in m.lists && e in m.lists[e.rel] {
      if e in NodeEdges(s, n, sort) {
        var k :| 0 <= k < |groups| && e in m.ListFor(groups[k]);
        assert groups[k] in multiset(m.rels);
        var i :| 0 <= i < |m.lists[groups[k]]| && m.lists[groups[k]][i] == e;
      }
      if e.rel in m.lists && e in m.lists[e.rel] {
        assert e.rel in multiset(groups);
        var k :| 0 <= k < |groups| && groups[k] == e.rel;
        assert e in m.ListFor(groups[k]);
      }
    }
    forall k | 0 <= k < |NodeEdges(s, n, sort)| ensures EdgeFits(s, NodeEdges(s, n, sort)[k]) {
      var e := NodeEdges(s, n, sort)[k];
      assert e in NodeEdges(s, n, sort);
      var i :| 0 <= i < |m.lists[e.rel]| && m.lists[e.rel][i] == e;
    }
  }

  /** A node row followed by the node's edge rows, numbered from 0. */
  function Block(json: JsonCodec, s: State, id: nat, sort: bool): (r: seq<Row>)
    requires Consistent(s) && id in s.nodes
    ensures |r| == 1 + s.nodes[id].edge_map.Count()
  {
    var n := s.nodes[id];
    NodeEdgesMembers(s, n, sort);
    [NodeRow(json, n)] + EdgeRows(json, s, n, NodeEdges(s, n, sort), 0)
  }

  /**
   * The shape of a block: the node row first, carrying the node's name,
   * labels, properties, truth, shadow and `is_rdf`, then one row per
   * stored edge.
   */
  lemma BlockShape(json: JsonCodec, s: State, id: nat, sort: bool)
    requires Consistent(s) && id in s.nodes
    ensures var n := s.nodes[id]; var b := Block(json, s, id, sort);
      && |b| == 1 + |NodeEdges(s, n, sort)|
      && b[0].src_name == n.name && b[0].edge_id == -1 && b[0].rel_name.None? && b[0].dst_name.None?
      && b[0].labels == Some(EncodeLabels(n.label_set)) && b[0].props == SaveProps(json, n.prop_map)
      && b[0].truth == n.truth && b[0].shadow == n.shadow && b[0].is_rdf == n.is_rdf
  {
    var n := s.nodes[id];
    NodeEdgesMembers(s, n, sort);
  }

  /**
   * The edge rows of a block: one per stored edge, numbered 0, 1, 2, ...
   * across all relations, carrying the relation's label, the destination's
   * name, shadow -1 and the node's `is_rdf`.
   */
  lemma BlockEdgeRows(json: JsonCodec, s: State, id: nat, sort: bool)
    requires Consistent(s) && id in s.nodes
    ensures var n := s.nodes[id]; var es := NodeEdges(s, n, sort); var b := Block(json, s, id, sort);
      && |b| == 1 + |es|
      && (forall k :: 0 <= k < |es| ==>
           && es[k].rel in n.edge_map.lists && es[k] in n.edge_map.lists[es[k].rel]
           && es[k].rel < |s.edge_rels| && es[k].node_id in s.nodes)
      && forall k :: 0 <= k < |es| ==>
           && b[k + 1].src_name == n.name && b[k + 1].edge_id == k
           && b[k + 1].rel_name == Some(s.edge_rels[es[k].rel])
           && b[k + 1].dst_name == Some(s.nodes[es[k].node_id].name)
           && b[k + 1].truth == es[k].truth && b[k + 1].props == SaveProps(json, es[k].prop_map)
           && b[k + 1].shadow == -1 && b[k + 1].is_rdf == n.is_rdf && b[k + 1].labels.None?
  {
    var n := s.nodes[id];
    var es := NodeEdges(s, n, sort);
    var b := Block(json, s, id, sort);
    StoredEdgesFit(s, id, sort);
    forall k | 0 <= k < |es|
      ensures && b[k + 1].src_name == n.name && b[k + 1].edge_id == k
              && b[k + 1].rel_name == Some(s.edge_rels[es[k].rel])
              && b[k + 1].dst_name == Some(s.nodes[es[k].node_id].name)
              && b[k + 1].truth == es[k].truth && b[k + 1].props == SaveProps(json, es[k].prop_map)
              && b[k + 1].shadow == -1 && b[k + 1].is_rdf == n.is_rdf && b[k + 1].labels.None?
    {
      BlockRowIs(json, s, id, sort, k);
    }
  }

  /** The row after the node row at position `k` is the row of the node's `k`-th edge. */
  lemma BlockRowIs(json: JsonCodec, s: State, id: nat, sort: bool, k: nat)
    requires Consistent(s) && id in s.nodes && k < |NodeEdges(s, s.nodes[id], sort)|
    ensures var n := s.nodes[id]; var es := NodeEdges(s, n, sort);
      && es[k].rel < |s.edge_rels|
      && Block(json, s, id, sort)[k + 1] == EdgeRow(json, s, n, es[k], k)
  {
    var n := s.nodes[id];
    var es := NodeEdges(s, n, sort);
    StoredEdgesFit(s, id, sort);
    var rows := EdgeRows(json, s, n, es, 0);
    var b := Block(json, s, id, sort);
    assert b == [NodeRow(json, n)] + rows;
    assert b[k + 1] == rows[k];
  }

  /** Every edge a node writes is stored in the list of its relation, and fits the partition. */
  lemma StoredEdgesFit(s: State, id: nat, sort: bool)
    requires Consistent(s) && id in s.nodes
    ensures var n := s.nodes[id]; var es := NodeEdges(s, n, sort);
      forall k :: 0 <= k < |es| ==>
        && es[k].rel in n.edge_map.lists && es[k] in n.edge_map.lists[es[k].rel]
        && es[k].rel < |s.edge_rels| && es[k].node_id in s.nodes
  {
    var n := s.nodes[id];
    assert NodeFits(s, id, n);
    NodeEdgesMembers(s, n, sort);
    var es := NodeEdges(s, n, sort);
    forall k | 0 <= k < |es|
      ensures es[k].rel in n.edge_map.lists && es[k] in n.edge_map.lists[es[k].rel]
      ensures es[k].rel < |s.edge_rels| && es[k].node_id in s.nodes
    {
      assert es[k] in es;
      assert EdgeFits(s, es[k]);
    }
  }

  /** The number of edges stored on the node under an id. */
  function EdgeCounts(s: State): nat -> nat
  {
    (id: nat) => if id in s.nodes then s.nodes[id].edge_map.Count() else 0
  }

  /** The blocks of the given nodes, one after another. */
  function Blocks(json: JsonCodec, s: State, ids: seq<nat>, sort: bool): (r: seq<Row>)
    requires Consistent(s) && forall k :: 0 <= k < |ids| ==> ids[k] in s.nodes
    ensures |r| == |ids| + Sum(ids, EdgeCounts(s))
  {
    if ids == [] then []
    else Blocks(json, s, ids[..|ids| - 1], sort) + Block(json, s, ids[|ids| - 1], sort)
  }

  /** `iter_gen_rows`: the rows of the whole partition. */
  function Emit(json: JsonCodec, s: State, sort: bool): (r: seq<Row>)
    requires Consistent(s)
    ensures |r| == s.next_node + Sum(Ids(s.next_node), EdgeCounts(s))
  {
    OrderStored(s, sort);
    NodeOrderIds(s, sort);
    SumSortBy(Ids(s.next_node), KeyLess(NameOf(s)), EdgeCounts(s));
    Blocks(json, s, NodeOrder(s, sort), sort)
  }

  /** Every id in the write order has a stored node. */
  lemma OrderStored(s: State, sort: bool)
    requires Consistent(s)
    ensures forall k :: 0 <= k < |NodeOrder(s, sort)| ==> NodeOrder(s, sort)[k] in s.nodes
  {
    var order := NodeOrder(s, sort);
    NodeOrderIds(s, sort);
    forall k | 0 <= k < |order| ensures order[k] in s.nodes {
      assert order[k] in order;
    }
  }

  // ------------------------------------------------------------------
  // What the written rows say

  /** The names of the node rows, in order. */
  function NodeNames(rows: seq<Row>): seq<string>
  {
    if rows == [] then []
    else NodeNames(rows[..|rows| - 1]) + (if rows[|rows| - 1].edge_id < 0 then [rows[|rows| - 1].src_name] else [])
  }

  lemma {:induction false} NodeNamesAppend(a: seq<Row>, b: seq<Row>)
    ensures NodeNames(a + b) == NodeNames(a) + NodeNames(b)
    decreases |b|
  {
    if b == [] {
      assert a + b == a;
    } else {
      assert (a + b)[..|a + b| - 1] == a + b[..|b| - 1];
      NodeNamesAppend(a, b[..|b| - 1]);
    }
  }

  /** A block holds one node row, its first. */
  lemma BlockNodeNames(json: JsonCodec, s: State, id: nat, sort: bool)
    requires Consistent(s) && id in s.nodes
    ensures NodeNames(Block(json, s, id, sort)) == [s.nodes[id].name]
  {
    var n := s.nodes[id];
    NodeEdgesMembers(s, n, sort);
    var es := EdgeRows(json, s, n, NodeEdges(s, n, sort), 0);
    assert NodeNames(es) == [] by {
      EdgeRowsHaveNoNames(es);
    }
    NodeNamesAppend([NodeRow(json, n)], es);
    assert NodeNames([NodeRow(json, n)]) == NodeNames([]) + [n.name];
  }

  lemma {:induction false} EdgeRowsHaveNoNames(rows: seq<Row>)
    requires forall k :: 0 <= k < |rows| ==> rows[k].edge_id >= 0
    ensures NodeNames(rows) == []
  {
    if rows != [] {
      EdgeRowsHaveNoNames(rows[..|rows| - 1]);
    }
  }

  /** The names of the given nodes, in order. */
  function Names(s: State, ids: seq<nat>): (r: seq<string>)
    ensures |r| == |ids| && forall k :: 0 <= k < |ids| ==> r[k] == NameOf(s)(ids[k])
  {
    if ids == [] then [] else Names(s, ids[..|ids| - 1]) + [NameOf(s)(ids[|ids| - 1])]
  }

  lemma {:induction false} BlocksNodeNames(json: JsonCodec, s: State, ids: seq<nat>, sort: bool)
    requires Consistent(s) && forall k :: 0 <= k < |ids| ==> ids[k] in s.nodes
    ensures NodeNames(Blocks(json, s, ids, sort)) == Names(s, ids)
  {
    if ids != [] {
      var init := ids[..|ids| - 1];
      BlocksNodeNames(json, s, init, sort);
      NodeNamesAppend(Blocks(json, s, init, sort), Block(json, s, ids[|ids| - 1], sort));
      BlockNodeNames(json, s, ids[|ids| - 1], sort);
    }
  }

  /** Every id 0 .. next_node - 1 occurs in the node order, and only those. */
  lemma NodeOrderIds(s: State, sort: bool)
    ensures |NodeOrder(s, sort)| == s.next_node
    ensures Distinct(NodeOrder(s, sort))
    ensures forall id :: id in NodeOrder(s, sort) <==> 0 <= id < s.next_node
  {
    var order := NodeOrder(s, sort);
    assert |order| == |multiset(order)| == |multiset(Ids(s.next_node))| == s.next_node;
    assert Distinct(Ids(s.next_node));
    if sort {
      DistinctSortBy(Ids(s.next_node), KeyLess(NameOf(s)));
    }
    forall id ensures id in order <==> 0 <= id < s.next_node {
      assert id in order <==> id in multiset(Ids(s.next_node));
      if 0 <= id < s.next_node {
        assert Ids(s.next_node)[id] == id;
      }
    }
  }

  /** The node rows of the written rows name the nodes in the node order. */
  lemma EmitNames(json: JsonCodec, s: State, sort: bool)
    requires Consistent(s)
    ensures NodeNames(Emit(json, s, sort)) == Names(s, NodeOrder(s, sort))
  {
    var order := NodeOrder(s, sort);
    NodeOrderIds(s, sort);
    forall k | 0 <= k < |order| ensures order[k] in s.nodes {
      assert order[k] in order;
    }
    assert Emit(json, s, sort) == Blocks(json, s, order, sort);
    BlocksNodeNames(json, s, order, sort);
  }

  /** Distinct stored ids carry distinct names, and the names of all ids are the registered names. */
  lemma NamesOfAllIds(s: State, sort: bool)
    requires Consistent(s)
    ensures Distinct(Names(s, NodeOrder(s, sort)))
    ensures forall name :: name in Names(s, NodeOrder(s, sort)) <==> name in s.node_names
  {
    NodeOrderIds(s, sort);
    OrderNamesDistinct(s, sort);
    OrderNamesRegistered(s, sort);
  }

  lemma OrderNamesDistinct(s: State, sort: bool)
    requires Consistent(s)
    requires forall id :: id in NodeOrder(s, sort) <==> 0 <= id < s.next_node
    requires Distinct(NodeOrder(s, sort))
    ensures Distinct(Names(s, NodeOrder(s, sort)))
  {
    var order := NodeOrder(s, sort);
    var names := Names(s, order);
    forall i, j | 0 <= i < j < |names| ensures names[i] != names[j] {
      assert order[i] in order && order[j] in order;
      assert NodeFits(s, order[i], s.nodes[order[i]]);
      assert NodeFits(s, order[j], s.nodes[order[j]]);
    }
  }

  lemma OrderNamesRegistered(s: State, sort: bool)
    requires Consistent(s)
    requires forall id :: id in NodeOrder(s, sort) <==> 0 <= id < s.next_node
    ensures forall name :: name in Names(s, NodeOrder(s, sort)) <==> name in s.node_names
  {
    var order := NodeOrder(s, sort);
    var names := Names(s, order);
    forall name ensures name in names <==> name in s.node_names {
      if name in s.node_names {
        StoredName(s, name);
        var id := s.node_names[name];
        assert id in order;
        var k :| 0 <= k < |order| && order[k] == id;
        assert names[k] == name;
      }
      if name in names {
        var k :| 0 <= k < |names| && names[k] == name;
        assert order[k] in order;
        assert NodeFits(s, order[k], s.nodes[order[k]]);
      }
    }
  }

  /** Sorted, the names come out in strictly ascending order. */
  lemma SortedNames(s: State)
    requires Consistent(s)
    ensures forall i, j :: 0 <= i < j < |Names(s, NodeOrder(s, true))| ==>
      Less(Names(s, NodeOrder(s, true))[i], Names(s, NodeOrder(s, true))[j])
  {
    var names := Names(s, NodeOrder(s, true));
    NamesOfAllIds(s, true);
    KeyLessIsStrictWeakOrder(NameOf(s));
    SortBySorted(Ids(s.next_node), KeyLess(NameOf(s)));
    forall i, j | 0 <= i < j < |names| ensures Less(names[i], names[j]) {
      assert !Less(names[j], names[i]);
      LessTotal(names[i], names[j]);
    }
  }

  /**
   * The node rows name every registered node once: in id order, which is
   * registration order, unless sorted, and in strictly ascending name order
   * when sorted.
   */
  lemma EmitNodeNames(json: JsonCodec, s: State, sort: bool)
    requires Consistent(s)
    ensures var names := NodeNames(Emit(json, s, sort));
      && |names| == s.next_node
      && Distinct(names)
      && (forall name :: name in names <==> name in s.node_names)
      && (!sort ==> forall id :: 0 <= id < s.next_node ==> names[id] == s.nodes[id].name)
      && (sort ==> forall i, j :: 0 <= i < j < |names| ==> Less(names[i], names[j]))
  {
    EmitNames(json, s, sort);
    NodeOrderIds(s, sort);
    NamesOfAllIds(s, sort);
    if sort {
      SortedNames(s);
    }
  }

  // ------------------------------------------------------------------
  // Sequencing

  /** Rows that start with a node row are sequenced whatever came before. */
  lemma SequencedFromNodeRow(rows: seq<Row>, a: Option<string>, b: Option<string>)
    requires rows != [] && rows[0].edge_id < 0
    ensures Sequenced(rows, a) == Sequenced(rows, b)
  {
  }

  lemma {:induction false} SequencedAppend(a: seq<Row>, b: seq<Row>, current: Option<string>)
    requires Sequenced(a, current)
    requires b != [] && b[0].edge_id < 0 && Sequenced(b, None)
    ensures Sequenced(a + b, current)
    decreases |a|
  {
    if a == [] {
      assert a + b == b;
      SequencedFromNodeRow(b, None, current);
    } else {
      assert (a + b)[1..] == a[1..] + b;
      if a[0].edge_id < 0 {
        SequencedAppend(a[1..], b, Some(a[0].src_name));
      } else {
        SequencedAppend(a[1..], b, current);
      }
    }
  }

  /** Edge rows that all carry `name` are sequenced behind a node row for `name`. */
  lemma {:induction false} SequencedEdgeRows(rows: seq<Row>, name: string)
    requires forall k :: 0 <= k < |rows| ==> rows[k].edge_id >= 0 && rows[k].src_name == name
    ensures Sequenced(rows, Some(name))
  {
    if rows != [] {
      SequencedEdgeRows(rows[1..], name);
    }
  }

  lemma {:induction false} SequencedBlocks(json: JsonCodec, s: State, ids: seq<nat>, sort: bool)
    requires Consistent(s) && forall k :: 0 <= k < |ids| ==> ids[k] in s.nodes
    ensures Sequenced(Blocks(json, s, ids, sort), None)
  {
    if ids != [] {
      var init := ids[..|ids| - 1];
      var id := ids[|ids| - 1];
      SequencedBlocks(json, s, init, sort);
      BlockSequenced(json, s, id, sort);
      SequencedAppend(Blocks(json, s, init, sort), Block(json, s, id, sort), None);
    }
  }

  /** A block starts with its node row and is sequenced on its own. */
  lemma BlockSequenced(json: JsonCodec, s: State, id: nat, sort: bool)
    requires Consistent(s) && id in s.nodes
    ensures var b := Block(json, s, id, sort); b != [] && b[0].edge_id < 0 && Sequenced(b, None)
  {
    var n := s.nodes[id];
    NodeEdgesMembers(s, n, sort);
    var rows := EdgeRows(json, s, n, NodeEdges(s, n, sort), 0);
    var b := Block(json, s, id, sort);
    assert b == [NodeRow(json, n)] + rows;
    assert b[1..] == rows;
    SequencedEdgeRows(rows, n.name);
  }

  /**
   * The written rows are in sequence: reading them back never fails because
   * of the order of the rows, into any partition.
   */
  lemma EmitSequenced(json: JsonCodec, s: State, sort: bool, t: State)
    requires Consistent(s) && Consistent(t)
    ensures Sequenced(Emit(json, s, sort), None)
    ensures var o := Ingest(json, t, None, Enumerate(Emit(json, s, sort)));
      o.result.Err? ==> !SequencingError(o.result.error)
  {
    var order := NodeOrder(s, sort);
    assert forall k :: 0 <= k < |order| ==> order[k] in multiset(Ids(s.next_node));
    SequencedBlocks(json, s, order, sort);
    var rows := Emit(json, s, sort);
    assert Unnumbered(Enumerate(rows)) == rows;
    SequencedIngest(json, t, None, Enumerate(rows), None);
  }
}
