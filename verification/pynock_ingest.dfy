/**
 * Reading a row stream into a partition, as pynock/pynock.py does it: the
 * name registry, the relation table, node rows (the first row for a name
 * wins), edge rows (unseen destinations become placeholders) and the
 * `parse_rows` fold with its sequencing check.
 *
 * Every step is a function from the old partition to the new one and its
 * result; the `Partition` class in pynock.dfy is proved to follow them.
 */
module PynockIngest {
  import opened Strs
  import opened Graph

  // ------------------------------------------------------------------
  // Well-formed partitions

  /**
   * What pynock keeps true between rows: ids 0 .. next_node - 1 are the
   * registered names and the stored nodes, the empty name is never
   * registered, and the relation table starts with the blank relation.
   */
  ghost predicate Consistent(s: State)
  {
    && NamesDense(s)
    && RelsOk(s.edge_rels)
    && EMPTY_STRING !in s.node_names
    && (forall id: nat :: id in s.nodes <==> id < s.next_node)
    && (forall id :: id in s.nodes ==> NodeFits(s, id, s.nodes[id]))
  }

  lemma FreshConsistent()
    ensures Consistent(Fresh)
  {
  }

  /** The node stored under a registered name is the one carrying that name. */
  lemma StoredName(s: State, name: string)
    requires Consistent(s) && name in s.node_names
    ensures s.node_names[name] in s.nodes && s.nodes[s.node_names[name]].name == name
  {
    var id := s.node_names[name];
    assert NodeFits(s, id, s.nodes[id]);
  }

  // ------------------------------------------------------------------
  // Names and relations

  /**
   * `create_node_name`: refuses the empty name, returns the id of a known
   * name, and otherwise registers the name under the next id.
   */
  function CreateNodeName(s: State, name: string): (o: Outcome<nat>)
    ensures o.result.Err? <==> name == EMPTY_STRING
    ensures o.result.Err? ==> o == Outcome(s, Err(EmptyName))
    ensures o.result.Ok? ==> name in o.state.node_names && o.state.node_names[name] == o.result.value
    ensures name in s.node_names ==> o.state == s
    ensures name !in s.node_names && o.result.Ok? ==>
      && o.result.value == s.next_node
      && o.state == s.(node_names := s.node_names[name := s.next_node], next_node := s.next_node + 1)
    ensures Extends(s, o.state)
    ensures NamesDense(s) ==> NamesDense(o.state)
  {
    if name == EMPTY_STRING then Outcome(s, Err(EmptyName))
    else if name in s.node_names then Outcome(s, Ok(s.node_names[name]))
    else
      AddNameKeepsDense(s, name);
      Outcome(s.(node_names := s.node_names[name := s.next_node], next_node := s.next_node + 1), Ok(s.next_node))
  }

  /**
   * `get_edge_rel`: the index of a relation label, appending an unseen label
   * when `create` is set and answering NOT_FOUND otherwise.
   */
  function GetEdgeRel(s: State, rel_name: string, create: bool): (st: Step<int>)
    ensures st.state == s.(edge_rels := st.state.edge_rels)
    ensures rel_name in s.edge_rels ==> st.state == s && 0 <= st.value < |s.edge_rels| && s.edge_rels[st.value] == rel_name
    ensures rel_name !in s.edge_rels && !create ==> st == Step(s, NOT_FOUND)
    ensures rel_name !in s.edge_rels && create ==>
      st.state.edge_rels == s.edge_rels + [rel_name] && st.value == |s.edge_rels|
    ensures st.value == NOT_FOUND <==> rel_name !in s.edge_rels && !create
    ensures st.value != NOT_FOUND ==> 0 <= st.value < |st.state.edge_rels| && st.state.edge_rels[st.value] == rel_name
    ensures Extends(s, st.state)
    ensures RelsOk(s.edge_rels) ==> RelsOk(st.state.edge_rels)
  {
    if rel_name !in s.edge_rels && !create then Step(s, NOT_FOUND)
    else
      var rels := if rel_name in s.edge_rels then s.edge_rels else s.edge_rels + [rel_name];
      assert rels[..|s.edge_rels|] == s.edge_rels;
      Step(s.(edge_rels := rels), IndexOf(rels, rel_name))
  }

  /** With a duplicate-free table, the index found is the only position of the label. */
  lemma GetEdgeRelUnique(s: State, rel_name: string, create: bool, k: nat)
    requires RelsOk(s.edge_rels)
    requires GetEdgeRel(s, rel_name, create).value != NOT_FOUND
    requires k < |GetEdgeRel(s, rel_name, create).state.edge_rels|
    requires GetEdgeRel(s, rel_name, create).state.edge_rels[k] == rel_name
    ensures GetEdgeRel(s, rel_name, create).value == k
  {
    var st := GetEdgeRel(s, rel_name, create);
    assert Distinct(st.state.edge_rels);
    DistinctIndexOf(st.state.edge_rels, k);
  }

  /** `add_node`: store a node under its own id. */
  function AddNode(s: State, node: Node): (t: State)
    ensures t.nodes.Keys == s.nodes.Keys + {node.node_id} && t.nodes[node.node_id] == node
    ensures forall id :: id in s.nodes && id != node.node_id ==> t.nodes[id] == s.nodes[id]
    ensures t == s.(nodes := t.nodes)
  {
    s.(nodes := s.nodes[node.node_id := node])
  }

  /** Registering and storing a brand-new edgeless node keeps the partition consistent. */
  lemma NewNodeConsistent(s: State, node: Node)
    requires Consistent(s)
    requires node.name !in s.node_names && node.name != EMPTY_STRING
    requires node.node_id == s.next_node && node.edge_map == NoEdges
    ensures Consistent(AddNode(CreateNodeName(s, node.name).state, node))
  {
    var t := AddNode(CreateNodeName(s, node.name).state, node);
    assert Extends(s, t);
    NamesDenseFrame(CreateNodeName(s, node.name).state, t);
    forall id | id in t.nodes ensures NodeFits(t, id, t.nodes[id]) {
      if id != node.node_id {
        NodeFitsGrow(s, t, id, s.nodes[id]);
      }
    }
  }

  // ------------------------------------------------------------------
  // Node rows

  /**
   * `populate_node`. A name seen before returns the stored node and changes
   * nothing (the first row for a name wins). An unseen name is registered
   * first, and only then are the labels split and the properties decoded, so
   * a row failing at those steps leaves its name registered.
   */
  function PopulateNode(json: JsonCodec, s: State, row: Row): (o: Outcome<Node>)
    requires Consistent(s)
    ensures Extends(s, o.state)
    ensures row.src_name in s.node_names ==> o == Outcome(s, Ok(s.nodes[s.node_names[row.src_name]]))
    ensures o.result.Err? <==>
      row.src_name !in s.node_names && (row.src_name == EMPTY_STRING || row.labels.None? || LoadProps(json, row.props).None?)
    ensures o.result.Err? && row.src_name != EMPTY_STRING ==> o.state == CreateNodeName(s, row.src_name).state
    ensures o.result.Err? && row.src_name == EMPTY_STRING ==> o == Outcome(s, Err(EmptyName))
    ensures o.result.Ok? ==>
      && Consistent(o.state)
      && o.result.value.name == row.src_name
      && o.result.value.node_id in o.state.nodes
      && o.state.nodes[o.result.value.node_id] == o.result.value
    ensures o.result.Ok? && row.src_name !in s.node_names ==>
      && o.result.value == Node(s.next_node, row.src_name, row.shadow, row.is_rdf, DecodeLabels(row.labels.value),
                               row.truth, LoadProps(json, row.props).value, NoEdges)
      && o.state == AddNode(CreateNodeName(s, row.src_name).state, o.result.value)
  {
    var name := row.src_name;
    if name in s.node_names then
      StoredName(s, name);
      Outcome(s, Ok(s.nodes[s.node_names[name]]))
    else
      var c := CreateNodeName(s, name);
      if c.result.Err? then Outcome(c.state, Err(c.result.error))
      else if row.labels.None? then Outcome(c.state, Err(MissingLabels))
      else
        var props := LoadProps(json, row.props);
        if props.None? then Outcome(c.state, Err(MalformedProps))
        else
          var node := Node(c.result.value, name, row.shadow, row.is_rdf, DecodeLabels(row.labels.value),
                           row.truth, props.value, NoEdges);
          NewNodeConsistent(s, node);
          Outcome(AddNode(c.state, node), Ok(node))
  }

  // ------------------------------------------------------------------
  // Edge rows

  /**
   * The destination of a successful edge row: a known name keeps its id and
   * leaves the registry alone; an unseen one is registered under the next id
   * and stored as a placeholder.
   */
  ghost predicate DestinationAdded(s: State, row: Row, t: State, e: Edge)
  {
    && row.dst_name.Some?
    && var dst := row.dst_name.value;
    && dst in t.node_names && e.node_id == t.node_names[dst]
    && (dst in s.node_names ==> t.next_node == s.next_node && t.node_names == s.node_names)
    && (dst !in s.node_names ==>
         && t.next_node == s.next_node + 1
         && t.node_names == s.node_names[dst := s.next_node]
         && s.next_node in t.nodes
         && t.nodes[s.next_node] == Placeholder(s.next_node, dst, row.truth, row.is_rdf))
  }

  /** The relation of a successful edge row is interned, and the edge carries the row's truth and properties. */
  ghost predicate RelationAdded(json: JsonCodec, s: State, row: Row, t: State, e: Edge)
  {
    && row.rel_name.Some?
    && var rel := row.rel_name.value;
    && t.edge_rels == (if rel in s.edge_rels then s.edge_rels else s.edge_rels + [rel])
    && e.rel < |t.edge_rels| && t.edge_rels[e.rel] == rel
    && e.truth == row.truth && LoadProps(json, row.props) == Some(e.prop_map)
  }

  /** The edge goes to the end of the active node's list for its relation; no other stored node changes. */
  ghost predicate SourceExtended(s: State, src: nat, t: State, e: Edge)
    requires src in s.nodes && s.nodes[src].edge_map.Valid()
  {
    && src in t.nodes && t.nodes[src] == s.nodes[src].AddEdge(e)
    && (forall id :: id in s.nodes && id != src ==> id in t.nodes && t.nodes[id] == s.nodes[id])
  }

  /** Interning a relation keeps the partition consistent. */
  lemma InternConsistent(s: State, rel_name: string)
    requires Consistent(s)
    ensures Consistent(GetEdgeRel(s, rel_name, true).state)
  {
    var t := GetEdgeRel(s, rel_name, true).state;
    NamesDenseFrame(s, t);
    forall id | id in t.nodes ensures NodeFits(t, id, t.nodes[id]) {
      NodeFitsGrow(s, t, id, s.nodes[id]);
    }
  }

  /** Appending a fitting edge to a stored node keeps the partition consistent. */
  lemma AttachConsistent(s: State, src: nat, e: Edge)
    requires Consistent(s) && src in s.nodes && EdgeFits(s, e)
    ensures s.nodes[src].edge_map.Valid()
    ensures Consistent(s.(nodes := s.nodes[src := s.nodes[src].AddEdge(e)]))
  {
    assert NodeFits(s, src, s.nodes[src]);
    AddEdgeFits(s, src, s.nodes[src], e);
    ReplaceConsistent(s, src, s.nodes[src].AddEdge(e));
  }

  /** Storing a node that fits in place of an existing one keeps the partition consistent. */
  lemma ReplaceConsistent(s: State, id: nat, n: Node)
    requires Consistent(s) && id in s.nodes && NodeFits(s, id, n)
    ensures Consistent(s.(nodes := s.nodes[id := n]))
  {
    var t := s.(nodes := s.nodes[id := n]);
    NamesDenseFrame(s, t);
    forall j | j in t.nodes ensures NodeFits(t, j, t.nodes[j]) {
      if j == id {
        NodeFitsFrame(s, t, j, n);
      } else {
        NodeFitsFrame(s, t, j, s.nodes[j]);
      }
    }
  }

  /**
   * The first half of `populate_edge`: the id of the destination, which is
   * registered and stored as a placeholder when its name is unseen.
   */
  function DestinationNode(s: State, row: Row): (d: Outcome<nat>)
    requires Consistent(s)
    ensures Extends(s, d.state)
    ensures d.result.Err? <==> row.dst_name.None? || row.dst_name.value == EMPTY_STRING
    ensures d.result.Err? ==> d == Outcome(s, Err(EmptyName))
    ensures d.result.Ok? ==>
      && Consistent(d.state)
      && row.dst_name.value in d.state.node_names && d.state.node_names[row.dst_name.value] == d.result.value
      && d.state.edge_rels == s.edge_rels
      && (forall id :: id in s.nodes ==> id in d.state.nodes && d.state.nodes[id] == s.nodes[id])
    ensures d.result.Ok? && row.dst_name.value in s.node_names ==> d.state == s
    ensures d.result.Ok? && row.dst_name.value !in s.node_names ==>
      && d.state.next_node == s.next_node + 1
      && d.state.node_names == s.node_names[row.dst_name.value := s.next_node]
      && s.next_node in d.state.nodes
      && d.state.nodes[s.next_node] == Placeholder(s.next_node, row.dst_name.value, row.truth, row.is_rdf)
  {
    if row.dst_name.Some? && row.dst_name.value in s.node_names then Outcome(s, Ok(s.node_names[row.dst_name.value]))
    else
      var dst := if row.dst_name.Some? then row.dst_name.value else EMPTY_STRING;
      var c := CreateNodeName(s, dst);
      if c.result.Err? then c
      else
        var node := Placeholder(c.result.value, dst, row.truth, row.is_rdf);
        NewNodeConsistent(s, node);
        Outcome(AddNode(c.state, node), c.result)
  }

  /**
   * The second half of `populate_edge`: intern the relation, decode the
   * properties and append the edge to `dst` onto the active node `src`.
   */
  function AttachEdge(json: JsonCodec, s: State, row: Row, src: nat, dst: nat): (o: Outcome<Edge>)
    requires Consistent(s) && src in s.nodes && dst < s.next_node
    ensures Extends(s, o.state)
    ensures o.result.Err? <==> row.rel_name.None? || LoadProps(json, row.props).None?
    ensures o.result.Err? ==> o.result.error == (if row.rel_name.None? then MissingRelation else MalformedProps)
    ensures o.result.Ok? ==>
      && Consistent(o.state)
      && s.nodes[src].edge_map.Valid()
      && o.state.node_names == s.node_names && o.state.next_node == s.next_node
      && o.state.edge_rels == (if row.rel_name.value in s.edge_rels then s.edge_rels else s.edge_rels + [row.rel_name.value])
      && o.result.value.rel < |o.state.edge_rels| && o.state.edge_rels[o.result.value.rel] == row.rel_name.value
      && o.result.value.node_id == dst
      && o.result.value.truth == row.truth && LoadProps(json, row.props) == Some(o.result.value.prop_map)
      && o.state.nodes == s.nodes[src := s.nodes[src].AddEdge(o.result.value)]
  {
    if row.rel_name.None? then Outcome(s, Err(MissingRelation))
    else
      var r := GetEdgeRel(s, row.rel_name.value, true);
      InternConsistent(s, row.rel_name.value);
      var props := LoadProps(json, row.props);
      if props.None? then Outcome(r.state, Err(MalformedProps))
      else
        var e := Edge(r.value as nat, dst, row.truth, props.value);
        AttachConsistent(r.state, src, e);
        Outcome(r.state.(nodes := r.state.nodes[src := r.state.nodes[src].AddEdge(e)]), Ok(e))
  }

  /**
   * `populate_edge` for the active node `src`. An unseen destination is
   * registered and stored as a placeholder first (a missing or empty
   * destination fails there), then the relation is interned, then the
   * properties are decoded, and last the edge is appended.
   */
  function PopulateEdge(json: JsonCodec, s: State, row: Row, src: nat): (o: Outcome<Edge>)
    requires Consistent(s) && src in s.nodes
    ensures Extends(s, o.state)
    ensures o.result.Err? <==>
      row.dst_name.None? || row.dst_name.value == EMPTY_STRING || row.rel_name.None? || LoadProps(json, row.props).None?
    ensures o.result.Err? && (row.dst_name.None? || row.dst_name.value == EMPTY_STRING) ==> o == Outcome(s, Err(EmptyName))
    ensures o.result.Err? ==> o.result.error in {EmptyName, MissingRelation, MalformedProps}
    ensures o.result.Ok? ==>
      && Consistent(o.state)
  {
    var d := DestinationNode(s, row);
    if d.result.Err? then Outcome(d.state, Err(d.result.error))
    else
      var o := AttachEdge(json, d.state, row, src, d.result.value);
      ExtendsTransitive(s, d.state, o.state);
      o
  }

  /** A successful edge row registers its destination if unseen. */
  lemma PopulateEdgeDestination(json: JsonCodec, s: State, row: Row, src: nat)
    requires Consistent(s) && src in s.nodes
    ensures var o := PopulateEdge(json, s, row, src);
      o.result.Ok? ==> DestinationAdded(s, row, o.state, o.result.value)
  {
    var d := DestinationNode(s, row);
    if d.result.Ok? {
      var o := AttachEdge(json, d.state, row, src, d.result.value);
      if o.result.Ok? {
        assert src < s.next_node;
        DestinationKept(s, row, d.state, d.result.value, o.state, src, o.result.value);
      }
    }
  }

  /** Appending to `src` after registering the destination keeps the registration. */
  lemma DestinationKept(s: State, row: Row, d: State, dst: nat, t: State, src: nat, e: Edge)
    requires row.dst_name.Some? && src < s.next_node && src in d.nodes
    requires row.dst_name.value in d.node_names && d.node_names[row.dst_name.value] == dst
    requires row.dst_name.value in s.node_names ==> d == s
    requires row.dst_name.value !in s.node_names ==>
      && d.next_node == s.next_node + 1
      && d.node_names == s.node_names[row.dst_name.value := s.next_node]
      && s.next_node in d.nodes
      && d.nodes[s.next_node] == Placeholder(s.next_node, row.dst_name.value, row.truth, row.is_rdf)
    requires t.node_names == d.node_names && t.next_node == d.next_node && e.node_id == dst
    requires d.nodes[src].edge_map.Valid() && t.nodes == d.nodes[src := d.nodes[src].AddEdge(e)]
    ensures DestinationAdded(s, row, t, e)
  {
  }

  /** A successful edge row interns its relation. */
  lemma PopulateEdgeRelation(json: JsonCodec, s: State, row: Row, src: nat)
    requires Consistent(s) && src in s.nodes
    ensures var o := PopulateEdge(json, s, row, src);
      o.result.Ok? ==> RelationAdded(json, s, row, o.state, o.result.value)
  {
  }

  /** A successful edge row appends its edge to the active node and to no other. */
  lemma PopulateEdgeSource(json: JsonCodec, s: State, row: Row, src: nat)
    requires Consistent(s) && src in s.nodes
    ensures s.nodes[src].edge_map.Valid()
    ensures var o := PopulateEdge(json, s, row, src);
      o.result.Ok? ==> SourceExtended(s, src, o.state, o.result.value)
  {
    assert NodeFits(s, src, s.nodes[src]);
    var d := DestinationNode(s, row);
    if d.result.Ok? {
      var o := AttachEdge(json, d.state, row, src, d.result.value);
      if o.result.Ok? {
        SourceKept(s, d.state, o.state, src, o.result.value);
      }
    }
  }

  /** Growing the partition and then appending to `src` extends `src` alone. */
  lemma SourceKept(s: State, d: State, t: State, src: nat, e: Edge)
    requires src in s.nodes && s.nodes[src].edge_map.Valid()
    requires forall id :: id in s.nodes ==> id in d.nodes && d.nodes[id] == s.nodes[id]
    requires t.nodes == d.nodes[src := d.nodes[src].AddEdge(e)]
    ensures SourceExtended(s, src, t, e)
  {
  }

  // ------------------------------------------------------------------
  // The parse loop

  /**
   * One pass of the `parse_rows` loop, with active node `active` (the node
   * of the most recent node row, if any). A node row makes its node active;
   * an edge row must come after some node row and name the active node, and
   * is then added to it.
   */
  function IngestRow(json: JsonCodec, s: State, active: Option<nat>, num: nat, row: Row): (o: Outcome<Option<nat>>)
    requires Consistent(s) && (active.Some? ==> active.value in s.nodes)
    ensures Extends(s, o.state)
    ensures o.result.Ok? ==> Consistent(o.state) && (o.result.value.Some? ==> o.result.value.value in o.state.nodes)
    ensures o.result.Ok? && row.edge_id >= 0 ==> o.result.value == active
  {
    if row.edge_id < 0 then
      var n := PopulateNode(json, s, row);
      if n.result.Err? then Outcome(n.state, Err(n.result.error))
      else Outcome(n.state, Ok(Some(n.result.value.node_id)))
    else if active.None? then Outcome(s, Err(NoActiveNode))
    else if row.src_name != s.nodes[active.value].name then Outcome(s, Err(OutOfSequence(num, row.src_name)))
    else
      var e := PopulateEdge(json, s, row, active.value);
      if e.result.Err? then Outcome(e.state, Err(e.result.error))
      else Outcome(e.state, Ok(active))
  }

  /**
   * `parse_rows` over numbered rows, from partition `s` with active node
   * `active`. The first failure stops the loop with the partition as that
   * row left it.
   */
  function Ingest(json: JsonCodec, s: State, active: Option<nat>, rows: seq<(nat, Row)>): (o: Outcome<Option<nat>>)
    requires Consistent(s) && (active.Some? ==> active.value in s.nodes)
    ensures Extends(s, o.state)
    ensures o.result.Ok? ==> Consistent(o.state) && (o.result.value.Some? ==> o.result.value.value in o.state.nodes)
    ensures rows == [] ==> o == Outcome(s, Ok(active))
    decreases |rows|
  {
    if rows == [] then Outcome(s, Ok(active))
    else
      var o := IngestRow(json, s, active, rows[0].0, rows[0].1);
      if o.result.Err? then o
      else
        var rest := Ingest(json, o.state, o.result.value, rows[1..]);
        ExtendsTransitive(s, o.state, rest.state);
        rest
  }

  /** Feeding rows in two batches is feeding them at once: the fold resumes where it stopped. */
  lemma {:induction false} IngestAppend(json: JsonCodec, s: State, active: Option<nat>, a: seq<(nat, Row)>, b: seq<(nat, Row)>)
    requires Consistent(s) && (active.Some? ==> active.value in s.nodes)
    ensures var o := Ingest(json, s, active, a);
      Ingest(json, s, active, a + b) == if o.result.Err? then o else Ingest(json, o.state, o.result.value, b)
    decreases |a|
  {
    if a == [] {
      assert a + b == b;
    } else {
      assert (a + b)[0] == a[0] && (a + b)[1..] == a[1..] + b;
      var o := IngestRow(json, s, active, a[0].0, a[0].1);
      if o.result.Ok? {
        IngestAppend(json, o.state, o.result.value, a[1..], b);
      }
    }
  }

  /**
   * An edge row naming a node other than the active one stops the parse at
   * that row, whatever follows, with the partition the preceding rows built.
   */
  lemma OutOfSequenceStops(json: JsonCodec, s: State, pre: seq<(nat, Row)>, num: nat, row: Row, post: seq<(nat, Row)>)
    requires Consistent(s)
    requires Ingest(json, s, None, pre).result.Ok?
    requires row.edge_id >= 0
    requires var o := Ingest(json, s, None, pre);
      o.result.value.None? || row.src_name != o.state.nodes[o.result.value.value].name
    ensures var o := Ingest(json, s, None, pre);
      Ingest(json, s, None, pre + [(num, row)] + post)
        == Outcome(o.state, Err(if o.result.value.None? then NoActiveNode else OutOfSequence(num, row.src_name)))
  {
    var o := Ingest(json, s, None, pre);
    IngestAppend(json, s, None, pre, [(num, row)] + post);
    assert pre + [(num, row)] + post == pre + ([(num, row)] + post);
  }

  // ------------------------------------------------------------------
  // Sequencing

  /**
   * Every edge row comes after a node row and carries the name of the
   * latest node row before it; `current` is that name, if any.
   */
  predicate Sequenced(rows: seq<Row>, current: Option<string>)
    decreases |rows|
  {
    if rows == [] then true
    else if rows[0].edge_id < 0 then Sequenced(rows[1..], Some(rows[0].src_name))
    else current == Some(rows[0].src_name) && Sequenced(rows[1..], current)
  }

  /** The failures that come from the order of the rows rather than their content. */
  predicate SequencingError(e: Error)
  {
    e.NoActiveNode? || e.OutOfSequence?
  }

  /** The rows of a numbered stream. */
  function Unnumbered(rows: seq<(nat, Row)>): (r: seq<Row>)
    ensures |r| == |rows| && forall k :: 0 <= k < |rows| ==> r[k] == rows[k].1
  {
    seq(|rows|, k requires 0 <= k < |rows| => rows[k].1)
  }

  /** A node row fails only on its content, and its node becomes the active one. */
  lemma SequencedNodeRow(json: JsonCodec, s: State, active: Option<nat>, num: nat, row: Row)
    requires Consistent(s) && (active.Some? ==> active.value in s.nodes)
    requires row.edge_id < 0
    ensures var o := IngestRow(json, s, active, num, row);
      && (o.result.Err? ==> !SequencingError(o.result.error))
      && (o.result.Ok? ==> o.result.value.Some? && o.state.nodes[o.result.value.value].name == row.src_name)
  {
    var n := PopulateNode(json, s, row);
    if n.result.Err? {
      assert n.result.error.EmptyName? || n.result.error.MissingLabels? || n.result.error.MalformedProps?;
    }
  }

  /** An edge row of the active node fails only on its content, and keeps the active node. */
  lemma SequencedEdgeRow(json: JsonCodec, s: State, active: nat, num: nat, row: Row)
    requires Consistent(s) && active in s.nodes
    requires row.edge_id >= 0 && s.nodes[active].name == row.src_name
    ensures var o := IngestRow(json, s, Some(active), num, row);
      && (o.result.Err? ==> !SequencingError(o.result.error))
      && (o.result.Ok? ==> o.result.value == Some(active) && o.state.nodes[active].name == row.src_name)
  {
    PopulateEdgeSource(json, s, row, active);
  }

  /**
   * Well-sequenced rows never fail the sequencing check: if the parse fails
   * at all, it fails on the content of a row.
   */
  lemma {:induction false} SequencedIngest(json: JsonCodec, s: State, active: Option<nat>, rows: seq<(nat, Row)>, current: Option<string>)
    requires Consistent(s) && (active.Some? ==> active.value in s.nodes)
    requires current.None? <==> active.None?
    requires active.Some? ==> s.nodes[active.value].name == current.value
    requires Sequenced(Unnumbered(rows), current)
    ensures Ingest(json, s, active, rows).result.Err? ==> !SequencingError(Ingest(json, s, active, rows).result.error)
    decreases |rows|
  {
    if rows != [] {
      assert Unnumbered(rows)[1..] == Unnumbered(rows[1..]);
      var row := rows[0].1;
      if row.edge_id < 0 {
        SequencedNodeRow(json, s, active, rows[0].0, row);
      } else {
        SequencedEdgeRow(json, s, active.value, rows[0].0, row);
      }
      var o := IngestRow(json, s, active, rows[0].0, row);
      if o.result.Ok? {
        SequencedIngest(json, o.state, o.result.value, rows[1..], Some(row.src_name));
      }
    }
  }

  /** The rows with their edge ids replaced by `ids`. */
  function WithEdgeIds(rows: seq<(nat, Row)>, ids: seq<int>): (r: seq<(nat, Row)>)
    requires |ids| == |rows|
    ensures |r| == |rows| && forall k :: 0 <= k < |rows| ==> r[k] == (rows[k].0, rows[k].1.(edge_id := ids[k]))
  {
    seq(|rows|, k requires 0 <= k < |rows| => (rows[k].0, rows[k].1.(edge_id := ids[k])))
  }

  /** One row is parsed the same whatever its edge id, as long as the sign is kept. */
  lemma IngestRowIgnoresEdgeId(json: JsonCodec, s: State, active: Option<nat>, num: nat, row: Row, id: int)
    requires Consistent(s) && (active.Some? ==> active.value in s.nodes)
    requires id < 0 <==> row.edge_id < 0
    ensures IngestRow(json, s, active, num, row.(edge_id := id)) == IngestRow(json, s, active, num, row)
  {
    var row' := row.(edge_id := id);
    if row.edge_id < 0 {
      assert PopulateNode(json, s, row') == PopulateNode(json, s, row);
    } else if active.Some? && row.src_name == s.nodes[active.value].name {
      assert DestinationNode(s, row') == DestinationNode(s, row);
      assert PopulateEdge(json, s, row', active.value) == PopulateEdge(json, s, row, active.value);
    }
  }

  /** The edge id of a row plays no part in parsing beyond its sign. */
  lemma {:induction false} EdgeIdsIgnored(json: JsonCodec, s: State, active: Option<nat>, rows: seq<(nat, Row)>, ids: seq<int>)
    requires Consistent(s) && (active.Some? ==> active.value in s.nodes)
    requires |ids| == |rows|
    requires forall k :: 0 <= k < |rows| ==> (ids[k] < 0 <==> rows[k].1.edge_id < 0)
    ensures Ingest(json, s, active, WithEdgeIds(rows, ids)) == Ingest(json, s, active, rows)
    decreases |rows|
  {
    if rows != [] {
      var renum := WithEdgeIds(rows, ids);
      assert renum[0] == (rows[0].0, rows[0].1.(edge_id := ids[0]));
      assert renum[1..] == WithEdgeIds(rows[1..], ids[1..]);
      IngestRowIgnoresEdgeId(json, s, active, rows[0].0, rows[0].1, ids[0]);
      var o := IngestRow(json, s, active, rows[0].0, rows[0].1);
      if o.result.Ok? {
        EdgeIdsIgnored(json, o.state, o.result.value, rows[1..], ids[1..]);
      }
    }
  }
}
