/**
 * Reading rows into a partition as the older nock/nock.py does it. It
 * shares the data model with pynock but differs in its policies: no name
 * is refused (the empty name included), a relation label is always
 * interned, a node row always replaces the stored node with a fresh one
 * (the last row for a name wins, and the edges already added to that name
 * are dropped), and a destination is only registered, never stored.
 */
module NockIngest {
  import opened Strs
  import opened Graph

  /**
   * What nock keeps true: the registry is a bijection onto
   * 0 .. next_node - 1, the relation table starts with the blank relation,
   * and every stored node sits under a registered id with sound edges. Ids
   * that were only seen as destinations have no stored node.
   */
  ghost predicate NockValid(s: State)
  {
    && NamesDense(s)
    && RelsOk(s.edge_rels)
    && (forall id :: id in s.nodes ==> id < s.next_node && NodeFits(s, id, s.nodes[id]))
  }

  lemma FreshNockValid()
    ensures NockValid(Fresh)
  {
  }

  /** A partition that grew only in its registry and relation table is still valid. */
  lemma NockValidGrow(s: State, t: State)
    requires NockValid(s) && Extends(s, t) && t.nodes == s.nodes
    requires NamesDense(t) && RelsOk(t.edge_rels)
    ensures NockValid(t)
  {
    forall id | id in t.nodes ensures id < t.next_node && NodeFits(t, id, t.nodes[id]) {
      NodeFitsGrow(s, t, id, s.nodes[id]);
    }
  }

  // ------------------------------------------------------------------
  // Names and relations

  /** `create_node`: the id of a known name, or the next id for any other name, "" included. */
  function CreateNode(s: State, name: string): (st: Step<nat>)
    ensures name in st.state.node_names && st.state.node_names[name] == st.value
    ensures name in s.node_names ==> st.state == s
    ensures name !in s.node_names ==>
      && st.value == s.next_node
      && st.state == s.(node_names := s.node_names[name := s.next_node], next_node := s.next_node + 1)
    ensures Extends(s, st.state)
    ensures NamesDense(s) ==> NamesDense(st.state)
  {
    if name in s.node_names then Step(s, s.node_names[name])
    else
      AddNameKeepsDense(s, name);
      Step(s.(node_names := s.node_names[name := s.next_node], next_node := s.next_node + 1), s.next_node)
  }

  /** `get_edge_rel` as nock has it: an unseen label is appended whatever `create` says. */
  function GetEdgeRel(s: State, rel_name: string, create: bool): (st: Step<nat>)
    ensures st.state == s.(edge_rels := st.state.edge_rels)
    ensures st.value < |st.state.edge_rels| && st.state.edge_rels[st.value] == rel_name
    ensures rel_name in s.edge_rels ==> st.state == s
    ensures rel_name !in s.edge_rels ==> st.state.edge_rels == s.edge_rels + [rel_name] && st.value == |s.edge_rels|
    ensures Extends(s, st.state)
    ensures RelsOk(s.edge_rels) ==> RelsOk(st.state.edge_rels)
  {
    var rels := if rel_name in s.edge_rels then s.edge_rels else s.edge_rels + [rel_name];
    assert rels[..|s.edge_rels|] == s.edge_rels;
    Step(s.(edge_rels := rels), IndexOf(rels, rel_name))
  }

  // ------------------------------------------------------------------
  // Node and edge rows

  /**
   * `populate_node` as nock has it: the labels are split and the
   * properties decoded first, so a failing row changes nothing; then the
   * name is registered and a fresh node without edges replaces whatever was
   * stored under its id.
   */
  function PopulateNode(json: JsonCodec, s: State, row: Row): (o: Outcome<Node>)
    requires NockValid(s)
    ensures Extends(s, o.state) && NockValid(o.state)
    ensures o.result.Err? <==> row.labels.None? || LoadProps(json, row.props).None?
    ensures o.result.Err? ==> o.state == s
    ensures o.result.Ok? ==>
      && row.src_name in o.state.node_names
      && o.result.value == Node(o.state.node_names[row.src_name], row.src_name, row.shadow, row.is_rdf,
                                DecodeLabels(row.labels.value), row.truth, LoadProps(json, row.props).value, NoEdges)
      && o.state.nodes == s.nodes[o.result.value.node_id := o.result.value]
      && o.state.edge_rels == s.edge_rels
      && o.state == CreateNode(s, row.src_name).state.(nodes := o.state.nodes)
  {
    if row.labels.None? then Outcome(s, Err(MissingLabels))
    else
      var props := LoadProps(json, row.props);
      if props.None? then Outcome(s, Err(MalformedProps))
      else
        var c := CreateNode(s, row.src_name);
        var node := Node(c.value, row.src_name, row.shadow, row.is_rdf, DecodeLabels(row.labels.value),
                         row.truth, props.value, NoEdges);
        var t := c.state.(nodes := c.state.nodes[c.value := node]);
        StoreNockValid(s, c.state, node);
        Outcome(t, Ok(node))
  }

  /** Storing a fresh edgeless node under its registered id keeps the partition valid. */
  lemma StoreNockValid(s: State, t: State, node: Node)
    requires NockValid(s) && Extends(s, t) && t.nodes == s.nodes && NamesDense(t) && t.edge_rels == s.edge_rels
    requires node.name in t.node_names && t.node_names[node.name] == node.node_id && node.edge_map == NoEdges
    ensures NockValid(t.(nodes := t.nodes[node.node_id := node]))
  {
    var u := t.(nodes := t.nodes[node.node_id := node]);
    NockValidGrow(s, t);
    NamesDenseFrame(t, u);
    forall id | id in u.nodes ensures id < u.next_node && NodeFits(u, id, u.nodes[id]) {
      if id != node.node_id {
        assert NodeFits(t, id, t.nodes[id]);
      }
    }
  }

  /**
   * The first half of nock's `populate_edge`: intern the relation label,
   * then register the destination name; no node is stored for it.
   */
  function EdgeEnds(s: State, row: Row): (o: Outcome<(nat, nat)>)
    requires NockValid(s)
    ensures Extends(s, o.state) && NockValid(o.state) && o.state.nodes == s.nodes
    ensures o.result.Err? <==> row.rel_name.None? || row.dst_name.None?
    ensures row.rel_name.None? ==> o == Outcome(s, Err(MissingRelation))
    ensures o.result.Ok? ==>
      && o.result.value.0 < |o.state.edge_rels| && o.state.edge_rels[o.result.value.0] == row.rel_name.value
      && row.dst_name.value in o.state.node_names && o.state.node_names[row.dst_name.value] == o.result.value.1
      && o.result.value.1 < o.state.next_node
  {
    if row.rel_name.None? then Outcome(s, Err(MissingRelation))
    else
      var r := GetEdgeRel(s, row.rel_name.value, true);
      NamesDenseFrame(s, r.state);
      NockValidGrow(s, r.state);
      if row.dst_name.None? then Outcome(r.state, Err(MissingDestination))
      else
        var d := CreateNode(r.state, row.dst_name.value);
        NockValidGrow(r.state, d.state);
        ExtendsTransitive(s, r.state, d.state);
        Outcome(d.state, Ok((r.value, d.value)))
  }

  /**
   * `populate_edge` as nock has it: the relation is interned, then the
   * destination name is registered, then the properties are decoded, and
   * the edge is appended to the active node `src`. A failing row keeps the
   * relation and the name it registered; no node is ever added.
   */
  function PopulateEdge(json: JsonCodec, s: State, row: Row, src: nat): (o: Outcome<Edge>)
    requires NockValid(s) && src in s.nodes
    ensures Extends(s, o.state) && NockValid(o.state)
    ensures o.state.nodes.Keys == s.nodes.Keys
    ensures o.result.Err? <==> row.rel_name.None? || row.dst_name.None? || LoadProps(json, row.props).None?
    ensures row.rel_name.None? ==> o == Outcome(s, Err(MissingRelation))
    ensures o.result.Ok? ==>
      && o.result.value.rel < |o.state.edge_rels| && o.state.edge_rels[o.result.value.rel] == row.rel_name.value
      && row.dst_name.value in o.state.node_names && o.state.node_names[row.dst_name.value] == o.result.value.node_id
      && o.result.value.truth == row.truth && LoadProps(json, row.props) == Some(o.result.value.prop_map)
      && s.nodes[src].edge_map.Valid()
      && o.state.nodes == s.nodes[src := s.nodes[src].AddEdge(o.result.value)]
  {
    var ends := EdgeEnds(s, row);
    if ends.result.Err? then Outcome(ends.state, Err(ends.result.error))
    else
      var props := LoadProps(json, row.props);
      if props.None? then Outcome(ends.state, Err(MalformedProps))
      else
        var e := Edge(ends.result.value.0, ends.result.value.1, row.truth, props.value);
        var t := AppendEdge(ends.state, src, e);
        ExtendsTransitive(s, ends.state, t);
        Outcome(t, Ok(e))
  }

  /** `add_edge` on the node stored under `src`, as nock's `populate_edge` calls it. */
  function AppendEdge(s: State, src: nat, e: Edge): (t: State)
    requires NockValid(s) && src in s.nodes && EdgeFits(s, e)
    ensures s.nodes[src].edge_map.Valid()
    ensures t == s.(nodes := s.nodes[src := s.nodes[src].AddEdge(e)])
    ensures Extends(s, t) && NockValid(t) && t.nodes.Keys == s.nodes.Keys
  {
    AttachNockValid(s, src, e);
    var nodes := s.nodes[src := s.nodes[src].AddEdge(e)];
    SameRegistry(s, nodes);
    s.(nodes := nodes)
  }

  /** Appending a fitting edge to a stored node keeps the partition valid. */
  lemma AttachNockValid(s: State, src: nat, e: Edge)
    requires NockValid(s) && src in s.nodes && EdgeFits(s, e)
    ensures s.nodes[src].edge_map.Valid()
    ensures NockValid(s.(nodes := s.nodes[src := s.nodes[src].AddEdge(e)]))
  {
    assert NodeFits(s, src, s.nodes[src]);
    AddEdgeFits(s, src, s.nodes[src], e);
    ReplaceNockValid(s, src, s.nodes[src].AddEdge(e));
  }

  /** Storing a node that fits in place of an existing one keeps the partition valid. */
  lemma ReplaceNockValid(s: State, id: nat, n: Node)
    requires NockValid(s) && id in s.nodes && NodeFits(s, id, n)
    ensures NockValid(s.(nodes := s.nodes[id := n]))
  {
    var t := s.(nodes := s.nodes[id := n]);
    NamesDenseFrame(s, t);
    forall j | j in t.nodes ensures j < t.next_node && NodeFits(t, j, t.nodes[j]) {
      if j == id {
        NodeFitsFrame(s, t, j, n);
      } else {
        NodeFitsFrame(s, t, j, s.nodes[j]);
      }
    }
  }

  // ------------------------------------------------------------------
  // The load loop

  /**
   * One pass of the row loop of `load_rows`, with active node `active`
   * (the node of the most recent node row, if any): a node row makes its
   * node active; an edge row must come after some node row and name the
   * active node (the `assert`), and is then added to it.
   */
  function LoadRow(json: JsonCodec, s: State, active: Option<nat>, row: Row): (o: Outcome<Option<nat>>)
    requires NockValid(s) && (active.Some? ==> active.value in s.nodes)
    ensures Extends(s, o.state) && NockValid(o.state)
    ensures o.result.Ok? ==> o.result.value.Some? && o.result.value.value in o.state.nodes
    ensures row.edge_id >= 0 && o.result.Ok? ==> o.result.value == active
    ensures row.edge_id >= 0 && (active.None? || row.src_name != s.nodes[active.value].name) ==>
      o.state == s && o.result.Err?
  {
    if row.edge_id < 0 then
      var n := PopulateNode(json, s, row);
      if n.result.Err? then Outcome(n.state, Err(n.result.error))
      else Outcome(n.state, Ok(Some(n.result.value.node_id)))
    else if active.None? then Outcome(s, Err(NoActiveNode))
    else if row.src_name != s.nodes[active.value].name then Outcome(s, Err(AssertionFailed))
    else
      var e := PopulateEdge(json, s, row, active.value);
      if e.result.Err? then Outcome(e.state, Err(e.result.error))
      else Outcome(e.state, Ok(active))
  }

  /**
   * The row loop of `load_rows` over a stream of rows, from partition `s`
   * with active node `active`. The first failure stops the loop with the
   * partition as that row left it.
   */
  function Load(json: JsonCodec, s: State, active: Option<nat>, rows: seq<Row>): (o: Outcome<Option<nat>>)
    requires NockValid(s) && (active.Some? ==> active.value in s.nodes)
    ensures Extends(s, o.state) && NockValid(o.state)
    ensures o.result.Ok? ==> (o.result.value.Some? ==> o.result.value.value in o.state.nodes)
    ensures rows == [] ==> o == Outcome(s, Ok(active))
    decreases |rows|
  {
    if rows == [] then Outcome(s, Ok(active))
    else
      var step := LoadRow(json, s, active, rows[0]);
      if step.result.Err? then step
      else
        var o := Load(json, step.state, step.result.value, rows[1..]);
        ExtendsTransitive(s, step.state, o.state);
        o
  }

  /** Loading two batches of rows is loading them at once. */
  lemma {:induction false} LoadAppend(json: JsonCodec, s: State, active: Option<nat>, a: seq<Row>, b: seq<Row>)
    requires NockValid(s) && (active.Some? ==> active.value in s.nodes)
    ensures var o := Load(json, s, active, a);
      Load(json, s, active, a + b) == if o.result.Err? then o else Load(json, o.state, o.result.value, b)
    decreases |a|
  {
    if a == [] {
      assert a + b == b;
    } else {
      assert (a + b)[0] == a[0] && (a + b)[1..] == a[1..] + b;
      var step := LoadRow(json, s, active, a[0]);
      if step.result.Ok? {
        LoadAppend(json, step.state, step.result.value, a[1..], b);
      }
    }
  }

  /**
   * An edge row naming a node other than the current one fails the
   * `assert` and stops the load at that row, whatever follows, with the
   * partition the preceding rows built.
   */
  lemma AssertionStops(json: JsonCodec, s: State, pre: seq<Row>, row: Row, post: seq<Row>)
    requires NockValid(s)
    requires Load(json, s, None, pre).result.Ok?
    requires row.edge_id >= 0
    requires var o := Load(json, s, None, pre);
      o.result.value.None? || row.src_name != o.state.nodes[o.result.value.value].name
    ensures var o := Load(json, s, None, pre);
      Load(json, s, None, pre + [row] + post)
        == Outcome(o.state, Err(if o.result.value.None? then NoActiveNode else AssertionFailed))
  {
    var o := Load(json, s, None, pre);
    var rest := [row] + post;
    LoadAppend(json, s, None, pre, rest);
    assert pre + [row] + post == pre + rest;
    assert rest[0] == row;
    var step := LoadRow(json, o.state, o.result.value, row);
    assert step == Outcome(o.state, Err(if o.result.value.None? then NoActiveNode else AssertionFailed));
    assert Load(json, o.state, o.result.value, rest) == step;
  }

  /**
   * nock never stores a node for a destination: an edge to a name not seen
   * before leaves that name registered under an id with no stored node.
   */
  lemma DestinationUnstored(json: JsonCodec, s: State, row: Row, src: nat)
    requires NockValid(s) && src in s.nodes
    requires row.dst_name.Some? && row.dst_name.value !in s.node_names
    ensures var o := PopulateEdge(json, s, row, src);
      o.result.Ok? ==> o.state.node_names[row.dst_name.value] == s.next_node && s.next_node !in o.state.nodes
  {
    var o := PopulateEdge(json, s, row, src);
    if o.result.Ok? {
      var ends := EdgeEnds(s, row);
      var r := GetEdgeRel(s, row.rel_name.value, true);
      assert ends.state == CreateNode(r.state, row.dst_name.value).state;
      assert s.next_node !in s.nodes;
    }
  }

  /**
   * `load_rows`: the row groups one after another. The active node is a
   * local of the whole method, so it carries over from one group to the
   * next.
   */
  function LoadGroups(json: JsonCodec, s: State, active: Option<nat>, groups: seq<seq<Row>>): (o: Outcome<Option<nat>>)
    requires NockValid(s) && (active.Some? ==> active.value in s.nodes)
    ensures NockValid(o.state)
    ensures o.result.Ok? ==> (o.result.value.Some? ==> o.result.value.value in o.state.nodes)
    decreases |groups|
  {
    if groups == [] then Outcome(s, Ok(active))
    else
      var o := Load(json, s, active, groups[0]);
      if o.result.Err? then o else LoadGroups(json, o.state, o.result.value, groups[1..])
  }

  /** All the rows of the groups, in order. */
  function Flatten(groups: seq<seq<Row>>): (r: seq<Row>)
  {
    if groups == [] then [] else groups[0] + Flatten(groups[1..])
  }

  /**
   * Row groups are invisible to the loader: loading them one by one is
   * loading all their rows as one stream, so an edge row opening a group
   * attaches to the last node of the group before.
   */
  lemma {:induction false} LoadGroupsFlat(json: JsonCodec, s: State, active: Option<nat>, groups: seq<seq<Row>>)
    requires NockValid(s) && (active.Some? ==> active.value in s.nodes)
    ensures LoadGroups(json, s, active, groups) == Load(json, s, active, Flatten(groups))
    decreases |groups|
  {
    if groups != [] {
      LoadAppend(json, s, active, groups[0], Flatten(groups[1..]));
      var o := Load(json, s, active, groups[0]);
      if o.result.Ok? {
        LoadGroupsFlat(json, o.state, o.result.value, groups[1..]);
      }
    }
  }
}
