/**
 * The two readers side by side. pynock/pynock.py and nock/nock.py share
 * the data model but not their policies: on a partition both accept, the
 * lemmas here state exactly where the same call gives different results.
 */
module Policies {
  import opened Graph
  import PynockIngest
  import NockIngest

  /** Every partition pynock keeps consistent is one nock accepts. */
  lemma ConsistentIsNockValid(s: State)
    requires PynockIngest.Consistent(s)
    ensures NockIngest.NockValid(s)
  {
    forall id | id in s.nodes ensures id < s.next_node && NodeFits(s, id, s.nodes[id]) {
      assert NodeFits(s, id, s.nodes[id]);
    }
  }

  /** pynock refuses the empty name and changes nothing; nock registers it like any other. */
  lemma EmptyNamePolicies(s: State)
    requires EMPTY_STRING !in s.node_names
    ensures PynockIngest.CreateNodeName(s, EMPTY_STRING) == Outcome(s, Err(EmptyName))
    ensures var c := NockIngest.CreateNode(s, EMPTY_STRING);
      c.value == s.next_node && c.state.next_node == s.next_node + 1 && c.state.node_names[EMPTY_STRING] == s.next_node
  {
  }

  /**
   * Asked about an unseen relation label with `create` false, pynock
   * answers NOT_FOUND and changes nothing, while nock appends the label
   * and answers its new index.
   */
  lemma CreateFlagPolicies(s: State, rel_name: string)
    requires rel_name !in s.edge_rels
    ensures PynockIngest.GetEdgeRel(s, rel_name, false) == Step(s, NOT_FOUND)
    ensures var st := NockIngest.GetEdgeRel(s, rel_name, false);
      st.state.edge_rels == s.edge_rels + [rel_name] && st.value == |s.edge_rels| && st.value != NOT_FOUND
  {
  }

  /**
   * A second node row for a name already stored: pynock keeps the node it
   * has (first wins), edges included, and changes nothing; nock stores a
   * fresh node from the row under the same id (last wins), so the edges
   * already added to that name are gone.
   */
  lemma RedefinitionPolicies(json: JsonCodec, s: State, row: Row)
    requires PynockIngest.Consistent(s) && row.src_name in s.node_names
    requires row.labels.Some? && LoadProps(json, row.props).Some?
    ensures var id := s.node_names[row.src_name];
      && id in s.nodes
      && PynockIngest.PopulateNode(json, s, row) == Outcome(s, Ok(s.nodes[id]))
      && (NockIngest.NockValid(s) ==>
            var n := NockIngest.PopulateNode(json, s, row);
            && n.result.Ok? && n.result.value.node_id == id
            && n.state.node_names == s.node_names && n.state.next_node == s.next_node
            && n.state.nodes == s.nodes[id := n.result.value]
            && n.result.value.edge_map == NoEdges && n.result.value.truth == row.truth)
  {
    PynockIngest.StoredName(s, row.src_name);
  }

  /**
   * An edge to a name never seen: pynock stores a placeholder node for the
   * destination, while nock only registers the name and stores no node.
   */
  lemma DestinationPolicies(json: JsonCodec, s: State, row: Row, src: nat)
    requires PynockIngest.Consistent(s) && src in s.nodes
    requires row.dst_name.Some? && row.dst_name.value !in s.node_names
    ensures var o := PynockIngest.PopulateEdge(json, s, row, src);
      o.result.Ok? ==>
        && s.next_node in o.state.nodes
        && o.state.nodes[s.next_node] == Placeholder(s.next_node, row.dst_name.value, row.truth, row.is_rdf)
    ensures NockIngest.NockValid(s)
    ensures var o := NockIngest.PopulateEdge(json, s, row, src);
      o.result.Ok? ==> s.next_node !in o.state.nodes
  {
    PynockIngest.PopulateEdgeDestination(json, s, row, src);
    ConsistentIsNockValid(s);
    NockIngest.DestinationUnstored(json, s, row, src);
  }
}
