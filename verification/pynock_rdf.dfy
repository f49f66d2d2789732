/**
 * The RDF projection of pynock/pynock.py: `iter_load_rdf` turns the triples
 * of a graph into rows (one node row per distinct subject, then one edge row
 * per triple of that subject), and `save_file_rdf` walks the written rows
 * back into triples. Parsing and serialising RDF text is not modelled: the
 * graph is a sequence of triples.
 */
module PynockRdf {
  import opened Strs
  import opened Graph
  import opened PynockIngest
  import opened PynockEmit

  /** An RDF statement as the string forms of its subject, predicate and object. */
  type Triple = (string, string, string)

  // ------------------------------------------------------------------
  // Import: triples to rows

  /** The distinct subjects, in the order of their first triple. */
  function Subjects(ts: seq<Triple>): (r: seq<string>)
    ensures Distinct(r)
    ensures forall u :: u in r <==> exists k :: 0 <= k < |ts| && ts[k].0 == u
  {
    var all := seq(|ts|, k requires 0 <= k < |ts| => ts[k].0);
    assert forall u :: u in all <==> exists k :: 0 <= k < |ts| && ts[k].0 == u by {
      forall u | exists k :: 0 <= k < |ts| && ts[k].0 == u ensures u in all {
        var k :| 0 <= k < |ts| && ts[k].0 == u;
        assert all[k] == u;
      }
    }
    Dedup(all)
  }

  /** The triples of one subject, in order. */
  function TriplesOf(ts: seq<Triple>, subj: string): (r: seq<Triple>)
    ensures forall t :: t in r <==> t in ts && t.0 == subj
    ensures |r| <= |ts|
  {
    if ts == [] then []
    else TriplesOf(ts[..|ts| - 1], subj) + (if ts[|ts| - 1].0 == subj then [ts[|ts| - 1]] else [])
  }

  /** The node row for a subject: no edge id, empty labels and properties, `is_rdf` set. */
  function RdfNodeRow(subj: string): Row
  {
    Row(subj, NOT_FOUND, Some(EMPTY_STRING), Some(EMPTY_STRING), 1.0, BASED_LOCAL, true, Some(EMPTY_STRING), EMPTY_STRING)
  }

  /** The edge row for a triple: edge id 1, the predicate as relation and the object as destination. */
  function RdfEdgeRow(t: Triple): Row
  {
    Row(t.0, 1, Some(t.1), Some(t.2), 1.0, BASED_LOCAL, true, Some(EMPTY_STRING), EMPTY_STRING)
  }

  /** The rows for one subject: its node row, then one edge row per triple. */
  function SubjectRows(ts: seq<Triple>, subj: string): (r: seq<Row>)
    ensures |r| == 1 + |TriplesOf(ts, subj)|
  {
    var own := TriplesOf(ts, subj);
    [RdfNodeRow(subj)] + seq(|own|, k requires 0 <= k < |own| => RdfEdgeRow(own[k]))
  }

  /** The rows for the given subjects, one subject after another. */
  function ImportRows(ts: seq<Triple>, subjects: seq<string>): seq<Row>
  {
    if subjects == [] then []
    else ImportRows(ts, subjects[..|subjects| - 1]) + SubjectRows(ts, subjects[|subjects| - 1])
  }

  /** `iter_load_rdf`: the numbered rows of a graph, whose triples are listed once each. */
  function IterLoadRdf(ts: seq<Triple>): seq<(nat, Row)>
    requires Distinct(ts)
  {
    Enumerate(ImportRows(ts, Subjects(ts)))
  }

  /** How many triples each subject has, as a function for `Sum`. */
  function TripleCounts(ts: seq<Triple>): string -> nat
  {
    (u: string) => |TriplesOf(ts, u)|
  }

  /** A triple at the end adds its subject at the end, unless the subject is already there. */
  lemma SubjectsSnoc(ts: seq<Triple>)
    requires ts != []
    ensures var init := ts[..|ts| - 1]; var u := ts[|ts| - 1].0;
      Subjects(ts) == if u in Subjects(init) then Subjects(init) else Subjects(init) + [u]
  {
    var init := ts[..|ts| - 1];
    var all := seq(|ts|, k requires 0 <= k < |ts| => ts[k].0);
    var allInit := seq(|init|, k requires 0 <= k < |init| => init[k].0);
    assert all[..|all| - 1] == allInit;
  }

  /** A triple at the end adds one to its own subject's count and to no other. */
  lemma TripleCountsSnoc(ts: seq<Triple>)
    requires ts != []
    ensures var f, g := TripleCounts(ts[..|ts| - 1]), TripleCounts(ts);
      g(ts[|ts| - 1].0) == f(ts[|ts| - 1].0) + 1 &&
      forall x :: x != ts[|ts| - 1].0 ==> g(x) == f(x)
  {
  }

  /** A subject not yet seen has no triples. */
  lemma UnseenSubject(ts: seq<Triple>, u: string)
    requires u !in Subjects(ts)
    ensures TriplesOf(ts, u) == []
  {
    if TriplesOf(ts, u) != [] {
      assert TriplesOf(ts, u)[0] in TriplesOf(ts, u);
    }
  }

  /** The sum over the subjects grows by one with each triple. */
  lemma TripleCountsStep(ts: seq<Triple>)
    requires ts != []
    ensures Sum(Subjects(ts), TripleCounts(ts)) == Sum(Subjects(ts[..|ts| - 1]), TripleCounts(ts[..|ts| - 1])) + 1
  {
    var init := ts[..|ts| - 1];
    var u := ts[|ts| - 1].0;
    SubjectsSnoc(ts);
    TripleCountsSnoc(ts);
    if u !in Subjects(init) {
      UnseenSubject(init, u);
    }
    CountStep(Subjects(init), u, TripleCounts(init), TripleCounts(ts));
  }

  /** Adding one to the count of `u`, and appending `u` if it is new, adds one to the sum. */
  lemma CountStep(subs: seq<string>, u: string, f: string -> nat, g: string -> nat)
    requires Distinct(subs)
    requires g(u) == f(u) + 1 && forall x :: x != u ==> g(x) == f(x)
    requires u !in subs ==> f(u) == 0
    ensures Sum(if u in subs then subs else subs + [u], g) == Sum(subs, f) + 1
  {
    if u in subs {
      SumBump(subs, u, f, g);
    } else {
      SumCongruent(subs, f, g);
      assert (subs + [u])[..|subs|] == subs;
    }
  }

  /** Every triple belongs to exactly one subject's group. */
  lemma {:induction false} TripleCountsSum(ts: seq<Triple>)
    ensures Sum(Subjects(ts), TripleCounts(ts)) == |ts|
  {
    if ts != [] {
      TripleCountsSum(ts[..|ts| - 1]);
      TripleCountsStep(ts);
    }
  }

  lemma {:induction false} ImportRowsCount(ts: seq<Triple>, subjects: seq<string>)
    ensures |ImportRows(ts, subjects)| == |subjects| + Sum(subjects, TripleCounts(ts))
  {
    if subjects != [] {
      ImportRowsCount(ts, subjects[..|subjects| - 1]);
    }
  }

  /** One row per distinct subject and one per triple of the graph, numbered from 0. */
  lemma IterLoadRdfShape(ts: seq<Triple>)
    requires Distinct(ts)
    ensures |IterLoadRdf(ts)| == |Subjects(ts)| + |ts|
    ensures |IterLoadRdf(ts)| == |Subjects(ts)| + |set t | t in ts|
    ensures forall k :: 0 <= k < |IterLoadRdf(ts)| ==> IterLoadRdf(ts)[k].0 == k
  {
    ImportRowsCount(ts, Subjects(ts));
    TripleCountsSum(ts);
    DistinctCardinality(ts);
  }

  /** The import rows are in sequence: each subject's edge rows follow its node row. */
  lemma {:induction false} ImportSequenced(ts: seq<Triple>, subjects: seq<string>)
    ensures Sequenced(ImportRows(ts, subjects), None)
  {
    if subjects != [] {
      var u := subjects[|subjects| - 1];
      ImportSequenced(ts, subjects[..|subjects| - 1]);
      var b := SubjectRows(ts, u);
      SequencedEdgeRows(b[1..], u);
      SequencedAppend(ImportRows(ts, subjects[..|subjects| - 1]), b, None);
    }
  }

  // ------------------------------------------------------------------
  // Export: rows to triples

  /**
   * The row walk of `save_file_rdf`: rows without `is_rdf` are skipped, an
   * RDF node row becomes the current subject, and an RDF edge row adds the
   * triple (current subject, relation, destination) to the graph.
   */
  function RdfTriples(rows: seq<Row>, subj: Option<string>): Result<set<Triple>>
  {
    if rows == [] then Ok({})
    else
      var r := rows[0];
      if !r.is_rdf then RdfTriples(rows[1..], subj)
      else if r.edge_id < 0 then RdfTriples(rows[1..], Some(r.src_name))
      else if subj.None? then Err(MissingSubject)
      else if r.rel_name.None? || r.dst_name.None? then Err(MissingTerm)
      else
        match RdfTriples(rows[1..], subj)
        case Err(e) => Err(e)
        case Ok(more) => Ok({(subj.value, r.rel_name.value, r.dst_name.value)} + more)
  }

  /** The current subject after walking `rows`. */
  function LastSubject(rows: seq<Row>, subj: Option<string>): Option<string>
  {
    if rows == [] then subj
    else if rows[0].is_rdf && rows[0].edge_id < 0 then LastSubject(rows[1..], Some(rows[0].src_name))
    else LastSubject(rows[1..], subj)
  }

  /** The graphs of two walks one after the other, or the first failure. */
  function Union(a: Result<set<Triple>>, b: Result<set<Triple>>): Result<set<Triple>>
  {
    if a.Err? then a else if b.Err? then b else Ok(a.value + b.value)
  }

  /** Walking two batches of rows is walking them at once. */
  lemma {:induction false} RdfTriplesAppend(a: seq<Row>, b: seq<Row>, subj: Option<string>)
    ensures RdfTriples(a + b, subj) == Union(RdfTriples(a, subj), RdfTriples(b, LastSubject(a, subj)))
    ensures LastSubject(a + b, subj) == LastSubject(b, LastSubject(a, subj))
    decreases |a|
  {
    if a == [] {
      assert a + b == b;
      var rb := RdfTriples(b, subj);
      if rb.Ok? {
        assert {} + rb.value == rb.value;
      }
    } else {
      assert (a + b)[0] == a[0] && (a + b)[1..] == a[1..] + b;
      var r := a[0];
      if !r.is_rdf {
        RdfTriplesAppend(a[1..], b, subj);
      } else if r.edge_id < 0 {
        RdfTriplesAppend(a[1..], b, Some(r.src_name));
      } else {
        RdfTriplesAppend(a[1..], b, subj);
      }
      if r.is_rdf && r.edge_id >= 0 && subj.Some? && r.rel_name.Some? && r.dst_name.Some? {
        var x := (subj.value, r.rel_name.value, r.dst_name.value);
        var ra := RdfTriples(a[1..], subj);
        var rb := RdfTriples(b, LastSubject(a[1..], subj));
        if ra.Ok? && rb.Ok? {
          assert {x} + (ra.value + rb.value) == ({x} + ra.value) + rb.value;
        }
      }
    }
  }

  /** A walk that starts at an RDF node row does not depend on the subject before it. */
  lemma RdfFromNodeRow(rows: seq<Row>, a: Option<string>, b: Option<string>)
    requires rows != [] && rows[0].is_rdf && rows[0].edge_id < 0
    ensures RdfTriples(rows, a) == RdfTriples(rows, b)
    ensures LastSubject(rows, a) == LastSubject(rows, b)
  {
  }

  /** RDF edge rows of the current subject give their triples. */
  lemma {:induction false} RdfEdgeRowsTriples(rows: seq<Row>, subj: string)
    requires forall k :: 0 <= k < |rows| ==>
      rows[k].is_rdf && rows[k].edge_id >= 0 && rows[k].rel_name.Some? && rows[k].dst_name.Some?
    ensures RdfTriples(rows, Some(subj)).Ok?
    ensures forall t :: t in RdfTriples(rows, Some(subj)).value <==>
      exists k :: 0 <= k < |rows| && t == (subj, rows[k].rel_name.value, rows[k].dst_name.value)
    ensures LastSubject(rows, Some(subj)) == Some(subj)
  {
    if rows != [] {
      var rest := rows[1..];
      assert forall k :: 0 <= k < |rest| ==> rest[k] == rows[k + 1];
      RdfEdgeRowsTriples(rest, subj);
      forall t ensures t in RdfTriples(rows, Some(subj)).value <==>
        exists k :: 0 <= k < |rows| && t == (subj, rows[k].rel_name.value, rows[k].dst_name.value)
      {
        if t in RdfTriples(rest, Some(subj)).value {
          var k :| 0 <= k < |rest| && t == (subj, rest[k].rel_name.value, rest[k].dst_name.value);
          assert t == (subj, rows[k + 1].rel_name.value, rows[k + 1].dst_name.value);
        }
        if exists k :: 0 <= k < |rows| && t == (subj, rows[k].rel_name.value, rows[k].dst_name.value) {
          var k :| 0 <= k < |rows| && t == (subj, rows[k].rel_name.value, rows[k].dst_name.value);
          if k > 0 {
            assert t == (subj, rest[k - 1].rel_name.value, rest[k - 1].dst_name.value);
          }
        }
      }
    }
  }

  /** Rows without `is_rdf` give nothing and leave the subject alone. */
  lemma {:induction false} NonRdfRows(rows: seq<Row>, subj: Option<string>)
    requires forall k :: 0 <= k < |rows| ==> !rows[k].is_rdf
    ensures RdfTriples(rows, subj) == Ok({})
    ensures LastSubject(rows, subj) == subj
  {
    if rows != [] {
      NonRdfRows(rows[1..], subj);
    }
  }

  // ------------------------------------------------------------------
  // Export of imported triples

  /** Walking one subject's rows gives exactly that subject's triples. */
  lemma SubjectRowsTriples(ts: seq<Triple>, u: string, subj: Option<string>)
    ensures RdfTriples(SubjectRows(ts, u), subj) == Ok(set t | t in ts && t.0 == u)
    ensures LastSubject(SubjectRows(ts, u), subj) == Some(u)
  {
    var b := SubjectRows(ts, u);
    var own := TriplesOf(ts, u);
    var edges := b[1..];
    assert b == [b[0]] + edges;
    RdfEdgeRowsTriples(edges, u);
    var got := RdfTriples(edges, Some(u)).value;
    assert got == set t | t in ts && t.0 == u by {
      forall t | t in got ensures t in ts && t.0 == u {
        var k :| 0 <= k < |edges| && t == (u, edges[k].rel_name.value, edges[k].dst_name.value);
        assert edges[k] == RdfEdgeRow(own[k]);
        assert own[k] in own;
      }
      forall t | t in ts && t.0 == u ensures t in got {
        assert t in own;
        var k :| 0 <= k < |own| && own[k] == t;
        assert edges[k] == RdfEdgeRow(own[k]);
      }
    }
  }

  lemma {:induction false} ImportRowsTriples(ts: seq<Triple>, subjects: seq<string>, subj: Option<string>)
    ensures RdfTriples(ImportRows(ts, subjects), subj) == Ok(set t | t in ts && t.0 in subjects)
    ensures subjects != [] ==> LastSubject(ImportRows(ts, subjects), subj) == Some(subjects[|subjects| - 1])
    ensures subjects == [] ==> LastSubject(ImportRows(ts, subjects), subj) == subj
  {
    if subjects == [] {
      assert (set t | t in ts && t.0 in subjects) == {};
    } else {
      var init := subjects[..|subjects| - 1];
      var u := subjects[|subjects| - 1];
      var front := ImportRows(ts, init);
      assert ImportRows(ts, subjects) == front + SubjectRows(ts, u);
      ImportRowsTriples(ts, init, subj);
      SubjectRowsTriples(ts, u, LastSubject(front, subj));
      RdfTriplesAppend(front, SubjectRows(ts, u), subj);
      SubjectsSnocTriples(ts, init, u);
      assert subjects == init + [u];
    }
  }

  /** The triples of some subjects and then one more. */
  lemma SubjectsSnocTriples(ts: seq<Triple>, init: seq<string>, u: string)
    ensures (set t | t in ts && t.0 in init) + (set t | t in ts && t.0 == u) == set t | t in ts && t.0 in init + [u]
  {
  }

  /** Exporting the rows a graph imports to gives back the graph's triples. */
  lemma ExportOfImport(ts: seq<Triple>)
    ensures RdfTriples(ImportRows(ts, Subjects(ts)), None) == Ok(set t | t in ts)
  {
    ImportRowsTriples(ts, Subjects(ts), None);
    forall t | t in ts ensures t.0 in Subjects(ts) {
      var k :| 0 <= k < |ts| && ts[k] == t;
    }
    assert (set t | t in ts && t.0 in Subjects(ts)) == set t | t in ts;
  }

  // ------------------------------------------------------------------
  // Export of a partition

  /** The triple of every edge stored on the node under `id`, if that node is an RDF node. */
  ghost function NodeTriples(s: State, id: nat): set<Triple>
    requires id in s.nodes
  {
    var n := s.nodes[id];
    if !n.is_rdf then {}
    else set r, e | r in n.edge_map.lists && e in n.edge_map.lists[r] && e.rel < |s.edge_rels|
      :: (n.name, s.edge_rels[e.rel], NameOf(s)(e.node_id))
  }

  /** The triples of every edge of every RDF node. */
  ghost function EdgeTriples(s: State): set<Triple>
  {
    set id, t | id in s.nodes && t in NodeTriples(s, id) :: t
  }

  /** Edge row `k + 1` of a block, as the relation label and destination name of the node's `k`-th edge. */
  lemma BlockEdgeRowAt(json: JsonCodec, s: State, id: nat, sort: bool, k: nat)
    requires Consistent(s) && id in s.nodes && k < |NodeEdges(s, s.nodes[id], sort)|
    ensures var e := NodeEdges(s, s.nodes[id], sort)[k]; var b := Block(json, s, id, sort);
      && k + 1 < |b| && e.rel < |s.edge_rels| && e.node_id in s.nodes
      && e.rel in s.nodes[id].edge_map.lists && e in s.nodes[id].edge_map.lists[e.rel]
      && b[k + 1].rel_name == Some(s.edge_rels[e.rel]) && b[k + 1].dst_name == Some(s.nodes[e.node_id].name)
  {
    BlockEdgeRows(json, s, id, sort);
  }

  /** The triple of an emitted edge row of an RDF node is the triple of a stored edge. */
  lemma BlockTriplesStored(json: JsonCodec, s: State, id: nat, sort: bool, k: nat)
    requires Consistent(s) && id in s.nodes && s.nodes[id].is_rdf
    requires k < |NodeEdges(s, s.nodes[id], sort)|
    ensures var b := Block(json, s, id, sort);
      b[k + 1].rel_name.Some? && b[k + 1].dst_name.Some? &&
      (s.nodes[id].name, b[k + 1].rel_name.value, b[k + 1].dst_name.value) in NodeTriples(s, id)
  {
    var n := s.nodes[id];
    BlockEdgeRowAt(json, s, id, sort, k);
    var e := NodeEdges(s, n, sort)[k];
    assert NameOf(s)(e.node_id) == s.nodes[e.node_id].name;
  }

  /** A stored edge has a place among the edges a node writes. */
  lemma StoredEdgeIndex(s: State, id: nat, sort: bool, r: nat, e: Edge) returns (k: nat)
    requires Consistent(s) && id in s.nodes
    requires r in s.nodes[id].edge_map.lists && e in s.nodes[id].edge_map.lists[r]
    ensures k < |NodeEdges(s, s.nodes[id], sort)| && NodeEdges(s, s.nodes[id], sort)[k] == e
  {
    var n := s.nodes[id];
    assert NodeFits(s, id, n);
    assert e.rel == r;
    NodeEdgesMembers(s, n, sort);
    k :| 0 <= k < |NodeEdges(s, n, sort)| && NodeEdges(s, n, sort)[k] == e;
  }

  /** The triple of every stored edge of an RDF node is the triple of an emitted edge row. */
  lemma StoredTriplesEmitted(json: JsonCodec, s: State, id: nat, sort: bool, t: Triple)
    requires Consistent(s) && id in s.nodes && t in NodeTriples(s, id)
    ensures var b := Block(json, s, id, sort);
      exists k :: 1 <= k < |b| && b[k].rel_name.Some? && b[k].dst_name.Some? &&
        t == (s.nodes[id].name, b[k].rel_name.value, b[k].dst_name.value)
  {
    var n := s.nodes[id];
    var r, e :| r in n.edge_map.lists && e in n.edge_map.lists[r] && e.rel < |s.edge_rels|
      && t == (n.name, s.edge_rels[e.rel], NameOf(s)(e.node_id));
    var k := StoredEdgeIndex(s, id, sort, r, e);
    BlockEdgeRowAt(json, s, id, sort, k);
    var b := Block(json, s, id, sort);
    assert t == (n.name, b[k + 1].rel_name.value, b[k + 1].dst_name.value);
  }

  /** A block is a node row followed by edge rows with a relation and a destination, all with the node's `is_rdf`. */
  lemma BlockRowKinds(json: JsonCodec, s: State, id: nat, sort: bool)
    requires Consistent(s) && id in s.nodes
    ensures var b := Block(json, s, id, sort);
      && |b| > 0 && b[0].edge_id < 0 && b[0].src_name == s.nodes[id].name && b[0].is_rdf == s.nodes[id].is_rdf
      && forall k :: 1 <= k < |b| ==>
           b[k].edge_id >= 0 && b[k].rel_name.Some? && b[k].dst_name.Some? && b[k].is_rdf == s.nodes[id].is_rdf
  {
    BlockShape(json, s, id, sort);
    BlockEdgeRows(json, s, id, sort);
    var b := Block(json, s, id, sort);
    forall k | 1 <= k < |b|
      ensures b[k].edge_id >= 0 && b[k].rel_name.Some? && b[k].dst_name.Some? && b[k].is_rdf == s.nodes[id].is_rdf
    {
      assert b[(k - 1) + 1] == b[k];
    }
  }

  /** The edge rows of an RDF node's block, under that node as subject, give a triple per row. */
  lemma BlockEdgeRowsWalk(json: JsonCodec, s: State, id: nat, sort: bool)
    requires Consistent(s) && id in s.nodes && s.nodes[id].is_rdf
    ensures var b := Block(json, s, id, sort); var edges := b[1..];
      && |b| > 0 && RdfTriples(edges, Some(s.nodes[id].name)).Ok?
      && (forall k :: 0 <= k < |edges| ==> edges[k] == b[k + 1] && edges[k].rel_name.Some? && edges[k].dst_name.Some?)
      && forall t :: t in RdfTriples(edges, Some(s.nodes[id].name)).value <==>
           exists k :: 0 <= k < |edges| && t == (s.nodes[id].name, edges[k].rel_name.value, edges[k].dst_name.value)
  {
    var b := Block(json, s, id, sort);
    BlockRowKinds(json, s, id, sort);
    var edges := b[1..];
    forall k | 0 <= k < |edges|
      ensures edges[k] == b[k + 1]
      ensures edges[k].is_rdf && edges[k].edge_id >= 0 && edges[k].rel_name.Some? && edges[k].dst_name.Some?
    {
    }
    RdfEdgeRowsTriples(edges, s.nodes[id].name);
  }

  /** The edge rows of an RDF node's block, under that node as subject, give exactly the node's triples. */
  lemma BlockEdgeTriples(json: JsonCodec, s: State, id: nat, sort: bool)
    requires Consistent(s) && id in s.nodes && s.nodes[id].is_rdf
    ensures var b := Block(json, s, id, sort);
      |b| > 0 && RdfTriples(b[1..], Some(s.nodes[id].name)) == Ok(NodeTriples(s, id))
  {
    var n := s.nodes[id];
    var b := Block(json, s, id, sort);
    BlockEdgeRowsWalk(json, s, id, sort);
    var edges := b[1..];
    var got := RdfTriples(edges, Some(n.name)).value;
    forall t | t in got ensures t in NodeTriples(s, id) {
      var k :| 0 <= k < |edges| && t == (n.name, edges[k].rel_name.value, edges[k].dst_name.value);
      BlockEdgeRows(json, s, id, sort);
      BlockTriplesStored(json, s, id, sort, k);
    }
    forall t | t in NodeTriples(s, id) ensures t in got {
      StoredTriplesEmitted(json, s, id, sort, t);
      var k :| 1 <= k < |b| && b[k].rel_name.Some? && b[k].dst_name.Some? &&
        t == (n.name, b[k].rel_name.value, b[k].dst_name.value);
      assert edges[k - 1] == b[k];
    }
    assert got == NodeTriples(s, id);
  }

  /** Walking a node's block gives that node's triples, whatever subject came before. */
  lemma BlockTriples(json: JsonCodec, s: State, id: nat, sort: bool, subj: Option<string>)
    requires Consistent(s) && id in s.nodes
    ensures RdfTriples(Block(json, s, id, sort), subj) == Ok(NodeTriples(s, id))
    ensures LastSubject(Block(json, s, id, sort), subj) == if s.nodes[id].is_rdf then Some(s.nodes[id].name) else subj
  {
    var n := s.nodes[id];
    var b := Block(json, s, id, sort);
    BlockRowKinds(json, s, id, sort);
    var edges := b[1..];
    assert b == [b[0]] + edges;
    if !n.is_rdf {
      NonRdfRows(edges, subj);
    } else {
      BlockEdgeTriples(json, s, id, sort);
      RdfEdgeRowsTriples(edges, n.name);
    }
  }

  /** The triples of the given nodes, one after another. */
  ghost function TriplesOfIds(s: State, ids: seq<nat>): set<Triple>
    requires forall k :: 0 <= k < |ids| ==> ids[k] in s.nodes
  {
    if ids == [] then {} else TriplesOfIds(s, ids[..|ids| - 1]) + NodeTriples(s, ids[|ids| - 1])
  }

  lemma {:induction false} BlocksTriples(json: JsonCodec, s: State, ids: seq<nat>, sort: bool, subj: Option<string>)
    requires Consistent(s) && forall k :: 0 <= k < |ids| ==> ids[k] in s.nodes
    ensures RdfTriples(Blocks(json, s, ids, sort), subj) == Ok(TriplesOfIds(s, ids))
  {
    if ids != [] {
      var init := ids[..|ids| - 1];
      var id := ids[|ids| - 1];
      BlocksTriples(json, s, init, sort, subj);
      var mid := LastSubject(Blocks(json, s, init, sort), subj);
      BlockTriples(json, s, id, sort, mid);
      RdfTriplesAppend(Blocks(json, s, init, sort), Block(json, s, id, sort), subj);
    }
  }

  lemma {:induction false} TriplesOfIdsMembers(s: State, ids: seq<nat>)
    requires forall k :: 0 <= k < |ids| ==> ids[k] in s.nodes
    ensures forall t :: t in TriplesOfIds(s, ids) <==> exists k :: 0 <= k < |ids| && t in NodeTriples(s, ids[k])
  {
    if ids != [] {
      var init := ids[..|ids| - 1];
      TriplesOfIdsMembers(s, init);
      forall t | t in TriplesOfIds(s, ids) ensures exists k :: 0 <= k < |ids| && t in NodeTriples(s, ids[k]) {
        if t in TriplesOfIds(s, init) {
          var k :| 0 <= k < |init| && t in NodeTriples(s, init[k]);
          assert ids[k] == init[k];
        } else {
          assert t in NodeTriples(s, ids[|ids| - 1]);
        }
      }
      forall t, k | 0 <= k < |ids| && t in NodeTriples(s, ids[k]) ensures t in TriplesOfIds(s, ids) {
        if k < |init| {
          assert init[k] == ids[k];
        }
      }
    }
  }

  /** Taken over a sequence holding every stored id, the node triples are all the edge triples. */
  lemma TriplesOfAllIds(s: State, ids: seq<nat>)
    requires forall k :: 0 <= k < |ids| ==> ids[k] in s.nodes
    requires forall id :: id in s.nodes ==> id in ids
    ensures TriplesOfIds(s, ids) == EdgeTriples(s)
  {
    TriplesOfIdsMembers(s, ids);
    forall t | t in EdgeTriples(s) ensures t in TriplesOfIds(s, ids) {
      var id :| id in s.nodes && t in NodeTriples(s, id);
      var k :| 0 <= k < |ids| && ids[k] == id;
    }
  }

  /**
   * `save_file_rdf`: exporting a partition, sorted or not, gives the triple
   * of every edge stored on an RDF node, and never fails.
   */
  lemma ExportOfEmit(json: JsonCodec, s: State, sort: bool)
    requires Consistent(s)
    ensures RdfTriples(Emit(json, s, sort), None) == Ok(EdgeTriples(s))
  {
    var order := NodeOrder(s, sort);
    NodeOrderIds(s, sort);
    forall k | 0 <= k < |order| ensures order[k] in s.nodes {
      assert order[k] in order;
    }
    assert Emit(json, s, sort) == Blocks(json, s, order, sort);
    BlocksTriples(json, s, order, sort, None);
    TriplesOfAllIds(s, order);
  }
}
