# pynock row codec in Dafny

This project models the row-oriented graph codec of pynock. It also models the
older `nock` reader that follows the same data model with different policies.

A **partition** holds four things:

- a name registry (`node_names`) that hands out dense ids `0 .. next_node - 1`;
- the stored nodes (`nodes`), each with its edges grouped by relation id in an
  `edge_map`;
- a relation table (`edge_rels`) whose index 0 is the blank relation `""`;
- the counter `next_node`.

The codec reads a flat stream of nine-field rows into a partition, and writes
a partition back out as rows. Its rules:

- A row with `edge_id < 0` is a node row; any other row is an edge row of
  the most recent node row.
- Writing goes node by node: the node row, then its edge rows, numbered
  0, 1, 2, … across all of the node's relations. With `sort`, nodes come by
  name, relation groups by relation id and edges by destination name.
- RDF import turns triples into rows (one node row per subject, one edge row
  per triple). RDF export walks the rows and collects
  (subject, relation, destination) triples from the rows marked `is_rdf`.

## Layout

- `strs.dfy` (`Strs`): Python's string order, `split(",")`, `",".join`,
  `str.replace`, `set(...)` as a duplicate-free sequence, `list.index`, and
  a stable insertion sort standing for `sorted`.
- `graph.dfy` (`Graph`): the shared data model.
  - Constants, rows, edges and nodes, and `Node.add_edge`.
  - The partition state and its growth relation `Extends`.
  - Property and label encodings.
- `pynock_ingest.dfy` (`PynockIngest`): pynock's ingestion as functions on
  partition values.
  - `create_node_name`, `get_edge_rel`, `add_node`, `populate_node`,
    `populate_edge`.
  - The `parse_rows` loop as a fold over rows.
  - The invariant `Consistent` that every successful step keeps.
- `pynock_emit.dfy` (`PynockEmit`): `iter_gen_rows` as a function, with
  lemmas on the shape, names, order and sequencing of its output.
- `pynock_rdf.dfy` (`PynockRdf`): the triple→row mapping of
  `iter_load_rdf` and the row→triple walk of `save_file_rdf`.
- `pynock.dfy` (`Pynock`): the `Partition` class with fields updated in
  place. Each method is proved equal to its function above.
- `nock_ingest.dfy` (`NockIngest`) and `nock.dfy` (`Nock`): the same two
  layers for nock/nock.py.
- `policies.dfy` (`Policies`): where the two readers differ on the same
  input.
- `roundtrip.dfy` (`SortedRoundTrip`): a partition whose sorted rows do not
  read back to a partition that writes the same rows.

Two inputs are parameters rather than code:

- **JSON.** `json.loads` / `json.dumps` are a `JsonCodec` value that the
  partition holds as a constant.
- **Loaded rows and triples.** Rows and triples arrive as sequences, in place
  of the Parquet, CSV and RDF loaders.

A failure the Python code raises is an `Err` result. The partition is left
as the failing step left it.

In the following places the code departs from what the row format is
designed to mean; the model follows the code.

- An empty `labels` field is split into `{""}`, not into the empty set. So
  an empty label set is written as `""` and read back as `{""}`
  (`Graph.EmptyLabels`).
- `_load_props` accepts two empty-map sentinels, `""` and `"null"`, while
  `_save_props` writes `""`.
- pynock's `populate_node` registers the name before it reads the labels
  and the properties. A row that fails there leaves the name registered
  without a stored node.
- The format numbers a node's edge rows 0, 1, 2, … and expects them in
  that order. Ingestion reads only the sign of `edge_id`, so edge ids
  out of order, repeated or with gaps are accepted
  (`PynockIngest.EdgeIdsIgnored`).
- Writing sorted is meant to make ingest-and-write a byte-identical round
  trip. It is not one (`SortedRoundTrip.SortedRoundTripBreaks`; see the
  last line of "## Left out").

## Model

| member | source | states |
|---|---|---|
| Graph.LoadPropsSentinels | nock/nock.py:91-106 | `""` and `"null"` both decode to the empty map; any other string is decoded by JSON |
| Graph.SaveProps | pynock/pynock.py:158-174 | the result is `""` exactly when the map is empty or JSON gives nothing |
| Graph.Compact | pynock/pynock.py:171-172 | the two separator replacements keep a JSON object's leading `{` |
| Graph.PropsRoundTrip | pynock/pynock.py:140-174 | the empty map always reads back; a non-empty map reads back when JSON reads back its own text and the two replacements do not change what that text means (`CompactKeepsMeaning`); the save is `""` exactly for the empty map |
| Graph.SavePropsCollides | pynock/pynock.py:168-174 | for any key and value free of quotes, commas and colons, the key followed by `, ` and the key followed by `,` are saved as the same text, so one of the two maps does not read back, whatever `json.loads` does |
| Graph.CompactWide | pynock/pynock.py:171-172 | `{"k, ": "v"}` is compacted to `{"k,":"v"}`: the second replacement reaches into the key |
| Graph.CompactNarrow | pynock/pynock.py:171-172 | `{"k,": "v"}` is compacted to `{"k,":"v"}` as well |
| Graph.DecodeLabels | pynock/pynock.py:232 | the decoded label set is non-empty and duplicate-free, and holds exactly the comma-separated pieces |
| Graph.LabelsRoundTrip | pynock/pynock.py:548 | a label field without repeats is written back exactly as read, when the set is written in the order it was read |
| Graph.LabelsWrittenInAnyOrder | pynock/pynock.py:548 | in whatever order the label set is written, the field reads back with exactly the labels of the field it was read from; a single label is written back as the same text |
| Graph.LabelSetRoundTrip | pynock/pynock.py:548 | a non-empty set of comma-free labels is read back exactly as written |
| Graph.EmptyLabels | pynock/pynock.py:548 | the empty set is written as `""`, which reads back as `{""}`, which is written as `""` again |
| Graph.Node.AddEdge | pynock/pynock.py:72-84 | the edge goes to the end of its relation's list; a new relation gets a new list after the others; every other list and field is unchanged; the edge count grows by one |
| Graph.AppendCount | pynock/pynock.py:81-84 | appending keeps the edge map well formed and adds exactly one edge |
| Graph.AddNameKeepsDense | pynock/pynock.py:129-134 | registering an unseen name under `next_node` keeps the registry a bijection onto `0 .. next_node - 1` |
| Graph.AddEdgeFits | pynock/pynock.py:81-84 | appending an edge whose relation and destination exist keeps every edge of the node sound |
| PynockIngest.FreshConsistent | pynock/pynock.py:94-98 | an empty partition, with only the blank relation, is consistent |
| PynockIngest.StoredName | pynock/pynock.py:110-111 | the node stored under a registered name carries that name |
| PynockIngest.CreateNodeName | pynock/pynock.py:116-136 | `""` fails and changes nothing; a known name returns its id and changes nothing; a new name gets the old `next_node`, which grows by exactly one; ids stay dense |
| PynockIngest.GetEdgeRel | pynock/pynock.py:241-257 | with `create` false an unseen label gives NOT_FOUND and changes nothing; otherwise the label is appended only when absent, and `edge_rels[result] == label`; the table stays duplicate-free with `""` at 0 and earlier indices unmoved |
| PynockIngest.GetEdgeRelUnique | pynock/pynock.py:257 | the index returned is the only position of the label |
| PynockIngest.AddNode | pynock/pynock.py:177-186 | the node is stored under its own id, and nothing else changes |
| PynockIngest.NewNodeConsistent | pynock/pynock.py:224-236 | registering and storing a new edgeless node keeps the partition consistent |
| PynockIngest.PopulateNode | pynock/pynock.py:210-238 | first wins: a registered name returns the stored node and changes nothing; otherwise exactly one node is added under the old `next_node` with the row's fields; failures are named |
| PynockIngest.InternConsistent | pynock/pynock.py:251-253 | interning a relation keeps the partition consistent |
| PynockIngest.AttachConsistent | pynock/pynock.py:292 | appending a sound edge to a stored node keeps the partition consistent |
| PynockIngest.DestinationNode | pynock/pynock.py:270-282 | an empty destination fails; a known one keeps the partition; an unseen one is registered under `next_node` and stored as a placeholder taking only truth and `is_rdf` from the row |
| PynockIngest.AttachEdge | pynock/pynock.py:284-292 | the relation is interned, the edge carries the row's truth and properties, and it is appended to the source node alone |
| PynockIngest.PopulateEdge | pynock/pynock.py:260-294 | fails exactly on an empty destination, a missing relation or malformed properties; on success the partition stays consistent |
| PynockIngest.PopulateEdgeDestination | pynock/pynock.py:270-282 | the edge points at the destination's id; a known destination leaves the registry alone; an unseen one is registered under the old `next_node` and a placeholder with the row's truth and `is_rdf` is stored there |
| PynockIngest.PopulateEdgeRelation | pynock/pynock.py:285-290 | the relation is interned and the edge carries its index, the row's truth and the decoded properties |
| PynockIngest.PopulateEdgeSource | pynock/pynock.py:292 | the edge is appended to the active node's list for its relation, and every other stored node is unchanged |
| PynockIngest.IngestRow | pynock/pynock.py:488-516 | one pass of the loop only grows the partition; on success the partition stays consistent, the active node is stored, and an edge row keeps the active node |
| PynockIngest.Ingest | pynock/pynock.py:479-516 | the parse only grows the partition, keeps it consistent on success, and returns the active node |
| PynockIngest.IngestAppend | pynock/pynock.py:488 | parsing two batches is parsing them at once: the loop resumes where it stopped |
| PynockIngest.OutOfSequenceStops | pynock/pynock.py:502-505 | an edge row naming a node other than the active one stops the parse there, with the partition the earlier rows built, whatever follows |
| PynockIngest.SequencedNodeRow | pynock/pynock.py:490-499 | a node row fails only on its content, and its node becomes the active one |
| PynockIngest.SequencedEdgeRow | pynock/pynock.py:502-516 | an edge row of the active node fails only on its content, and keeps the active node |
| PynockIngest.SequencedIngest | pynock/pynock.py:488-516 | rows in which each edge row follows a node row of its own name never raise the sequencing error |
| SortedRoundTrip.SortedRoundTripBreaks | pynock/pynock.py:210-238 | the rows [B's node row with label `x`, A's node row, the edge row A→B] are read without error; writing the result sorted, reading those rows back and writing sorted again gives different rows, because B becomes a placeholder and its own row is then ignored |
| SortedRoundTrip.ReadOriginal | pynock/pynock.py:479-516 | reading B's node row, A's node row and the edge row A→B stores B under id 0 with its label and A under id 1 with the edge, A active |
| SortedRoundTrip.EmitExample | pynock/pynock.py:519-581 | sorted, that partition is written as A's row, the edge row A→B, then B's row |
| SortedRoundTrip.ReadRows | pynock/pynock.py:479-516 | reading those rows makes B a placeholder when the edge row is read, and B's own row then changes nothing |
| SortedRoundTrip.EmitReread | pynock/pynock.py:519-581 | the partition read back writes B's row with empty labels |
| PynockIngest.IngestRowIgnoresEdgeId | pynock/pynock.py:490 | a row is parsed the same whatever its edge id, as long as the sign is kept |
| PynockIngest.EdgeIdsIgnored | pynock/pynock.py:488-516 | renumbering the edge ids of a stream, keeping their signs, does not change the parse |
| PynockEmit.Ids | pynock/pynock.py:535 | ids in registration order, the order `node_names.items()` gives |
| PynockEmit.NodeOrder | pynock/pynock.py:532-537 | the write order is a permutation of all ids |
| PynockEmit.GroupOrder | pynock/pynock.py:556-561 | the relation groups are a permutation of the node's relations |
| PynockEmit.Ordered | pynock/pynock.py:562-565 | an edge list is written as a permutation of itself |
| PynockEmit.SortedGroupOrder | pynock/pynock.py:557 | sorted relation groups come in strictly ascending relation id |
| PynockEmit.SortedEdgeOrder | pynock/pynock.py:563 | sorted edges come in ascending destination name, and edges with the same destination name keep their order |
| PynockEmit.EdgesOfGroups | pynock/pynock.py:561-567 | the edges of the groups number the sum of the groups' list lengths |
| PynockEmit.NodeEdges | pynock/pynock.py:554-567 | a node writes as many edges as it stores |
| PynockEmit.EdgesOfGroupsMembers | pynock/pynock.py:561-567 | the edges written for the groups are exactly the edges stored in their lists |
| PynockEmit.NodeEdgesMembers | pynock/pynock.py:554-567 | the edges written for a node are exactly its stored edges, none lost or invented |
| PynockEmit.EdgeRows | pynock/pynock.py:567-581 | one edge row per edge |
| PynockEmit.EdgeRowsAppend | pynock/pynock.py:581 | the running edge id continues from one relation's list into the next |
| PynockEmit.Block | pynock/pynock.py:538-581 | a node writes one row plus one per stored edge |
| PynockEmit.BlockShape | pynock/pynock.py:540-552 | the node row carries the node's name, labels, properties, truth, shadow and `is_rdf`, with edge id -1 and no relation or destination |
| PynockEmit.BlockEdgeRows | pynock/pynock.py:554-581 | edge row k has edge id k, the relation's label, the destination's name, the edge's truth and properties, shadow -1 and the node's `is_rdf` |
| PynockEmit.Blocks | pynock/pynock.py:537-581 | the blocks of some nodes have one row per node plus one per edge |
| PynockEmit.Emit | pynock/pynock.py:519-581 | total rows = nodes + edges |
| PynockEmit.OrderStored | pynock/pynock.py:537-538 | every id in the write order has a stored node |
| PynockEmit.NodeOrderIds | pynock/pynock.py:532-537 | the write order holds each id below `next_node` exactly once |
| PynockEmit.EmitNames | pynock/pynock.py:537-552 | the node rows name the nodes in the write order |
| PynockEmit.NamesOfAllIds | pynock/pynock.py:532-537 | the names in write order are duplicate-free and are exactly the registered names |
| PynockEmit.SortedNames | pynock/pynock.py:533 | sorted, the node names are strictly ascending in Python's string order |
| PynockEmit.EmitNodeNames | pynock/pynock.py:532-552 | one node row per registered name; unsorted in id order, sorted in ascending name order |
| PynockEmit.EmitSequenced | pynock/pynock.py:519-581 | the written rows are in sequence, so reading them back never raises the sequencing error |
| PynockRdf.Subjects | pynock/pynock.py:437 | the distinct subjects, each exactly once |
| PynockRdf.TriplesOf | pynock/pynock.py:456 | the triples of one subject are exactly those with that subject |
| PynockRdf.SubjectRows | pynock/pynock.py:437-476 | a subject gives one node row and one edge row per triple |
| PynockRdf.TripleCountsSum | pynock/pynock.py:456 | every triple is counted under exactly one subject |
| PynockRdf.ImportRowsCount | pynock/pynock.py:437-476 | the rows number the subjects plus their triples |
| PynockRdf.IterLoadRdfShape | pynock/pynock.py:437-476 | for a graph (no triple listed twice): one row per distinct subject and one per triple, so the row count is the subject count plus the graph's size; rows numbered 0, 1, 2, … |
| PynockRdf.ImportSequenced | pynock/pynock.py:437-476 | imported rows are in sequence, so parsing them never raises the sequencing error |
| PynockRdf.RdfTriplesAppend | pynock/pynock.py:667-678 | walking two batches of rows is walking them at once, the current subject carrying over |
| PynockRdf.RdfFromNodeRow | pynock/pynock.py:669-670 | an RDF node row resets the subject, so the walk from it does not depend on the subject before |
| PynockRdf.RdfEdgeRowsTriples | pynock/pynock.py:671-675 | RDF edge rows under a subject give exactly their (subject, relation, destination) triples |
| PynockRdf.NonRdfRows | pynock/pynock.py:668 | rows without `is_rdf` add nothing and leave the subject alone |
| PynockRdf.SubjectRowsTriples | pynock/pynock.py:667-675 | exporting one subject's imported rows gives exactly its triples |
| PynockRdf.ImportRowsTriples | pynock/pynock.py:667-675 | exporting the imported rows of some subjects gives exactly their triples |
| PynockRdf.ExportOfImport | pynock/pynock.py:437-476 | exporting the rows a graph imports to gives back exactly the graph's triples |
| PynockRdf.BlockTriplesStored | pynock/pynock.py:671-675 | the triple of a written edge row of an RDF node is the triple of a stored edge |
| PynockRdf.BlockEdgeTriples | pynock/pynock.py:667-678 | the edge rows of an RDF node's block give exactly that node's stored edge triples |
| PynockRdf.StoredTriplesEmitted | pynock/pynock.py:671-675 | the triple of every stored edge of an RDF node comes from some written edge row |
| PynockRdf.BlockRowKinds | pynock/pynock.py:540-575 | a block is a node row then edge rows with relation and destination, all with the node's `is_rdf` |
| PynockRdf.BlockTriples | pynock/pynock.py:667-678 | walking a node's block gives that node's edge triples and sets the subject to the node when it is RDF |
| PynockRdf.BlocksTriples | pynock/pynock.py:667-678 | walking the blocks of some nodes gives the union of their triples |
| PynockRdf.TriplesOfIdsMembers | pynock/pynock.py:667-678 | a triple comes from some listed node exactly when it is that node's edge triple |
| PynockRdf.TriplesOfAllIds | pynock/pynock.py:667-678 | over all stored ids, the node triples are all the edge triples |
| PynockRdf.ExportOfEmit | pynock/pynock.py:659-678 | exporting a partition, sorted or not, never fails and gives exactly the triples of the edges stored on RDF nodes |
| Pynock.Partition.constructor | pynock/pynock.py:94-98 | a new partition has fresh empty containers and only the blank relation |
| Pynock.Partition.LookupNode | pynock/pynock.py:101-113 | Some exactly for a registered name, then the node stored under its id, which carries that name and id |
| Pynock.Partition.CreateNodeName | pynock/pynock.py:116-136 | updates the fields exactly as `PynockIngest.CreateNodeName` |
| Pynock.Partition.GetEdgeRel | pynock/pynock.py:241-257 | updates the fields exactly as `PynockIngest.GetEdgeRel`, the index found by a scan |
| Pynock.Partition.AddNode | pynock/pynock.py:177-186 | updates the fields exactly as `PynockIngest.AddNode` |
| Pynock.Partition.AddEdge | pynock/pynock.py:72-84 | the node under `src` becomes `AddEdge` of it, and nothing else changes |
| Pynock.Partition.PopulateNode | pynock/pynock.py:210-238 | updates the fields exactly as `PynockIngest.PopulateNode` |
| Pynock.Partition.PopulateEdge | pynock/pynock.py:260-294 | updates the fields exactly as `PynockIngest.PopulateEdge` |
| Pynock.Partition.ParseRow | pynock/pynock.py:488-516 | one loop pass, exactly as `PynockIngest.IngestRow` |
| Pynock.Partition.ParseRows | pynock/pynock.py:479-516 | the loop over all rows ends exactly as `PynockIngest.Ingest` from no active node |
| Pynock.Partition.IterGenRows | pynock/pynock.py:519-581 | the rows built by the nested loops are `PynockEmit.Emit` of the partition |
| Pynock.Partition.SaveFileRdf | pynock/pynock.py:659-678 | the walk over the generated rows gives exactly the edge triples of the RDF nodes |
| Pynock.BlocksRows | pynock/pynock.py:537-581 | the outer loop yields the blocks of the write order |
| Pynock.BlockRows | pynock/pynock.py:538-581 | one node's rows are its block |
| Pynock.NodeEdgeRows | pynock/pynock.py:554-581 | the loop over relation groups, with its running edge id, yields the node's edge rows |
| Pynock.GroupRows | pynock/pynock.py:567-581 | the loop over one list yields its edge rows numbered from the running edge id |
| Pynock.WalkRdf | pynock/pynock.py:667-678 | the loop collecting triples gives exactly `PynockRdf.RdfTriples` of the rows |
| NockIngest.FreshNockValid | nock/nock.py:63-67 | an empty partition, with only the blank relation, is valid |
| NockIngest.NockValidGrow | nock/nock.py:70-88 | growing only the registry and the relation table keeps the partition valid |
| NockIngest.CreateNode | nock/nock.py:70-88 | a known name returns its id and changes nothing; any other name, `""` included, gets the old `next_node`, which grows by one; ids stay dense |
| NockIngest.GetEdgeRel | nock/nock.py:134-147 | an unseen label is appended whatever `create` says; never NOT_FOUND; `edge_rels[result] == label`; the table stays duplicate-free with `""` at 0 |
| NockIngest.PopulateNode | nock/nock.py:109-131 | last wins: a fresh edgeless node from the row replaces whatever was stored under the name's id; a failing row changes nothing |
| NockIngest.StoreNockValid | nock/nock.py:128-129 | storing a fresh edgeless node under its registered id keeps the partition valid |
| NockIngest.EdgeEnds | nock/nock.py:160-163 | the relation is interned, then the destination name is registered; no node is stored |
| NockIngest.PopulateEdge | nock/nock.py:150-173 | fails exactly on a missing relation or destination or malformed properties; on success the edge is appended to the source's list and no node is added |
| NockIngest.AppendEdge | nock/nock.py:168-171 | the edge goes to the end of the source node's list for its relation (a new list when the relation is new), the registries are unchanged and the partition stays valid |
| NockIngest.AttachNockValid | nock/nock.py:166-171 | appending a sound edge to a stored node keeps the partition valid |
| NockIngest.LoadRow | nock/nock.py:218-232 | one loop pass: a node row makes its node current; an edge row with no current node, or naming another node, fails and changes nothing |
| NockIngest.Load | nock/nock.py:218-232 | the loop only grows the partition, keeps it valid, and leaves a stored current node |
| NockIngest.LoadAppend | nock/nock.py:218 | loading two batches of rows is loading them at once |
| NockIngest.AssertionStops | nock/nock.py:229 | an edge row naming a node other than the current one stops the load there, whatever follows |
| NockIngest.DestinationUnstored | nock/nock.py:163 | an unseen destination is registered under the old `next_node` and has no stored node |
| NockIngest.LoadGroups | nock/nock.py:206-232 | loading row group after row group keeps the partition valid |
| NockIngest.LoadGroupsFlat | nock/nock.py:215-218 | row groups are invisible: loading them one by one is loading all their rows as one stream, the current node carrying over |
| Nock.Partition.constructor | nock/nock.py:63-67 | a new partition has fresh empty containers and only the blank relation |
| Nock.Partition.CreateNode | nock/nock.py:70-88 | updates the fields exactly as `NockIngest.CreateNode` |
| Nock.Partition.GetEdgeRel | nock/nock.py:134-147 | updates the fields exactly as `NockIngest.GetEdgeRel`, the index found by a scan |
| Nock.Partition.PopulateNode | nock/nock.py:109-131 | updates the fields exactly as `NockIngest.PopulateNode` |
| Nock.Partition.PopulateEdge | nock/nock.py:150-173 | updates the fields exactly as `NockIngest.PopulateEdge`, appending in place |
| Nock.Partition.AppendEdge | nock/nock.py:168-171 | updates the fields exactly as `NockIngest.AppendEdge`, in place on the stored node |
| Nock.Partition.LoadRow | nock/nock.py:218-232 | one loop pass, exactly as `NockIngest.LoadRow` |
| Nock.Partition.LoadRowGroup | nock/nock.py:218-232 | the inner loop over one row group ends exactly as `NockIngest.Load` |
| Nock.Partition.LoadRows | nock/nock.py:206-232 | the nested loops end exactly as `NockIngest.LoadGroups` from no current node |
| Policies.EmptyNamePolicies | pynock/pynock.py:127-128 | pynock refuses `""` and changes nothing; nock registers it under `next_node` |
| Policies.CreateFlagPolicies | pynock/pynock.py:251-255 | for an unseen label with `create` false, pynock gives NOT_FOUND and changes nothing, while nock appends it |
| Policies.RedefinitionPolicies | pynock/pynock.py:219-238 | a second node row for a stored name: pynock keeps the stored node and its edges; nock stores a fresh edgeless node from the row under the same id |
| Policies.DestinationPolicies | pynock/pynock.py:274-282 | an unseen destination: pynock stores a placeholder node; nock stores none |
| Strs.LessTotal | pynock/pynock.py:533 | Python's string order is total: two strings are equal or one is below the other |
| Strs.KeyLessIsStrictWeakOrder | pynock/pynock.py:563 | ordering by a string key is a strict weak order, as `sorted(key=...)` needs |
| Strs.SortBySorted | pynock/pynock.py:533 | the sort's output is ordered |
| Strs.SortByStable | pynock/pynock.py:563 | elements with equal keys keep their input order |
| Strs.SortBy | pynock/pynock.py:533 | the sort's output is a permutation of its input |
| Strs.Find | pynock/pynock.py:257 | the scan returns the first index of the element, or -1 exactly when it is absent |
| Strs.IndexOf | pynock/pynock.py:257 | `list.index`: the first position holding the element |
| Strs.Split | pynock/pynock.py:232 | `split(",")` gives at least one piece and no piece holds a comma |
| Strs.JoinSplit | pynock/pynock.py:548 | joining the pieces of a split gives back the string |
| Strs.SplitJoin | pynock/pynock.py:548 | splitting the join of one or more comma-free pieces gives back the pieces |
| Strs.Dedup | pynock/pynock.py:232 | `set(...)` keeps exactly the input's elements, each once |
| Strs.Replace | pynock/pynock.py:171-172 | `str.replace` keeps a non-empty string non-empty when the replacement is non-empty, and keeps a first character that cannot start the pattern |

## Left out

- File and format I/O is not modelled; rows and triples are sequences handed in. This covers the Parquet, CSV and RDF loaders and savers, `to_df`, nock's `iter_rows`, and rdflib's parse and serialise.
- `json.loads` and `json.dumps` are foreign calls, so they are the `JsonCodec` parameter. A `loads` that raises is `None` and becomes the `MalformedProps` error.
- pydantic validation is not modelled. `truth` is an unchecked `real`, and its [0, 1] range is only the predicate `TruthInRange`. `ValidationError`, its printing and `sys.exit` are not modelled.
- `debug` printing, `ic`, `dump_data`/`dump_node` and `rich.progress.track` are left out. They do not change the partition.
- `part_id` is not modelled. It is never read by the core.
- The iteration order of a Python `set` is not modelled. A label set is kept as a duplicate-free sequence in first-occurrence order. Only the label set's elements, not its written order, follow from the source.
- Some `None` inputs become schema errors. In Python, a `None` `rel_name` would be interned as the relation `None`. A `None` `dst_name` in nock would be registered as a name. The model gives `MissingRelation` and `MissingDestination` instead. A `None` `labels` field, which raises in Python, is `MissingLabels`. `src_name` and `props` are plain strings in `Graph.Row`, so rows with `None` there are not modelled. In Python, a `None` `src_name` raises in `create_node_name` on a node row and fails the sequencing check on an edge row, and a `None` `props` makes `json.loads` raise.
- Nodes are values in the `nodes` map, so object aliasing is not captured. The parse loops carry the id of the active node, and `add_edge` updates the stored entry. This matches the source because the carried object is always the one stored under its id.
- Python's `UnboundLocalError` is not modelled as such. An edge row before any node row is the `NoActiveNode` error.
- Error messages and row-number formatting are not modelled. `OutOfSequence` carries the row number and the name.
- PynockEmit.Emit: states the row count only. The contents of the rows are stated by `BlockShape`, `BlockEdgeRows` and `EmitNodeNames`, and their order by `SortedNames`, `SortedGroupOrder` and `SortedEdgeOrder`.
- The sorted round trip does not hold, and the model follows the code here. The codec's design aims at byte-identical rows from ingesting, writing sorted, re-ingesting and writing sorted again. In the code, sorting can put an edge row to a node before that node's own row. `populate_edge` then stores the node as a placeholder, and `populate_node` keeps the placeholder, dropping the labels, properties, truth and shadow of the node's own row. `SortedRoundTrip.SortedRoundTripBreaks` gives three rows on which this happens. The unsorted round trip fails as well. Take a node A with edges r1 to C, r2 to B with truth 0.5, and r1 to B with truth 0.7. B's placeholder takes truth 0.5 from the first edge row that names it. Written unsorted, the r1 group comes first, so on reading back B's placeholder takes truth 0.7, and B's row is then written with 0.7. A placeholder also takes `is_rdf` from the edge row, while written edge rows carry the source node's `is_rdf`. This second failure is stated here, not proved. The model proves the pieces a round trip rests on: row shape, names, order and sequencing.
- Graph.LabelsRoundTrip: exact text comes back only in the model's first-occurrence order. Python writes the label set in hash order, which varies between processes, so `"b,a"` may be written back as `"a,b"`. `Graph.LabelsWrittenInAnyOrder` states what holds in every order: the same labels, and the same text for a single label.
- Graph.PropsRoundTrip: holds only under `CompactKeepsMeaning`. `_save_props` applies its two replacements to the whole JSON text, so a key or a value holding `": ` or `, "` is altered too. `Graph.SavePropsCollides` gives two maps that are saved as the same text. Modelling `json.dumps` itself would be needed to state for which maps the condition holds.
- The RDF graph is a sequence of triples in which no triple is repeated (`PynockRdf.IterLoadRdf` requires `Distinct`), standing for rdflib's set of triples. rdflib does not promise an order for `subjects(unique=True)` or `triples((subj, None, None))`; the model takes both orders from the sequence. Two subjects with the same string form are not distinguished.
