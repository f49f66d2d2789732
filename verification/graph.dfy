/**
 * The data model shared by both codecs (pynock/pynock.py and nock/nock.py):
 * the wire constants, the nine-field row, nodes with their per-relation edge
 * lists, the partition state, the property-string sentinels and the
 * comma-joined label encoding.
 */
module Graph {
  import opened Strs

  // Wire constants.
  const EMPTY_STRING: string := ""
  const NOT_FOUND: int := -1
  const BLANK_RELATION: nat := 0
  const BASED_LOCAL: int := -1
  /** The second property sentinel `_load_props` accepts. */
  const NULL_PROPS: string := "null"

  datatype Option<T> = None | Some(value: T)

  /** The failures the codecs raise; ingestion stops at the first one. */
  datatype Error =
    | EmptyName                               // create_node_name: name is None or ""
    | MissingLabels                           // node row whose labels field is None
    | MalformedProps                          // props is not the JSON text of an object
    | MissingRelation                         // edge row whose rel_name is None
    | MissingDestination                      // nock edge row whose dst_name is None
    | NoActiveNode                            // edge row before any node row
    | OutOfSequence(row_num: nat, name: string) // pynock: edge row of another node
    | AssertionFailed                         // nock: the same check, as an assert
    | MissingSubject                          // RDF export: edge row before any subject
    | MissingTerm                             // RDF export: rel_name or dst_name is None

  datatype Result<T> = Ok(value: T) | Err(error: Error)

  /** Confidence values; the [0, 1] range is only stated, never enforced here. */
  type Truth = real

  predicate TruthInRange(t: Truth)
  {
    0.0 <= t <= 1.0
  }

  // ------------------------------------------------------------------
  // Properties

  /** A decoded property map: keys to the JSON text of scalar values. */
  type PropMap = map<string, string>

  /** The JSON library the codec calls: `json.loads` (None when it raises) and `json.dumps`. */
  datatype JsonCodec = JsonCodec(loads: string -> Option<PropMap>, dumps: PropMap -> string)

  /** `_load_props` / `load_props`: both sentinels give the empty map, anything else goes to JSON. */
  function LoadProps(json: JsonCodec, props: string): Option<PropMap>
  {
    if props == EMPTY_STRING || props == NULL_PROPS then Some(map[]) else json.loads(props)
  }

  /** Both sentinels decode to the empty map without consulting JSON; every other string is JSON's to judge. */
  lemma LoadPropsSentinels(json: JsonCodec, props: string)
    ensures LoadProps(json, EMPTY_STRING) == Some(map[]) && LoadProps(json, NULL_PROPS) == Some(map[])
    ensures props != EMPTY_STRING && props != NULL_PROPS ==> LoadProps(json, props) == json.loads(props)
  {
  }

  /** The two whitespace removals `_save_props` applies to `json.dumps` output. */
  function Compact(text: string): (r: string)
    ensures |text| > 0 && text[0] == '{' ==> |r| > 0 && r[0] == '{'
  {
    Replace(Replace(text, "\": ", "\":"), ", \"", ",\"")
  }

  /** `_save_props`: the empty map becomes the empty sentinel, never `{}`. */
  function SaveProps(json: JsonCodec, m: PropMap): (r: string)
    ensures r == EMPTY_STRING <==> (|m| == 0 || Compact(json.dumps(m)) == EMPTY_STRING)
  {
    if |m| > 0 then Compact(json.dumps(m)) else EMPTY_STRING
  }

  /**
   * The condition under which the two replacements are harmless: JSON reads
   * the compacted text as it reads the text `json.dumps` wrote. It fails when
   * a key or a value itself contains one of the two separator patterns.
   */
  ghost predicate CompactKeepsMeaning(json: JsonCodec, m: PropMap)
  {
    json.loads(Compact(json.dumps(m))) == json.loads(json.dumps(m))
  }

  /**
   * The sentinels never get in the way of JSON: the empty map survives the
   * round trip, and a non-empty map does whenever the JSON library reads back
   * its own object text and the compaction keeps that text's meaning.
   */
  lemma PropsRoundTrip(json: JsonCodec, m: PropMap)
    requires |m| > 0 ==> |json.dumps(m)| > 0 && json.dumps(m)[0] == '{'
    requires |m| > 0 ==> json.loads(json.dumps(m)) == Some(m)
    requires |m| > 0 ==> CompactKeepsMeaning(json, m)
    ensures LoadProps(json, SaveProps(json, m)) == Some(m)
    ensures SaveProps(json, m) == EMPTY_STRING <==> |m| == 0
  {
    if |m| > 0 {
      var t := Compact(json.dumps(m));
      assert t[0] == '{';
      assert t != NULL_PROPS by { assert NULL_PROPS[0] == 'n'; }
    }
  }

  /** A one-entry map from `key` to the JSON string holding `value`. */
  function SingleEntry(key: string, value: string): PropMap
  {
    map[key := "\"" + value + "\""]
  }

  /** `json.dumps` of that map with its default separators: `{"key": "value"}`. */
  function OneEntryText(key: string, value: string): string
  {
    "{\"" + (key + ("\": " + ValueText(value)))
  }

  /** The end of a one-entry object text: the quoted value and the closing brace. */
  function ValueText(value: string): string
  {
    "\"" + (value + "\"}")
  }

  /** Text the two replacements cannot touch: no quote, no comma, no colon. */
  predicate PlainText(k: string)
  {
    '"' !in k && ',' !in k && ':' !in k
  }

  /**
   * The replacements also reach inside keys: a key ending in `, ` and the
   * same key ending in `,` are saved as the same text, so at least one of
   * the two maps does not come back, whatever `json.loads` does.
   */
  lemma SavePropsCollides(json: JsonCodec, k: string, value: string)
    requires PlainText(k) && PlainText(value)
    requires json.dumps(SingleEntry(k + ", ", value)) == OneEntryText(k + ", ", value)
    requires json.dumps(SingleEntry(k + ",", value)) == OneEntryText(k + ",", value)
    ensures SingleEntry(k + ", ", value) != SingleEntry(k + ",", value)
    ensures SaveProps(json, SingleEntry(k + ", ", value)) == SaveProps(json, SingleEntry(k + ",", value))
    ensures LoadProps(json, SaveProps(json, SingleEntry(k + ", ", value))) != Some(SingleEntry(k + ", ", value))
         || LoadProps(json, SaveProps(json, SingleEntry(k + ",", value))) != Some(SingleEntry(k + ",", value))
  {
    assert (k + ", ")[|k| + 1] == ' ';
    assert k + ", " !in SingleEntry(k + ",", value);
    assert |SingleEntry(k + ", ", value)| == 1 && |SingleEntry(k + ",", value)| == 1;
    CompactWide(k, value);
    CompactNarrow(k, value);
  }

  /** `{"k, ": "v"}` compacts to `{"k,":"v"}`: both patterns match, the second across the key's end. */
  lemma CompactWide(k: string, value: string)
    requires PlainText(k) && PlainText(value)
    ensures Compact(OneEntryText(k + ", ", value)) == ("{\"" + k) + (",\"" + (":" + ValueText(value)))
  {
    ColonPass(k, ", ", value);
    WideCommaPass(k, value);
  }

  /** `{"k,": "v"}` compacts to `{"k,":"v"}` too. */
  lemma CompactNarrow(k: string, value: string)
    requires PlainText(k) && PlainText(value)
    ensures Compact(OneEntryText(k + ",", value)) == ("{\"" + k) + (",\"" + (":" + ValueText(value)))
  {
    ColonPass(k, ",", value);
    NarrowCommaPass(k, value);
  }

  /** The first replacement on `{"k" + tail + "": "v"}` only tightens the separator after the key. */
  lemma ColonPass(k: string, tail: string, value: string)
    requires PlainText(k) && PlainText(value) && |tail| > 0 && tail[0] == ',' && '"' !in tail
    ensures Replace(OneEntryText(k + tail, value), "\": ", "\":") == ("{\"" + k) + (tail + ("\":" + ValueText(value)))
  {
    var v := ValueText(value);
    assert (k + tail)[0] != ':' && '"' !in k + tail;
    KeyPass(k + tail, value);
    assert "{\"" + ((k + tail) + ("\":" + v)) == ("{\"" + k) + (tail + ("\":" + v));
  }

  /** The second replacement on `{"k, ":"v"}` matches across the key's end. */
  lemma WideCommaPass(k: string, value: string)
    requires PlainText(k) && PlainText(value)
    ensures Replace(("{\"" + k) + (", " + ("\":" + ValueText(value))), ", \"", ",\"") == ("{\"" + k) + (",\"" + (":" + ValueText(value)))
  {
    var v, comma, tight := ValueText(value), ", \"", ",\"";
    ReplaceSkip("{\"" + k, ", " + ("\":" + v), comma, tight);
    WideTail(value);
  }

  /** In `, ":"v"}` the comma, space and quote are the one match. */
  lemma WideTail(value: string)
    requires PlainText(value)
    ensures Replace(", " + ("\":" + ValueText(value)), ", \"", ",\"") == ",\"" + (":" + ValueText(value))
  {
    var v, comma, tight := ValueText(value), ", \"", ",\"";
    assert ", " + ("\":" + v) == comma + (":" + v);
    ReplaceMatch(":" + v, comma, tight);
    ReplaceFree(":" + v, comma, tight);
  }

  /** The second replacement finds nothing in `{"k,":"v"}`. */
  lemma NarrowCommaPass(k: string, value: string)
    requires PlainText(k) && PlainText(value)
    ensures Replace(("{\"" + k) + ("," + ("\":" + ValueText(value))), ", \"", ",\"") == ("{\"" + k) + (",\"" + (":" + ValueText(value)))
  {
    var v := ValueText(value);
    assert "," + ("\":" + v) == ",\"" + (":" + v);
    ReplaceSkip("{\"" + k, ",\"" + (":" + v), ", \"", ",\"");
    CommaTail(value);
  }

  /** `,":"v"}` holds no `, "`: the comma is followed by a quote, not a space. */
  lemma CommaTail(value: string)
    requires PlainText(value)
    ensures Replace(",\"" + (":" + ValueText(value)), ", \"", ",\"") == ",\"" + (":" + ValueText(value))
  {
    var t, comma, tight := ",\"" + (":" + ValueText(value)), ", \"", ",\"";
    assert t[..3] != comma by { assert t[1] != comma[1]; }
    ReplaceKeep(t, comma, tight);
    assert t[1..] == "\"" + (":" + ValueText(value));
    ReplaceFree(t[1..], comma, tight);
  }

  /**
   * The first replacement on a one-entry object `{"key": "value"}` whose key
   * and value hold no quote and do not start with a colon: only the separator
   * after the key matches.
   */
  lemma KeyPass(key: string, value: string)
    requires |key| > 0 && key[0] != ':' && '"' !in key && PlainText(value)
    ensures Replace(OneEntryText(key, value), "\": ", "\":") == "{\"" + (key + ("\":" + ValueText(value)))
  {
    var sep, tight, v := "\": ", "\":", ValueText(value);
    var s := "\"" + (key + (sep + v));
    assert s[1] == key[0] && s[1..] == key + (sep + v);
    ReplaceKeep(s, sep, tight);
    ReplaceSkip(key, sep + v, sep, tight);
    ReplaceMatch(v, sep, tight);
    ValueTail(value, sep, tight);
    ReplaceSkip("{", s, sep, tight);
    assert "{" + s == OneEntryText(key, value);
    assert "{" + ([s[0]] + (key + (tight + v))) == "{\"" + (key + (tight + v));
  }

  /** The quoted value holds no `": `. */
  lemma ValueTail(value: string, sep: string, tight: string)
    requires PlainText(value) && sep == "\": "
    ensures Replace(ValueText(value), sep, tight) == ValueText(value)
  {
    var s := ValueText(value);
    assert s[..3] != sep by { assert s[1] != sep[1]; }
    ReplaceKeep(s, sep, tight);
    assert s[1..] == value + "\"}";
    ReplaceSkip(value, "\"}", sep, tight);
    assert Replace("\"}", sep, tight) == "\"}";
  }

  // ------------------------------------------------------------------
  // Labels

  /** `set(labels.split(","))`, kept as a duplicate-free sequence in first-occurrence order. */
  function DecodeLabels(labels: string): (r: seq<string>)
    ensures |r| > 0 && Distinct(r)
    ensures forall x :: x in r <==> x in Split(labels)
  {
    Dedup(Split(labels))
  }

  /** `",".join(label_set)`. */
  function EncodeLabels(label_set: seq<string>): string
  {
    Join(label_set)
  }

  /** A label field without repeated labels is emitted exactly as it was read. */
  lemma LabelsRoundTrip(labels: string)
    requires Distinct(Split(labels))
    ensures EncodeLabels(DecodeLabels(labels)) == labels
  {
    DedupOfDistinct(Split(labels));
    JoinSplit(labels);
  }

  /**
   * Python writes a label set in hash order, which need not be the order the
   * labels were read in. Whatever that order is, the written field reads back
   * with the same labels as the field it came from; a single label comes back
   * as the same text.
   */
  lemma LabelsWrittenInAnyOrder(labels: string, written: seq<string>)
    requires Distinct(written)
    requires forall x :: x in written <==> x in DecodeLabels(labels)
    ensures forall x :: x in Split(EncodeLabels(written)) <==> x in Split(labels)
    ensures |Split(labels)| == 1 ==> EncodeLabels(written) == labels
  {
    var first := DecodeLabels(labels)[0];
    assert first in written;
    forall k | 0 <= k < |written|
      ensures ',' !in written[k]
    {
      assert written[k] in Split(labels);
    }
    SplitJoin(written);
    if |Split(labels)| == 1 {
      var only := Split(labels)[0];
      assert forall k :: 0 <= k < |written| ==> written[k] == only by {
        forall k | 0 <= k < |written| ensures written[k] == only {
          assert written[k] in Split(labels);
        }
      }
      assert |written| == 1;
      assert written == Split(labels);
      JoinSplit(labels);
    }
  }

  /** A non-empty set of comma-free labels is read back exactly as it was emitted. */
  lemma LabelSetRoundTrip(label_set: seq<string>)
    requires |label_set| > 0 && Distinct(label_set)
    requires forall k :: 0 <= k < |label_set| ==> ',' !in label_set[k]
    ensures DecodeLabels(EncodeLabels(label_set)) == label_set
  {
    SplitJoin(label_set);
    DedupOfDistinct(label_set);
  }

  /**
   * An empty label set is emitted as "", which is read back as the set
   * holding the empty label; that set is emitted as "" again.
   */
  lemma EmptyLabels()
    ensures EncodeLabels([]) == EMPTY_STRING
    ensures DecodeLabels(EMPTY_STRING) == [EMPTY_STRING]
    ensures EncodeLabels(DecodeLabels(EMPTY_STRING)) == EMPTY_STRING
  {
  }

  // ------------------------------------------------------------------
  // Edges and nodes

  datatype Edge = Edge(rel: nat, node_id: nat, truth: Truth, prop_map: PropMap)

  /**
   * `edge_map`: a dict from relation id to the list of edges with that
   * relation. `rels` holds its keys in insertion order, as Python's dict does.
   */
  datatype EdgeMap = EdgeMap(rels: seq<nat>, lists: map<nat, seq<Edge>>)
  {
    ghost predicate Valid()
    {
      Distinct(rels) && forall r :: r in lists <==> r in rels
    }

    /** The list kept for relation `r`, empty when there is none yet. */
    function ListFor(r: nat): seq<Edge>
    {
      if r in lists then lists[r] else []
    }

    /** The number of edges over all relations. */
    function Count(): nat
    {
      Sum(rels, ListLengths(this))
    }
  }

  /** The length of each relation's list, as a function for `Sum`. */
  function ListLengths(m: EdgeMap): nat -> nat
  {
    (r: nat) => |m.ListFor(r)|
  }

  const NoEdges: EdgeMap := EdgeMap([], map[])

  datatype Node = Node(
    node_id: nat,
    name: string,
    shadow: int,
    is_rdf: bool,
    label_set: seq<string>,
    truth: Truth,
    prop_map: PropMap,
    edge_map: EdgeMap)
  {
    /**
     * `Node.add_edge`: the edge goes to the end of its relation's list, a
     * relation seen for the first time gets a new list after the others, and
     * every other list is left alone.
     */
    function AddEdge(e: Edge): (n: Node)
      requires edge_map.Valid()
      ensures n.edge_map.Valid()
      ensures n == this.(edge_map := n.edge_map)
      ensures e.rel in n.edge_map.lists && n.edge_map.lists[e.rel] == edge_map.ListFor(e.rel) + [e]
      ensures forall r :: r != e.rel ==> n.edge_map.ListFor(r) == edge_map.ListFor(r)
      ensures forall r :: r != e.rel ==> (r in n.edge_map.lists <==> r in edge_map.lists)
      ensures n.edge_map.rels == if e.rel in edge_map.lists then edge_map.rels else edge_map.rels + [e.rel]
      ensures n.edge_map.Count() == edge_map.Count() + 1
    {
      AppendCount(edge_map, e);
      this.(edge_map := Appended(edge_map, e))
    }
  }

  /** The edge map `add_edge` leaves behind. */
  function Appended(m: EdgeMap, e: Edge): EdgeMap
  {
    EdgeMap(if e.rel in m.lists then m.rels else m.rels + [e.rel], m.lists[e.rel := m.ListFor(e.rel) + [e]])
  }

  lemma AppendCount(m: EdgeMap, e: Edge)
    requires m.Valid()
    ensures Appended(m, e).Valid()
    ensures Appended(m, e).Count() == m.Count() + 1
  {
    if e.rel in m.lists {
      AppendToKnown(m, e);
    } else {
      AppendToNew(m, e);
    }
  }

  /** Appending under a relation already present lengthens that one list. */
  lemma AppendToKnown(m: EdgeMap, e: Edge)
    requires m.Valid() && e.rel in m.lists
    ensures Appended(m, e).Valid()
    ensures Appended(m, e).Count() == m.Count() + 1
  {
    var m' := Appended(m, e);
    assert m'.rels == m.rels;
    SumBump(m.rels, e.rel, ListLengths(m), ListLengths(m'));
  }

  /** Appending under a new relation adds a one-edge list after the others. */
  lemma AppendToNew(m: EdgeMap, e: Edge)
    requires m.Valid() && e.rel !in m.lists
    ensures Appended(m, e).Valid()
    ensures Appended(m, e).Count() == m.Count() + 1
  {
    AppendedNewValid(m, e);
    AppendedNewCount(m, e);
  }

  /** The one-edge list is counted once; every other list keeps its length. */
  lemma AppendedNewCount(m: EdgeMap, e: Edge)
    requires e.rel !in m.rels && e.rel !in m.lists
    ensures Sum(Appended(m, e).rels, ListLengths(Appended(m, e))) == Sum(m.rels, ListLengths(m)) + 1
  {
    var m' := Appended(m, e);
    var f, g := ListLengths(m), ListLengths(m');
    assert m'.rels == m.rels + [e.rel];
    forall k | 0 <= k < |m.rels|
      ensures f(m.rels[k]) == g(m.rels[k])
    {
      assert m.rels[k] != e.rel;
    }
    SumCongruent(m.rels, f, g);
    SumAppend(m.rels, [e.rel], g);
    assert g(e.rel) == 1;
  }

  /** The new relation is not yet listed, so the relations stay distinct. */
  lemma AppendedNewValid(m: EdgeMap, e: Edge)
    requires m.Valid() && e.rel !in m.lists
    ensures Appended(m, e).Valid()
  {
    var rels := m.rels + [e.rel];
    assert e.rel !in m.rels;
    forall i, j | 0 <= i < j < |rels|
      ensures rels[i] != rels[j]
    {
      if j < |m.rels| {
        assert rels[i] == m.rels[i] && rels[j] == m.rels[j];
      } else {
        assert rels[i] in m.rels;
      }
    }
  }

  /** The placeholder `populate_edge` creates for an unseen destination. */
  function Placeholder(node_id: nat, name: string, truth: Truth, is_rdf: bool): Node
  {
    Node(node_id, name, BASED_LOCAL, is_rdf, [], truth, map[], NoEdges)
  }

  // ------------------------------------------------------------------
  // Rows

  /**
   * One row of the flat stream. `rel_name`, `dst_name` and `labels` are None
   * where the emitter writes Python's None.
   */
  datatype Row = Row(
    src_name: string,
    edge_id: int,
    rel_name: Option<string>,
    dst_name: Option<string>,
    truth: Truth,
    shadow: int,
    is_rdf: bool,
    labels: Option<string>,
    props: string)

  /** Rows numbered from 0, the shape every loader hands to ingestion. */
  function Enumerate(rows: seq<Row>): (r: seq<(nat, Row)>)
    ensures |r| == |rows|
    ensures forall k :: 0 <= k < |r| ==> r[k] == (k, rows[k])
  {
    seq(|rows|, k requires 0 <= k < |rows| => (k, rows[k]))
  }

  // ------------------------------------------------------------------
  // Partitions

  /** The fields of a `Partition`. */
  datatype State = State(
    next_node: nat,
    nodes: map<nat, Node>,
    node_names: map<string, nat>,
    edge_rels: seq<string>)

  /** A freshly constructed partition: no names, and the blank relation at index 0. */
  const Fresh: State := State(0, map[], map[], [EMPTY_STRING])

  /** The partition after an operation that may fail, and its result. */
  datatype Outcome<T> = Outcome(state: State, result: Result<T>)

  /** The partition after an operation that cannot fail, and its value. */
  datatype Step<T> = Step(state: State, value: T)

  ghost predicate HasName(s: State, id: nat)
  {
    exists name :: name in s.node_names && s.node_names[name] == id
  }

  /** `node_names` is a bijection from the registered names onto 0 .. next_node - 1. */
  ghost predicate NamesDense(s: State)
  {
    && (forall name :: name in s.node_names ==> s.node_names[name] < s.next_node)
    && (forall a, b :: a in s.node_names && b in s.node_names && a != b ==> s.node_names[a] != s.node_names[b])
    && (forall id: nat :: id < s.next_node ==> HasName(s, id))
  }

  /** The relation table: the blank relation at index 0 and no label twice. */
  ghost predicate RelsOk(rels: seq<string>)
  {
    |rels| > 0 && rels[0] == EMPTY_STRING && Distinct(rels)
  }

  /**
   * `t` grew from `s`: the counter never goes back, every name keeps its id,
   * and the relation table only gains entries at its end.
   */
  ghost predicate Extends(s: State, t: State)
  {
    && s.next_node <= t.next_node
    && (forall name :: name in s.node_names ==> name in t.node_names && t.node_names[name] == s.node_names[name])
    && |s.edge_rels| <= |t.edge_rels| && t.edge_rels[..|s.edge_rels|] == s.edge_rels
  }

  lemma ExtendsTransitive(s: State, t: State, u: State)
    requires Extends(s, t) && Extends(t, u)
    ensures Extends(s, u)
  {
    assert u.edge_rels[..|s.edge_rels|] == u.edge_rels[..|t.edge_rels|][..|s.edge_rels|];
  }

  /** Replacing only the stored nodes leaves the registries as they were. */
  lemma SameRegistry(s: State, nodes: map<nat, Node>)
    ensures Extends(s, s.(nodes := nodes))
  {
    assert s.edge_rels[..|s.edge_rels|] == s.edge_rels;
  }

  /** Registering a name the partition has not seen keeps the bijection. */
  lemma AddNameKeepsDense(s: State, name: string)
    requires name !in s.node_names
    ensures NamesDense(s) ==> NamesDense(s.(node_names := s.node_names[name := s.next_node], next_node := s.next_node + 1))
  {
    var t := s.(node_names := s.node_names[name := s.next_node], next_node := s.next_node + 1);
    if NamesDense(s) {
      forall id: nat | id < t.next_node ensures HasName(t, id) {
        if id < s.next_node {
          assert HasName(s, id);
          var n :| n in s.node_names && s.node_names[n] == id;
          assert t.node_names[n] == id;
        } else {
          assert t.node_names[name] == id;
        }
      }
    }
  }

  /** The bijection depends on the registry and the counter alone. */
  lemma NamesDenseFrame(s: State, t: State)
    requires NamesDense(s)
    requires t.node_names == s.node_names && t.next_node == s.next_node
    ensures NamesDense(t)
  {
    forall id: nat | id < t.next_node ensures HasName(t, id) {
      assert HasName(s, id);
      var n :| n in s.node_names && s.node_names[n] == id;
      assert t.node_names[n] == id;
    }
  }

  /** An edge refers to an interned relation and a registered node. */
  ghost predicate EdgeFits(s: State, e: Edge)
  {
    e.rel < |s.edge_rels| && e.node_id < s.next_node
  }

  /** Every edge sits in the list of its own relation and fits the partition. */
  ghost predicate ListsFit(s: State, m: EdgeMap)
  {
    forall r, k :: r in m.lists && 0 <= k < |m.lists[r]| ==> m.lists[r][k].rel == r && EdgeFits(s, m.lists[r][k])
  }

  /** The node stored under `id` carries that id, is registered under its name and has sound edges. */
  ghost predicate NodeFits(s: State, id: nat, n: Node)
  {
    && n.node_id == id
    && n.name in s.node_names && s.node_names[n.name] == id
    && n.edge_map.Valid()
    && ListsFit(s, n.edge_map)
  }

  /** Fitting a partition survives the partition growing. */
  lemma NodeFitsGrow(s: State, t: State, id: nat, n: Node)
    requires NodeFits(s, id, n) && Extends(s, t)
    ensures NodeFits(t, id, n)
  {
  }

  /** Appending an edge that fits keeps the node fitting. */
  lemma AddEdgeFits(s: State, id: nat, n: Node, e: Edge)
    requires NodeFits(s, id, n) && EdgeFits(s, e)
    ensures NodeFits(s, id, n.AddEdge(e))
  {
    var m := n.AddEdge(e).edge_map;
    forall r, k | r in m.lists && 0 <= k < |m.lists[r]|
      ensures m.lists[r][k].rel == r && EdgeFits(s, m.lists[r][k])
    {
      if r != e.rel {
        assert m.lists[r] == n.edge_map.ListFor(r) == n.edge_map.lists[r];
      } else if k < |n.edge_map.ListFor(r)| {
        assert m.lists[r][k] == n.edge_map.lists[r][k];
      }
    }
  }

  /** Fitting a partition does not depend on the nodes it stores. */
  lemma NodeFitsFrame(s: State, t: State, id: nat, n: Node)
    requires NodeFits(s, id, n)
    requires t.node_names == s.node_names && t.next_node == s.next_node && t.edge_rels == s.edge_rels
    ensures NodeFits(t, id, n)
  {
  }
}
