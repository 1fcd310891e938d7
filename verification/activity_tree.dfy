/**
 * `build_activity_tree` and `tree_to_dict`: the node dictionary, layer-1 activity nodes,
 * layer-2 concept nodes, the aggregation loop that adds one layer per pass, and the
 * `day_activity` root.
 */
module ActivityTree {
  import opened Wrappers
  import opened Strings
  import opened LlmUtils
  import opened Segmenter
  import opened ConceptOracle

  /** `ActivityNode`. */
  datatype Node = Node(id: string, name: string, layer: nat, content: string,
                       children: seq<string>, parent: Option<string>)

  /** A Python dict of nodes: the keys in insertion order and the mapping itself. */
  datatype NodeMap = NodeMap(order: seq<string>, nodes: map<string, Node>)

  const Empty: NodeMap := NodeMap([], map[])

  /** The id of the root node. */
  const RootId: string := "day_activity"

  /** The key order lists every key exactly once. */
  ghost predicate Valid(m: NodeMap) {
    && NoDup(m.order)
    && (forall k :: k in m.nodes <==> k in m.order)
  }

  /** Every child and the parent of `n` are keys of `nodes`. */
  predicate RefsIn(n: Node, nodes: map<string, Node>) {
    && (forall c :: c in n.children ==> c in nodes)
    && (n.parent.Some? ==> n.parent.value in nodes)
  }

  /** The shape the builder maintains: a valid dict, each node stored under its own id, no
      dangling child or parent reference, and no repeated child of a layer-2 node. */
  ghost predicate WellFormed(m: NodeMap) {
    && Valid(m)
    && (forall k {:trigger m.nodes[k]} :: k in m.nodes ==> m.nodes[k].id == k)
    && (forall k {:trigger m.nodes[k]} :: k in m.nodes ==> RefsIn(m.nodes[k], m.nodes))
    && (forall k {:trigger m.nodes[k]} :: k in m.nodes && m.nodes[k].layer == 2 ==> NoDup(m.nodes[k].children))
  }

  /** `nodes[k] = n`: a new key goes last, an existing key keeps its position. */
  function Put(m: NodeMap, k: string, n: Node): (r: NodeMap)
    requires Valid(m)
    ensures Valid(r)
    ensures r.nodes == m.nodes[k := n]
    ensures |m.order| <= |r.order| && forall i :: 0 <= i < |m.order| ==> r.order[i] == m.order[i]
    ensures k in m.nodes ==> r.order == m.order
    ensures k !in m.nodes ==> r.order == m.order + [k]
  {
    if k in m.nodes then NodeMap(m.order, m.nodes[k := n])
    else NodeMap(m.order + [k], m.nodes[k := n])
  }

  /** `nodes[k].parent = p`, skipped when `k` is not a key (the `if child_id in nodes` guard). */
  function SetParent(m: NodeMap, k: string, p: string): (r: NodeMap)
    ensures r.order == m.order && r.nodes.Keys == m.nodes.Keys
    ensures forall j :: j in m.nodes ==>
              r.nodes[j] == if j == k then m.nodes[j].(parent := Some(p)) else m.nodes[j]
  {
    if k in m.nodes then NodeMap(m.order, m.nodes[k := m.nodes[k].(parent := Some(p))]) else m
  }

  /** `nodes[k].children.append(c)` unless `c` is already a child. */
  function AppendChild(m: NodeMap, k: string, c: string): (r: NodeMap)
    requires k in m.nodes
    ensures r.order == m.order && r.nodes.Keys == m.nodes.Keys
    ensures c in r.nodes[k].children
    ensures r.nodes[k] == m.nodes[k].(children := if c in m.nodes[k].children then m.nodes[k].children
                                                  else m.nodes[k].children + [c])
    ensures forall j :: j in m.nodes && j != k ==> r.nodes[j] == m.nodes[j]
  {
    var n := m.nodes[k];
    if c in n.children then m else NodeMap(m.order, m.nodes[k := n.(children := n.children + [c])])
  }

  lemma PutWellFormed(m: NodeMap, k: string, n: Node)
    requires WellFormed(m) && n.id == k
    requires forall c :: c in n.children ==> c in m.nodes || c == k
    requires n.parent.Some? ==> n.parent.value in m.nodes || n.parent.value == k
    requires n.layer == 2 ==> NoDup(n.children)
    ensures WellFormed(Put(m, k, n))
  {
    var r := Put(m, k, n);
    forall j | j in r.nodes ensures RefsIn(r.nodes[j], r.nodes) {
      if j != k {
        assert RefsIn(m.nodes[j], m.nodes);
      }
    }
  }

  lemma SetParentWellFormed(m: NodeMap, k: string, p: string)
    requires WellFormed(m) && p in m.nodes
    ensures WellFormed(SetParent(m, k, p))
  {
    var r := SetParent(m, k, p);
    forall j | j in r.nodes ensures RefsIn(r.nodes[j], r.nodes) {
      assert RefsIn(m.nodes[j], m.nodes);
    }
  }

  lemma AppendChildWellFormed(m: NodeMap, k: string, c: string)
    requires WellFormed(m) && k in m.nodes && c in m.nodes
    ensures WellFormed(AppendChild(m, k, c))
  {
    var r := AppendChild(m, k, c);
    forall j | j in r.nodes ensures RefsIn(r.nodes[j], r.nodes) {
      assert RefsIn(m.nodes[j], m.nodes);
    }
    var ch := m.nodes[k].children;
    if c !in ch && m.nodes[k].layer == 2 {
      forall i, j | 0 <= i < j < |ch + [c]| ensures (ch + [c])[i] != (ch + [c])[j] {
        if j == |ch| {
          assert ch[i] in ch;
        }
      }
    }
  }

  // ---------------------------------------------------------------------------------
  // Node ids.

  /** `f"L{k}_{label.replace(' ', '_').replace('/', '_')}"`: not lower-cased, so labels that
      differ only in spaces, slashes and underscores share an id. */
  function NodeId(k: nat, name: string): (r: string)
    ensures |r| >= 3 && r[0] == 'L'
    ensures ' ' !in r && '/' !in r
    ensures r != RootId
  {
    var d := NatToString(k);
    var r := "L" + d + "_" + Replace(Replace(name, ' ', '_'), '/', '_');
    assert forall i :: 0 <= i < |d| ==> r[1 + i] == d[i];
    assert r[0] != RootId[0];
    r
  }

  /** Ids of different layers never coincide, whatever the labels. */
  lemma NodeIdLayers(k1: nat, a: string, k2: nat, b: string)
    requires NodeId(k1, a) == NodeId(k2, b)
    ensures k1 == k2
  {
    var s := NodeId(k1, a);
    var d1 := NatToString(k1);
    var d2 := NatToString(k2);
    assert s == "L" + d1 + "_" + Replace(Replace(a, ' ', '_'), '/', '_');
    assert s == "L" + d2 + "_" + Replace(Replace(b, ' ', '_'), '/', '_');
    UnderscoreAfterDigits(d1, Replace(Replace(a, ' ', '_'), '/', '_'));
    UnderscoreAfterDigits(d2, Replace(Replace(b, ' ', '_'), '/', '_'));
    assert d1 == s[1..1 + |d1|] == d2;
    NatToStringInjective(k1, k2);
  }

  /** In an id, the first `_` after the `L` ends the layer number. */
  lemma UnderscoreAfterDigits(d: string, x: string)
    requires forall i :: 0 <= i < |d| ==> '0' <= d[i] <= '9'
    ensures Find("L" + d + "_" + x, "_", 1) == 1 + |d|
  {
    var s := "L" + d + "_" + x;
    assert s[1 + |d|..2 + |d|] == "_";
    forall k: nat | 1 <= k < 1 + |d| ensures !OccursAt(s, "_", k) {
      assert s[k] == d[k - 1];
    }
    FindFirst(s, "_", 1, 1 + |d|);
  }

  /** A label and the label with its spaces and slashes turned into underscores share an id,
      so the second node overwrites the first: `Code Editor` and `Code_Editor`, say. */
  lemma NodeIdCollision(k: nat, a: string)
    ensures NodeId(k, a) == NodeId(k, Replace(Replace(a, ' ', '_'), '/', '_'))
    ensures NodeId(1, "Code Editor") == NodeId(1, "Code_Editor")
  {
    var x := Replace(Replace(a, ' ', '_'), '/', '_');
    assert Replace(x, ' ', '_') == x;
    assert Replace(Replace(x, ' ', '_'), '/', '_') == x;
  }

  /** The ids of the concepts of one layer. */
  function Ids(k: nat, concepts: seq<string>): (r: seq<string>)
    ensures |r| == |concepts|
    ensures forall i :: 0 <= i < |r| ==> r[i] == NodeId(k, concepts[i])
  {
    seq(|concepts|, i requires 0 <= i < |concepts| => NodeId(k, concepts[i]))
  }

  // ---------------------------------------------------------------------------------
  // Layers 1 and 2.

  /** The content of a layer-1 node: each entry's timestamp and content, blank-line separated. */
  function ActivityContent(entries: seq<Entry>): string {
    Join(seq(|entries|, i requires 0 <= i < |entries| => entries[i].timestamp + "\n" + entries[i].content),
         "\n\n")
  }

  /** The inner loop over one activity's concepts: a new concept gets a layer-2 node with the
      activity as only child, a known one gains the activity as a child if it lacks it, and the
      first concept becomes the activity's parent. */
  function LinkConcepts(m: NodeMap, aid: string, concepts: seq<string>, first: bool): (r: NodeMap)
    requires WellFormed(m) && aid in m.nodes
    ensures WellFormed(r)
    ensures m.nodes.Keys <= r.nodes.Keys
    ensures forall c :: c in concepts ==> NodeId(2, c) in r.nodes
    decreases |concepts|
  {
    if |concepts| == 0 then m
    else
      var c := concepts[0];
      var cid := NodeId(2, c);
      var m1 := LinkConcept(m, aid, c);
      var m2 := if first then SetParent(m1, aid, cid) else m1;
      assert WellFormed(m2) by {
        if first { SetParentWellFormed(m1, aid, cid); }
      }
      LinkConcepts(m2, aid, concepts[1..], false)
  }

  /** A new concept gets a layer-2 node whose only child is the activity; a known one gains
      the activity as a child unless it already has it. */
  function LinkConcept(m: NodeMap, aid: string, c: string): (r: NodeMap)
    requires WellFormed(m) && aid in m.nodes
    ensures WellFormed(r) && m.nodes.Keys <= r.nodes.Keys
    ensures NodeId(2, c) in r.nodes && aid in r.nodes[NodeId(2, c)].children
  {
    var cid := NodeId(2, c);
    if cid !in m.nodes then
      PutWellFormed(m, cid, Node(cid, c, 2, "", [aid], None));
      Put(m, cid, Node(cid, c, 2, "", [aid], None))
    else
      AppendChildWellFormed(m, cid, aid);
      AppendChild(m, cid, aid)
  }

  /** After the concept loop, a layer-1 node's parent is its first concept; with no concepts it
      keeps no parent. */
  lemma {:induction false} LinkConceptsParent(m: NodeMap, activity: string, concepts: seq<string>,
                                              first: bool)
    requires WellFormed(m) && NodeId(1, activity) in m.nodes
    ensures var aid := NodeId(1, activity);
            var r := LinkConcepts(m, aid, concepts, first);
            && r.nodes[aid].id == aid && r.nodes[aid].name == m.nodes[aid].name
            && r.nodes[aid].layer == m.nodes[aid].layer
            && r.nodes[aid].content == m.nodes[aid].content
            && r.nodes[aid].children == m.nodes[aid].children
            && r.nodes[aid].parent == if first && concepts != [] then Some(NodeId(2, concepts[0]))
                                      else m.nodes[aid].parent
    decreases |concepts|
  {
    if |concepts| > 0 {
      var aid := NodeId(1, activity);
      var c := concepts[0];
      var cid := NodeId(2, c);
      assert cid != aid by {
        if cid == aid {
          NodeIdLayers(2, c, 1, activity);
        }
      }
      var m1 := LinkConcept(m, aid, c);
      PutWellFormedAt(m, cid, aid, c);
      var m2 := if first then SetParent(m1, aid, cid) else m1;
      if first { SetParentWellFormed(m1, aid, cid); }
      LinkConceptsParent(m2, activity, concepts[1..], false);
    }
  }

  /** Linking one concept leaves the activity node alone and well formed. */
  lemma PutWellFormedAt(m: NodeMap, cid: string, aid: string, c: string)
    requires WellFormed(m) && aid in m.nodes && cid != aid && cid == NodeId(2, c)
    ensures LinkConcept(m, aid, c).nodes[aid] == m.nodes[aid]
  {
  }

  /** One iteration of the outer loop of step 3: the layer-1 node for a group, then its
      concepts. Colliding activity ids overwrite the earlier node. */
  function AddActivity(m: NodeMap, g: Group, concepts: seq<string>): (r: NodeMap)
    requires WellFormed(m)
    ensures WellFormed(r)
    ensures m.nodes.Keys <= r.nodes.Keys && NodeId(1, g.name) in r.nodes
    ensures forall c :: c in concepts ==> NodeId(2, c) in r.nodes
  {
    var aid := NodeId(1, g.name);
    var n := Node(aid, g.name, 1, ActivityContent(g.entries), [], None);
    PutWellFormed(m, aid, n);
    LinkConcepts(Put(m, aid, n), aid, concepts, true)
  }

  /** The layer-1 node of a group: its name, layer 1, its entries' text, no children, and as
      parent the first concept, or none when the concept list is empty. */
  lemma AddActivityNode(m: NodeMap, g: Group, concepts: seq<string>)
    requires WellFormed(m)
    ensures AddActivity(m, g, concepts).nodes[NodeId(1, g.name)] ==
              Node(NodeId(1, g.name), g.name, 1, ActivityContent(g.entries), [],
                   if concepts == [] then None else Some(NodeId(2, concepts[0])))
  {
    var aid := NodeId(1, g.name);
    var n := Node(aid, g.name, 1, ActivityContent(g.entries), [], None);
    PutWellFormed(m, aid, n);
    LinkConceptsParent(Put(m, aid, n), g.name, concepts, true);
  }

  /** The concept lists of all groups, one oracle call per group. */
  function ConceptLists(o: Oracle, groups: seq<Group>): (r: seq<seq<string>>)
    ensures |r| == |groups|
    ensures forall i :: 0 <= i < |groups| ==> r[i] == ExtractConcepts(o, groups[i].name, groups[i].entries)
  {
    seq(|groups|, i requires 0 <= i < |groups| => ExtractConcepts(o, groups[i].name, groups[i].entries))
  }

  /** All concepts of all groups, with repetitions. */
  function Flatten(lists: seq<seq<string>>): seq<string> {
    if |lists| == 0 then [] else lists[0] + Flatten(lists[1..])
  }

  /** A concept is in the flattened list exactly when some group has it. */
  lemma {:induction false} FlattenMembers(lists: seq<seq<string>>, c: string)
    ensures c in Flatten(lists) <==> exists i :: 0 <= i < |lists| && c in lists[i]
    decreases |lists|
  {
    if |lists| > 0 {
      FlattenMembers(lists[1..], c);
      if c in Flatten(lists[1..]) {
        var i :| 0 <= i < |lists| - 1 && c in lists[1..][i];
        assert c in lists[i + 1];
      }
      if exists i :: 0 <= i < |lists| && c in lists[i] {
        var i :| 0 <= i < |lists| && c in lists[i];
        if i > 0 {
          assert c in lists[1..][i - 1];
        }
      }
    }
  }

  /** Step 3 over all groups. */
  function AddActivities(m: NodeMap, groups: seq<Group>, lists: seq<seq<string>>): (r: NodeMap)
    requires WellFormed(m) && |lists| == |groups|
    ensures WellFormed(r)
    ensures m.nodes.Keys <= r.nodes.Keys
    ensures forall c :: c in Flatten(lists) ==> NodeId(2, c) in r.nodes
    decreases |groups|
  {
    if |groups| == 0 then m
    else
      var m1 := AddActivity(m, groups[0], lists[0]);
      var r := AddActivities(m1, groups[1..], lists[1..]);
      r
  }

  // ---------------------------------------------------------------------------------
  // Aggregation (step 4).

  /** `nodes[child].parent = p` for each child that is a key. */
  function SetParents(m: NodeMap, children: seq<string>, p: string): (r: NodeMap)
    ensures r.order == m.order && r.nodes.Keys == m.nodes.Keys
    ensures forall j :: j in m.nodes ==>
              r.nodes[j] == if j in children then m.nodes[j].(parent := Some(p)) else m.nodes[j]
    decreases |children|
  {
    if |children| == 0 then m
    else SetParents(SetParent(m, children[0], p), children[1..], p)
  }

  lemma {:induction false} SetParentsWellFormed(m: NodeMap, children: seq<string>, p: string)
    requires WellFormed(m) && p in m.nodes
    ensures WellFormed(SetParents(m, children, p))
    decreases |children|
  {
    if |children| > 0 {
      SetParentWellFormed(m, children[0], p);
      SetParentsWellFormed(SetParent(m, children[0], p), children[1..], p);
    }
  }

  /** The nodes of a new layer: one per broader concept, in order, holding its mapped children,
      which take it as parent. A repeated or colliding broader concept overwrites the node. */
  function AddLayer(m: NodeMap, k: nat, broader: seq<string>, ids: seq<string>, labels: seq<string>)
    : (r: NodeMap)
    requires k >= 3 && WellFormed(m) && |ids| == |labels|
    requires forall x :: x in ids ==> x in m.nodes
    ensures WellFormed(r)
    ensures m.nodes.Keys <= r.nodes.Keys
    ensures forall b :: b in broader ==> NodeId(k, b) in r.nodes
    decreases |broader|
  {
    if |broader| == 0 then m
    else
      var b := broader[0];
      var cid := NodeId(k, b);
      var children := Children(ids, labels, b);
      var n := Node(cid, b, k, "", children, None);
      PutWellFormed(m, cid, n);
      var m1 := Put(m, cid, n);
      SetParentsWellFormed(m1, children, cid);
      AddLayer(SetParents(m1, children, cid), k, broader[1..], ids, labels)
  }

  /** The broader concept whose node `x` ends up under: the last one whose children hold `x`,
      since each later node sets the parent again. */
  function LastOwner(broader: seq<string>, ids: seq<string>, labels: seq<string>, x: string)
    : (r: Option<string>)
    requires |ids| == |labels|
    ensures r.Some? ==> r.value in broader && x in Children(ids, labels, r.value)
    ensures r.None? <==> forall b :: b in broader ==> x !in Children(ids, labels, b)
    decreases |broader|
  {
    if |broader| == 0 then None
    else
      match LastOwner(broader[1..], ids, labels, x)
      case Some(b) => Some(b)
      case None =>
        assert forall b :: b in broader ==> b == broader[0] || b in broader[1..];
        if x in Children(ids, labels, broader[0]) then Some(broader[0]) else None
  }

  /** A node the new layer does not overwrite keeps everything but its parent, which becomes
      the node of the last broader concept holding it, if any, and stays as it was
      otherwise. */
  lemma {:induction false} AddLayerParents(m: NodeMap, k: nat, broader: seq<string>, ids: seq<string>,
                                           labels: seq<string>, x: string)
    requires k >= 3 && WellFormed(m) && |ids| == |labels|
    requires forall y :: y in ids ==> y in m.nodes
    requires x in m.nodes && forall b :: b in broader ==> NodeId(k, b) != x
    ensures var r := AddLayer(m, k, broader, ids, labels);
            var owner := LastOwner(broader, ids, labels, x);
            && x in r.nodes
            && r.nodes[x] == if owner.Some? then m.nodes[x].(parent := Some(NodeId(k, owner.value)))
                             else m.nodes[x]
    decreases |broader|
  {
    if |broader| > 0 {
      var b := broader[0];
      var cid := NodeId(k, b);
      var children := Children(ids, labels, b);
      var n := Node(cid, b, k, "", children, None);
      PutWellFormed(m, cid, n);
      var m1 := Put(m, cid, n);
      SetParentsWellFormed(m1, children, cid);
      var m2 := SetParents(m1, children, cid);
      assert m2.nodes[x] == if x in children then m.nodes[x].(parent := Some(cid)) else m.nodes[x];
      AddLayerParents(m2, k, broader[1..], ids, labels, x);
    }
  }

  /** The node of the `p`-th broader concept, unless a later one takes over its id, is named
      after it, sits on layer `k` with no content, and holds exactly the ids labelled with
      it, in order. */
  lemma {:induction false} AddLayerChildren(m: NodeMap, k: nat, broader: seq<string>, ids: seq<string>,
                                            labels: seq<string>, p: nat)
    requires k >= 3 && WellFormed(m) && |ids| == |labels|
    requires forall y :: y in ids ==> y in m.nodes
    requires p < |broader|
    requires forall q :: p < q < |broader| ==> NodeId(k, broader[q]) != NodeId(k, broader[p])
    ensures var n := AddLayer(m, k, broader, ids, labels).nodes[NodeId(k, broader[p])];
            && n.name == broader[p] && n.layer == k && n.content == ""
            && n.children == Children(ids, labels, broader[p])
    decreases |broader|
  {
    if p == 0 {
      AddLayerHead(m, k, broader, ids, labels);
    } else {
      var b := broader[0];
      var cid := NodeId(k, b);
      var children := Children(ids, labels, b);
      var n := Node(cid, b, k, "", children, None);
      PutWellFormed(m, cid, n);
      var m1 := Put(m, cid, n);
      SetParentsWellFormed(m1, children, cid);
      var m2 := SetParents(m1, children, cid);
      assert forall q :: p - 1 < q < |broader| - 1 ==> broader[1..][q] == broader[q + 1];
      AddLayerChildren(m2, k, broader[1..], ids, labels, p - 1);
    }
  }

  lemma AddLayerHead(m: NodeMap, k: nat, broader: seq<string>, ids: seq<string>, labels: seq<string>)
    requires k >= 3 && WellFormed(m) && |ids| == |labels|
    requires forall y :: y in ids ==> y in m.nodes
    requires |broader| > 0
    requires forall q :: 0 < q < |broader| ==> NodeId(k, broader[q]) != NodeId(k, broader[0])
    ensures var n := AddLayer(m, k, broader, ids, labels).nodes[NodeId(k, broader[0])];
            && n.name == broader[0] && n.layer == k && n.content == ""
            && n.children == Children(ids, labels, broader[0])
  {
    var b := broader[0];
    var cid := NodeId(k, b);
    var children := Children(ids, labels, b);
    var n := Node(cid, b, k, "", children, None);
    PutWellFormed(m, cid, n);
    var m1 := Put(m, cid, n);
    SetParentsWellFormed(m1, children, cid);
    var m2 := SetParents(m1, children, cid);
    assert m2.nodes[cid] == if cid in children then n.(parent := Some(cid)) else n;
    forall c | c in broader[1..] ensures NodeId(k, c) != cid {
      var q :| 0 <= q < |broader| - 1 && broader[1..][q] == c;
      assert broader[q + 1] == c;
    }
    AddLayerParents(m2, k, broader[1..], ids, labels, cid);
  }

  /** When the concept ids come from the layer below, every concept labelled with one of the
      broader concepts ends up under a layer-`k` node of a broader concept whose children
      hold it. */
  lemma AddLayerParentOfId(m: NodeMap, k: nat, broader: seq<string>, current: seq<string>,
                           labels: seq<string>, i: nat)
    requires k >= 3 && WellFormed(m) && |current| == |labels|
    requires forall x :: x in Ids(k - 1, current) ==> x in m.nodes
    requires i < |current| && labels[i] in broader
    ensures var ids := Ids(k - 1, current);
            var r := AddLayer(m, k, broader, ids, labels);
            && ids[i] in r.nodes
            && exists b :: b in broader && ids[i] in Children(ids, labels, b)
                           && r.nodes[ids[i]].parent == Some(NodeId(k, b))
  {
    var ids := Ids(k - 1, current);
    forall b | b in broader ensures NodeId(k, b) != ids[i] {
      if NodeId(k, b) == ids[i] {
        NodeIdLayers(k, b, k - 1, current[i]);
      }
    }
    ChildrenMembers(ids, labels, labels[i], ids[i]);
    AddLayerParents(m, k, broader, ids, labels, ids[i]);
  }

  /** Where the loop left off: the nodes, `current_layer`, the layer of the remaining
      concepts' ids, and the remaining concepts. */
  datatype Level = Level(tree: NodeMap, layer: nat, idLayer: nat, concepts: seq<string>)

  /** The ids of the remaining concepts. */
  function LevelIds(lv: Level): seq<string> {
    Ids(lv.idLayer, lv.concepts)
  }

  /** The layers where the aggregation loop stops: at most one concept left when the loop ran
      out of concepts, and exactly two, one layer below `current_layer`, when it stopped at
      the break. */
  predicate LoopShape(k: nat, current: seq<string>, lv: Level) {
    && k <= lv.idLayer <= lv.layer && |lv.concepts| <= |current|
    && (lv.layer == lv.idLayer ==> |lv.concepts| <= 1)
    && (lv.layer != lv.idLayer ==> lv.layer == lv.idLayer + 1 && |lv.concepts| == 2)
  }

  /** What the aggregation loop leaves: a well-formed tree grown from `m` that holds the
      remaining concepts' ids. */
  ghost predicate LoopEnd(m: NodeMap, lv: Level) {
    && WellFormed(lv.tree) && m.nodes.Keys <= lv.tree.nodes.Keys
    && (forall c :: c in lv.concepts ==> NodeId(lv.idLayer, c) in lv.tree.nodes)
  }

  /** The `while len(current_concepts) > 1` loop over the concepts of layer `k`. */
  function AggregationLoop(o: Oracle, m: NodeMap, k: nat, current: seq<string>): (r: Result<Level, Failure>)
    requires k >= 2 && WellFormed(m) && forall c :: c in current ==> NodeId(k, c) in m.nodes
    ensures r.Ok? ==> LoopShape(k, current, r.value)
    ensures |current| <= 1 ==> r == Ok(Level(m, k, k, current))
    decreases |current|, 2
  {
    if |current| <= 1 then Ok(Level(m, k, k, current))
    else AggregationPass(o, m, k, current)
  }

  /** One pass of the loop body at layer `k + 1`: aggregation, the break (after
      `current_layer` is raised, so the result is one layer above the remaining ids), the
      mapping step, which raises when there is nothing to map onto, and the new layer. */
  function AggregationPass(o: Oracle, m: NodeMap, k: nat, current: seq<string>): (r: Result<Level, Failure>)
    requires k >= 2 && |current| > 1
    requires WellFormed(m) && forall c :: c in current ==> NodeId(k, c) in m.nodes
    ensures r.Ok? ==> LoopShape(k, current, r.value)
    decreases |current|, 1
  {
    var agg := AggregateActivities(o, current);
    if |agg| >= |current| && |current| <= 2 then Ok(Level(m, k + 1, k, current))
    else
      var broader := if |agg| >= |current| then agg[..|current| / 2] else agg;
      match AssignCategories(o, current, broader)
      case Err(f) => Err(f)
      case Ok(labels) =>
        var ids := Ids(k, current);
        assert forall x :: x in ids ==> x in m.nodes;
        NextLayer(o, m, k, broader, ids, labels)
  }

  /** The layer `k + 1` nodes are added and the loop goes on with the broader concepts. */
  function NextLayer(o: Oracle, m: NodeMap, k: nat, broader: seq<string>, ids: seq<string>,
                     labels: seq<string>): (r: Result<Level, Failure>)
    requires k >= 2 && WellFormed(m) && |ids| == |labels|
    requires forall x :: x in ids ==> x in m.nodes
    ensures r.Ok? ==> LoopShape(k + 1, broader, r.value)
    decreases |broader| + 1, 0
  {
    AggregationLoop(o, AddLayer(m, k + 1, broader, ids, labels), k + 1, broader)
  }

  /** The pass ends the loop at its break, with the dict unchanged and the concepts of layer
      `k` left, exactly when aggregation did not shrink them and there are at most two. */
  lemma PassStops(o: Oracle, m: NodeMap, k: nat, current: seq<string>)
    requires k >= 2 && |current| > 1
    requires WellFormed(m) && forall c :: c in current ==> NodeId(k, c) in m.nodes
    ensures var r := AggregationPass(o, m, k, current);
            var agg := AggregateActivities(o, current);
            && (r.Ok? && r.value.idLayer == k <==> |agg| >= |current| && |current| <= 2)
            && (|agg| >= |current| && |current| <= 2 ==> r == Ok(Level(m, k + 1, k, current)))
  {
  }

  /** A pass that does not stop and is left with no broader concept raises, as `i % 0` does. */
  lemma PassFailsOnEmpty(o: Oracle, m: NodeMap, k: nat, current: seq<string>)
    requires k >= 2 && |current| > 1
    requires WellFormed(m) && forall c :: c in current ==> NodeId(k, c) in m.nodes
    requires var agg := AggregateActivities(o, current); |agg| < |current| && agg == []
    ensures AggregationPass(o, m, k, current) == Err(ModuloByZero)
  {
  }

  /** The loop keeps the dict well formed, only adds keys, and ends with the ids of the
      remaining concepts in the dict. */
  lemma {:induction false} AggregationLoopWellFormed(o: Oracle, m: NodeMap, k: nat, current: seq<string>)
    requires k >= 2 && WellFormed(m) && forall c :: c in current ==> NodeId(k, c) in m.nodes
    ensures var r := AggregationLoop(o, m, k, current); r.Ok? ==> LoopEnd(m, r.value)
    decreases |current|, 2
  {
    if |current| > 1 {
      var agg := AggregateActivities(o, current);
      if !(|agg| >= |current| && |current| <= 2) {
        var broader := if |agg| >= |current| then agg[..|current| / 2] else agg;
        var a := AssignCategories(o, current, broader);
        if a.Ok? {
          var ids := Ids(k, current);
          assert forall x :: x in ids ==> x in m.nodes;
          NextLayerWellFormed(o, m, k, broader, ids, a.value);
        }
      }
    }
  }

  /** A new layer keeps the dict well formed, and so does the rest of the loop. */
  lemma {:induction false} NextLayerWellFormed(o: Oracle, m: NodeMap, k: nat, broader: seq<string>,
                                               ids: seq<string>, labels: seq<string>)
    requires k >= 2 && WellFormed(m) && |ids| == |labels|
    requires forall x :: x in ids ==> x in m.nodes
    ensures var r := NextLayer(o, m, k, broader, ids, labels); r.Ok? ==> LoopEnd(m, r.value)
    decreases |broader| + 1, 0
  {
    var m1 := AddLayer(m, k + 1, broader, ids, labels);
    var r := AggregationLoop(o, m1, k + 1, broader);
    AggregationLoopWellFormed(o, m1, k + 1, broader);
    if r.Ok? {
      assert LoopEnd(m1, r.value);
    }
  }

  // ---------------------------------------------------------------------------------
  // Layers and parents: each parent sits on a higher layer than its child, and apart from
  // the root only activity nodes can be left without a parent.

  /** A node stored under a layer-`j` id sits on layer `j`. */
  ghost predicate IdsOnLayers(m: NodeMap) {
    forall j: nat, a: string :: NodeId(j, a) in m.nodes ==> m.nodes[NodeId(j, a)].layer == j
  }

  /** Every parent is a node on a higher layer than its child. */
  ghost predicate ParentsAbove(m: NodeMap) {
    forall x :: x in m.nodes && m.nodes[x].parent.Some? ==>
      && m.nodes[x].parent.value in m.nodes
      && m.nodes[m.nodes[x].parent.value].layer > m.nodes[x].layer
  }

  /** The layering the builder keeps until the root is added. */
  ghost predicate Layered(m: NodeMap) {
    RootId !in m.nodes && IdsOnLayers(m) && ParentsAbove(m)
  }

  /** Every parentless node is an activity node or one of `ids`. */
  ghost predicate ParentlessWithin(m: NodeMap, ids: seq<string>) {
    forall x :: x in m.nodes && m.nodes[x].parent.None? ==> m.nodes[x].layer == 1 || x in ids
  }

  /** Only the root and layer-1 activity nodes can be without a parent. */
  ghost predicate Attached(m: NodeMap) {
    forall x :: x in m.nodes && m.nodes[x].parent.None? ==> x == RootId || m.nodes[x].layer == 1
  }

  lemma AppendEmpty(a: seq<string>, b: seq<string>)
    requires b == []
    ensures a + b == a && b + a == a
  {
  }

  lemma AppendHead(a: seq<string>, b: seq<string>)
    requires |b| > 0
    ensures a + [b[0]] + b[1..] == a + b
  {
    assert [b[0]] + b[1..] == b;
  }

  lemma AppendFlatten(a: seq<string>, lists: seq<seq<string>>)
    requires |lists| > 0
    ensures a + lists[0] + Flatten(lists[1..]) == a + Flatten(lists)
  {
  }

  lemma IdsCons(k: nat, cs: seq<string>)
    requires |cs| > 0
    ensures Ids(k, cs) == [NodeId(k, cs[0])] + Ids(k, cs[1..])
  {
    assert Ids(k, cs)[1..] == Ids(k, cs[1..]);
  }

  /** The id of every listed concept is among the ids of the list. */
  lemma IdsHas(k: nat, cs: seq<string>, c: string)
    requires c in cs
    ensures NodeId(k, c) in Ids(k, cs)
  {
    var i :| 0 <= i < |cs| && cs[i] == c;
    assert Ids(k, cs)[i] == NodeId(k, c);
  }

  /** Parentless nodes among the ids of `cs` are among the ids of any list holding `cs`. */
  lemma ParentlessWiden(m: NodeMap, k: nat, cs: seq<string>, ds: seq<string>)
    requires ParentlessWithin(m, Ids(k, cs))
    requires forall c :: c in cs ==> c in ds
    ensures ParentlessWithin(m, Ids(k, ds))
  {
    forall x | x in Ids(k, cs) ensures x in Ids(k, ds) {
      var i :| 0 <= i < |cs| && Ids(k, cs)[i] == x;
      IdsHas(k, ds, cs[i]);
    }
  }

  /** A parentless node stored under a layer-`k` id, on layer `k`, keeps the layering: an
      overwritten node was on the same layer, so its children still sit below it. */
  lemma PutLayered(m: NodeMap, k: nat, a: string, n: Node)
    requires Valid(m) && Layered(m) && n.layer == k && n.parent.None?
    ensures Layered(Put(m, NodeId(k, a), n))
  {
    var key := NodeId(k, a);
    var r := Put(m, key, n);
    forall j: nat, b: string | NodeId(j, b) in r.nodes ensures r.nodes[NodeId(j, b)].layer == j {
      if NodeId(j, b) == key {
        NodeIdLayers(j, b, k, a);
      }
    }
  }

  /** A parent on a higher layer keeps parents above children, and no parent is taken away. */
  lemma SetParentLayered(m: NodeMap, x: string, p: string)
    requires ParentsAbove(m) && p in m.nodes
    requires x in m.nodes ==> m.nodes[p].layer > m.nodes[x].layer
    ensures var r := SetParent(m, x, p);
            && ParentsAbove(r)
            && (Layered(m) ==> Layered(r))
            && forall ids :: ParentlessWithin(m, ids) ==> ParentlessWithin(r, ids)
  {
  }

  /** A list of children taking a parent on a higher layer keeps parents above children,
      and every node's layer. */
  lemma SetParentsLayered(m: NodeMap, xs: seq<string>, p: string)
    requires ParentsAbove(m) && p in m.nodes
    requires forall x :: x in xs && x in m.nodes ==> m.nodes[p].layer > m.nodes[x].layer
    ensures var r := SetParents(m, xs, p);
            && ParentsAbove(r)
            && (IdsOnLayers(m) ==> IdsOnLayers(r))
  {
    var r := SetParents(m, xs, p);
    forall x | x in r.nodes
      ensures r.nodes[x].layer == m.nodes[x].layer
      ensures r.nodes[x].parent == if x in xs then Some(p) else m.nodes[x].parent
    {
    }
    forall x | x in r.nodes && r.nodes[x].parent.Some?
      ensures r.nodes[x].parent.value in r.nodes
      ensures r.nodes[r.nodes[x].parent.value].layer > r.nodes[x].layer
    {
      if x !in xs {
        assert m.nodes[x].parent.value in m.nodes;
      }
    }
  }

  /** Linking one concept adds at most its layer-2 node, parentless, and keeps the layering. */
  lemma LinkConceptLayered(m: NodeMap, aid: string, c: string, cs: seq<string>)
    requires WellFormed(m) && aid in m.nodes
    requires Layered(m) && ParentlessWithin(m, Ids(2, cs))
    ensures var r := LinkConcept(m, aid, c);
            Layered(r) && ParentlessWithin(r, Ids(2, cs + [c]))
  {
    var cid := NodeId(2, c);
    ParentlessWiden(m, 2, cs, cs + [c]);
    IdsHas(2, cs + [c], c);
    if cid !in m.nodes {
      PutLayered(m, 2, c, Node(cid, c, 2, "", [aid], None));
    }
  }

  /** The concept loop of one activity keeps the layering: the activity's parent is a layer-2
      node, and the only new parentless nodes are the concepts' own. */
  lemma {:induction false} LinkConceptsLayered(m: NodeMap, activity: string, concepts: seq<string>,
                                               first: bool, cs: seq<string>)
    requires WellFormed(m) && NodeId(1, activity) in m.nodes
    requires Layered(m) && ParentlessWithin(m, Ids(2, cs))
    ensures var r := LinkConcepts(m, NodeId(1, activity), concepts, first);
            Layered(r) && ParentlessWithin(r, Ids(2, cs + concepts))
    decreases |concepts|
  {
    if |concepts| == 0 {
      AppendEmpty(cs, concepts);
    } else {
      var aid := NodeId(1, activity);
      var c := concepts[0];
      var cid := NodeId(2, c);
      var m1 := LinkConcept(m, aid, c);
      LinkConceptLayered(m, aid, c, cs);
      if first {
        SetParentWellFormed(m1, aid, cid);
        SetParentLayered(m1, aid, cid);
      }
      var m2 := if first then SetParent(m1, aid, cid) else m1;
      LinkConceptsLayered(m2, activity, concepts[1..], false, cs + [c]);
      AppendHead(cs, concepts);
    }
  }

  /** One activity keeps the layering; its node is on layer 1. */
  lemma AddActivityLayered(m: NodeMap, g: Group, concepts: seq<string>, cs: seq<string>)
    requires WellFormed(m) && Layered(m) && ParentlessWithin(m, Ids(2, cs))
    ensures var r := AddActivity(m, g, concepts);
            Layered(r) && ParentlessWithin(r, Ids(2, cs + concepts))
  {
    var aid := NodeId(1, g.name);
    var n := Node(aid, g.name, 1, ActivityContent(g.entries), [], None);
    PutWellFormed(m, aid, n);
    PutLayered(m, 1, g.name, n);
    LinkConceptsLayered(Put(m, aid, n), g.name, concepts, true, cs);
  }

  /** After step 3 the nodes are layered, and every parentless node is an activity node or
      the node of a concept of some group. */
  lemma {:induction false} AddActivitiesLayered(m: NodeMap, groups: seq<Group>, lists: seq<seq<string>>,
                                                cs: seq<string>)
    requires WellFormed(m) && |lists| == |groups|
    requires Layered(m) && ParentlessWithin(m, Ids(2, cs))
    ensures var r := AddActivities(m, groups, lists);
            Layered(r) && ParentlessWithin(r, Ids(2, cs + Flatten(lists)))
    decreases |groups|
  {
    if |groups| == 0 {
      AppendEmpty(cs, Flatten(lists));
    } else {
      var m1 := AddActivity(m, groups[0], lists[0]);
      AddActivityLayered(m, groups[0], lists[0], cs);
      AddActivitiesLayered(m1, groups[1..], lists[1..], cs + lists[0]);
      AppendFlatten(cs, lists);
    }
  }

  /** A new layer only adds the nodes of the broader concepts. */
  lemma {:induction false} AddLayerKeys(m: NodeMap, k: nat, broader: seq<string>, ids: seq<string>,
                                        labels: seq<string>)
    requires k >= 3 && WellFormed(m) && |ids| == |labels|
    requires forall x :: x in ids ==> x in m.nodes
    ensures forall x :: x in AddLayer(m, k, broader, ids, labels).nodes ==> x in m.nodes || x in Ids(k, broader)
    decreases |broader|
  {
    if |broader| > 0 {
      var b := broader[0];
      var cid := NodeId(k, b);
      var children := Children(ids, labels, b);
      var n := Node(cid, b, k, "", children, None);
      PutWellFormed(m, cid, n);
      var m1 := Put(m, cid, n);
      SetParentsWellFormed(m1, children, cid);
      AddLayerKeys(SetParents(m1, children, cid), k, broader[1..], ids, labels);
      IdsCons(k, broader);
    }
  }

  /** A new layer over the ids of layer `k` keeps the layering: its nodes are on layer
      `k + 1` and become parents of layer-`k` nodes only. */
  lemma {:induction false} AddLayerLayered(m: NodeMap, k: nat, broader: seq<string>, current: seq<string>,
                                           labels: seq<string>)
    requires k >= 2 && WellFormed(m) && |current| == |labels|
    requires forall x :: x in Ids(k, current) ==> x in m.nodes
    requires Layered(m)
    ensures Layered(AddLayer(m, k + 1, broader, Ids(k, current), labels))
    decreases |broader|
  {
    if |broader| > 0 {
      var ids := Ids(k, current);
      var b := broader[0];
      var cid := NodeId(k + 1, b);
      var children := Children(ids, labels, b);
      var n := Node(cid, b, k + 1, "", children, None);
      PutWellFormed(m, cid, n);
      var m1 := Put(m, cid, n);
      PutLayered(m, k + 1, b, n);
      forall x | x in children && x in m1.nodes ensures m1.nodes[cid].layer > m1.nodes[x].layer {
        var i :| 0 <= i < |ids| && ids[i] == x;
        assert x == NodeId(k, current[i]);
      }
      SetParentsWellFormed(m1, children, cid);
      SetParentsLayered(m1, children, cid);
      AddLayerLayered(SetParents(m1, children, cid), k, broader[1..], current, labels);
    }
  }

  /** When every label is a broader concept, every id of layer `k` gets a parent, so the only
      parentless nodes above layer 1 are the new layer's. */
  lemma AddLayerParentless(m: NodeMap, k: nat, broader: seq<string>, current: seq<string>,
                           labels: seq<string>)
    requires k >= 2 && WellFormed(m) && |current| == |labels|
    requires forall x :: x in Ids(k, current) ==> x in m.nodes
    requires ParentlessWithin(m, Ids(k, current))
    requires forall i :: 0 <= i < |labels| ==> labels[i] in broader
    ensures ParentlessWithin(AddLayer(m, k + 1, broader, Ids(k, current), labels), Ids(k + 1, broader))
  {
    AddLayerParented(m, k + 1, broader, Ids(k, current), labels);
  }

  /** Every node of the new dict that is not one of the new layer's and not an activity node
      has a parent: it had one before, or it is the id of a labelled concept. */
  lemma AddLayerParented(m: NodeMap, k: nat, broader: seq<string>, ids: seq<string>, labels: seq<string>)
    requires k >= 3 && WellFormed(m) && |ids| == |labels|
    requires forall y :: y in ids ==> y in m.nodes
    requires ParentlessWithin(m, ids)
    requires forall i :: 0 <= i < |labels| ==> labels[i] in broader
    ensures ParentlessWithin(AddLayer(m, k, broader, ids, labels), Ids(k, broader))
  {
    var r := AddLayer(m, k, broader, ids, labels);
    AddLayerKeys(m, k, broader, ids, labels);
    forall x | x in r.nodes && x !in Ids(k, broader) && r.nodes[x].layer != 1
      ensures r.nodes[x].parent.Some?
    {
      forall b | b in broader ensures NodeId(k, b) != x {
        IdsHas(k, broader, b);
      }
      AddLayerParents(m, k, broader, ids, labels, x);
      if x in ids {
        var i :| 0 <= i < |ids| && ids[i] == x;
        ChildrenMembers(ids, labels, labels[i], x);
      }
    }
  }

  /** The aggregation loop keeps the layering and ends with only the remaining concepts'
      nodes parentless above layer 1. */
  lemma {:induction false} AggregationLoopLayered(o: Oracle, m: NodeMap, k: nat, current: seq<string>)
    requires k >= 2 && WellFormed(m) && forall c :: c in current ==> NodeId(k, c) in m.nodes
    requires Layered(m) && ParentlessWithin(m, Ids(k, current))
    ensures var r := AggregationLoop(o, m, k, current);
            r.Ok? ==> Layered(r.value.tree) && ParentlessWithin(r.value.tree, LevelIds(r.value))
    decreases |current|, 2
  {
    if |current| > 1 {
      var agg := AggregateActivities(o, current);
      if !(|agg| >= |current| && |current| <= 2) {
        var broader := if |agg| >= |current| then agg[..|current| / 2] else agg;
        var a := AssignCategories(o, current, broader);
        if a.Ok? {
          AssignCategoriesLabels(o, current, broader);
          NextLayerLayered(o, m, k, broader, current, a.value);
        }
      }
    }
  }

  /** A new layer keeps the layering, and so does the rest of the loop. */
  lemma {:induction false} NextLayerLayered(o: Oracle, m: NodeMap, k: nat, broader: seq<string>,
                                            current: seq<string>, labels: seq<string>)
    requires k >= 2 && WellFormed(m) && |current| == |labels|
    requires forall c :: c in current ==> NodeId(k, c) in m.nodes
    requires Layered(m) && ParentlessWithin(m, Ids(k, current))
    requires forall i :: 0 <= i < |labels| ==> labels[i] in broader
    ensures var r := NextLayer(o, m, k, broader, Ids(k, current), labels);
            r.Ok? ==> Layered(r.value.tree) && ParentlessWithin(r.value.tree, LevelIds(r.value))
    decreases |broader| + 1, 0
  {
    var ids := Ids(k, current);
    assert forall x :: x in ids ==> x in m.nodes;
    AddLayerLayered(m, k, broader, current, labels);
    AddLayerParentless(m, k, broader, current, labels);
    var m1 := AddLayer(m, k + 1, broader, ids, labels);
    var r := AggregationLoop(o, m1, k + 1, broader);
    AggregationLoopLayered(o, m1, k + 1, broader);
    if r.Ok? {
      assert Layered(r.value.tree) && ParentlessWithin(r.value.tree, LevelIds(r.value));
    }
  }

  /** The root, one layer above `current_layer`, takes the remaining ids, which sit on a layer
      no higher than it; afterwards every parent is above its child and only the root and
      concept-less activity nodes have no parent. */
  lemma AddRootShape(o: Oracle, lv: Level)
    requires lv.layer >= 2 && lv.idLayer <= lv.layer
    requires WellFormed(lv.tree) && forall c :: c in lv.concepts ==> NodeId(lv.idLayer, c) in lv.tree.nodes
    requires Layered(lv.tree) && ParentlessWithin(lv.tree, LevelIds(lv))
    ensures var r := AddRoot(o, lv); Attached(r) && ParentsAbove(r)
  {
    var ids := LevelIds(lv);
    forall x | x in ids ensures x in lv.tree.nodes && lv.tree.nodes[x].layer == lv.idLayer {
      var i :| 0 <= i < |ids| && ids[i] == x;
      assert x == NodeId(lv.idLayer, lv.concepts[i]);
    }
    AddRootSteps(o, lv);
    RootShape(lv.tree, Node(RootId, GenerateDayActivity(o, lv.concepts), lv.layer + 1, "", ids, None), ids);
  }

  /** A parentless root above every id in `ids`, stored in a layered tree and taken as parent
      by `ids`, leaves only itself and activity nodes parentless, and parents above
      children. */
  lemma RootShape(t: NodeMap, n: Node, ids: seq<string>)
    requires Valid(t) && Layered(t) && ParentlessWithin(t, ids) && n.parent.None?
    requires forall x :: x in ids ==> x in t.nodes && t.nodes[x].layer < n.layer
    ensures var r := SetParents(Put(t, RootId, n), ids, RootId); Attached(r) && ParentsAbove(r)
  {
    RootParentsAbove(t, n, ids);
    RootAttached(t, n, ids);
  }

  /** Children of the root sit below it; every other parent keeps its layer. */
  lemma RootParentsAbove(t: NodeMap, n: Node, ids: seq<string>)
    requires Valid(t) && RootId !in t.nodes && ParentsAbove(t) && n.parent.None?
    requires forall x :: x in ids ==> x in t.nodes && t.nodes[x].layer < n.layer
    ensures ParentsAbove(SetParents(Put(t, RootId, n), ids, RootId))
  {
    var m := Put(t, RootId, n);
    var r := SetParents(m, ids, RootId);
    assert RootId !in ids;
    assert r.nodes[RootId] == n;
    forall x | x in r.nodes && r.nodes[x].parent.Some?
      ensures r.nodes[x].parent.value in r.nodes
      ensures r.nodes[r.nodes[x].parent.value].layer > r.nodes[x].layer
    {
      if x !in ids {
        assert x != RootId && x in t.nodes;
        var p := t.nodes[x].parent.value;
        assert r.nodes[x] == t.nodes[x];
        assert p in t.nodes && p != RootId;
        assert r.nodes[p].layer == t.nodes[p].layer;
      }
    }
  }

  /** The root adopts the ids that were left parentless above layer 1. */
  lemma RootAttached(t: NodeMap, n: Node, ids: seq<string>)
    requires Valid(t) && ParentlessWithin(t, ids)
    ensures Attached(SetParents(Put(t, RootId, n), ids, RootId))
  {
    var r := SetParents(Put(t, RootId, n), ids, RootId);
    PutThenSetParents(t, RootId, n, ids);
    forall x | x in r.nodes && x != RootId && r.nodes[x].layer != 1 ensures r.nodes[x].parent.Some? {
      if x !in ids {
        assert r.nodes[x] == t.nodes[x];
      }
    }
  }

  // ---------------------------------------------------------------------------------
  // The root and the whole builder.

  /** Step 5: the `day_activity` node one layer above `current_layer`, with the remaining ids
      as children, each of which takes it as parent. */
  function AddRoot(o: Oracle, lv: Level): (r: NodeMap)
    requires lv.layer >= 2
    requires WellFormed(lv.tree) && forall c :: c in lv.concepts ==> NodeId(lv.idLayer, c) in lv.tree.nodes
    ensures WellFormed(r)
    ensures RootId in r.nodes
    ensures r.nodes[RootId] ==
              Node(RootId, GenerateDayActivity(o, lv.concepts), lv.layer + 1, "", LevelIds(lv), None)
    ensures forall x :: x in LevelIds(lv) ==> r.nodes[x].parent == Some(RootId)
  {
    var ids := LevelIds(lv);
    assert forall x :: x in ids ==> x in lv.tree.nodes;
    var n := Node(RootId, GenerateDayActivity(o, lv.concepts), lv.layer + 1, "", ids, None);
    PutWellFormed(lv.tree, RootId, n);
    var m := Put(lv.tree, RootId, n);
    SetParentsWellFormed(m, ids, RootId);
    SetParents(m, ids, RootId)
  }

  /** Storing a node and then making it the parent of `xs` adds only its key and changes no
      other node but for the parents of `xs`. */
  lemma PutThenSetParents(t: NodeMap, k: string, n: Node, xs: seq<string>)
    requires Valid(t)
    ensures var r := SetParents(Put(t, k, n), xs, k);
            && r.nodes.Keys == t.nodes.Keys + {k}
            && forall x :: x in t.nodes && x != k ==>
                 r.nodes[x] == if x in xs then t.nodes[x].(parent := Some(k)) else t.nodes[x]
  {
  }

  /** The root node stored, then taken as parent by the remaining ids. */
  lemma AddRootSteps(o: Oracle, lv: Level)
    requires lv.layer >= 2
    requires WellFormed(lv.tree) && forall c :: c in lv.concepts ==> NodeId(lv.idLayer, c) in lv.tree.nodes
    ensures AddRoot(o, lv) ==
              SetParents(Put(lv.tree, RootId, Node(RootId, GenerateDayActivity(o, lv.concepts), lv.layer + 1,
                                                   "", LevelIds(lv), None)),
                         LevelIds(lv), RootId)
  {
  }

  /** The root exists, has no parent, and is the parent of each of its children. */
  predicate Rooted(m: NodeMap) {
    && RootId in m.nodes
    && m.nodes[RootId].parent.None?
    && forall x :: x in m.nodes[RootId].children ==> x in m.nodes && m.nodes[x].parent == Some(RootId)
  }

  /** Python iterates a `set` in an order of its own: `arrange` may put the distinct concepts
      in any order. */
  ghost predicate Permutes(arrange: seq<string> -> seq<string>) {
    forall xs: seq<string> :: multiset(arrange(xs)) == multiset(xs)
  }

  /** The concepts of layer 2 in loop order. */
  function InitialConcepts(lists: seq<seq<string>>, arrange: seq<string> -> seq<string>): (r: seq<string>)
    requires Permutes(arrange)
    ensures multiset(r) == multiset(Distinct(Flatten(lists)))
    ensures forall c :: c in r <==> c in Flatten(lists)
  {
    var d := Distinct(Flatten(lists));
    assert multiset(arrange(d)) == multiset(d);
    assert forall c :: c in arrange(d) <==> c in d by {
      forall c ensures c in arrange(d) <==> c in d {
        assert c in arrange(d) <==> c in multiset(arrange(d));
        assert c in d <==> c in multiset(d);
      }
    }
    arrange(d)
  }

  /** `build_activity_tree` after the file is read and split: no entries gives an empty dict;
      otherwise a dict whose references all resolve, topped by `day_activity`, unless a pass
      of the loop raised. */
  function BuildTree(o: Oracle, sections: seq<string>, arrange: seq<string> -> seq<string>)
    : (r: Result<NodeMap, Failure>)
    requires |sections| >= 1
    requires Permutes(arrange)
    ensures PairSections(sections) == [] ==> r == Ok(Empty)
    ensures r.Ok? ==> WellFormed(r.value)
    ensures r.Ok? && PairSections(sections) != [] ==> Rooted(r.value)
    ensures r.Ok? && PairSections(sections) != [] ==> Attached(r.value) && ParentsAbove(r.value)
  {
    var entries := PairSections(sections);
    if entries == [] then Ok(Empty)
    else
      var groups := GroupActivities(entries);
      var lists := ConceptLists(o, groups);
      var m := AddActivities(Empty, groups, lists);
      var initial := InitialConcepts(lists, arrange);
      AggregationLoopWellFormed(o, m, 2, initial);
      AddActivitiesLayered(Empty, groups, lists, []);
      AppendEmpty(Flatten(lists), []);
      ParentlessWiden(m, 2, Flatten(lists), initial);
      AggregationLoopLayered(o, m, 2, initial);
      match AggregationLoop(o, m, 2, initial)
      case Err(f) => Err(f)
      case Ok(lv) =>
        var t := AddRoot(o, lv);
        AddRootShape(o, lv);
        assert RootId !in LevelIds(lv);
        Ok(t)
  }

  // ---------------------------------------------------------------------------------
  // `tree_to_dict`.

  /** One serialised node. */
  datatype NodeRecord = NodeRecord(id: string, name: string, layer: nat, content: string,
                                   children: seq<string>, parent: Option<string>)

  /** The content shown for a node: more than 200 characters become the first 200 and `...`. */
  function Truncate(content: string, truncate: bool): (r: string)
    ensures !truncate || |content| <= 200 ==> r == content
    ensures truncate && |content| > 200 ==>
              |r| == 203 && r[..200] == content[..200] && r[200..] == "..."
  {
    if truncate && |content| > 200 then content[..200] + "..." else content
  }

  function Record(n: Node, truncate: bool): NodeRecord {
    NodeRecord(n.id, n.name, n.layer, Truncate(n.content, truncate), n.children, n.parent)
  }

  /** `tree_to_dict(nodes, truncate_content)['nodes']`, in the dict's order. */
  function TreeToDict(m: NodeMap, truncate: bool): (r: seq<NodeRecord>)
    requires Valid(m)
    ensures |r| == |m.order|
  {
    seq(|m.order|, i requires 0 <= i < |m.order| => Record(m.nodes[m.order[i]], truncate))
  }

  /** One record per node, in insertion order, with distinct ids; each record carries its
      node's fields, the content possibly cut. */
  lemma TreeToDictRecords(m: NodeMap, truncate: bool)
    requires WellFormed(m)
    ensures var r := TreeToDict(m, truncate);
            && (forall i :: 0 <= i < |r| ==> r[i].id == m.order[i])
            && (forall i, j :: 0 <= i < j < |r| ==> r[i].id != r[j].id)
            && (forall k :: k in m.nodes <==> exists i :: 0 <= i < |r| && r[i].id == k)
            && (forall i :: 0 <= i < |r| ==>
                  var n := m.nodes[r[i].id];
                  r[i] == NodeRecord(n.id, n.name, n.layer, Truncate(n.content, truncate),
                                     n.children, n.parent))
  {
    var r := TreeToDict(m, truncate);
    forall k | k in m.nodes ensures exists i :: 0 <= i < |r| && r[i].id == k {
      var i :| 0 <= i < |m.order| && m.order[i] == k;
      assert r[i].id == k;
    }
  }

  /** Without truncation the records hold every node in full. */
  lemma TreeToDictFull(m: NodeMap)
    requires WellFormed(m)
    ensures forall i :: 0 <= i < |m.order| ==>
              TreeToDict(m, false)[i].content == m.nodes[m.order[i]].content
  {
  }
}
