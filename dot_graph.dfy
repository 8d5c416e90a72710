/**
 * The in-memory graph of the DOT serializer: a registry that gives every
 * application key a stable id, a tree of containers (the digraph, its
 * clusters, their nodes) that create their children on first reference,
 * the associations (directed edges) each container holds, and the
 * read-only rendering of the tree into DOT text.
 *
 * Java's `Node`, `Cluster` and `Digraph` share one class here,
 * `AbstractNode`, told apart by its `kind`. The graph object owns the
 * ghost footprint of all its elements; every element knows its graph and a
 * ghost rank that grows from parent to child, which keeps the tree acyclic
 * and lets rendering recurse into children.
 */
module DotGraph {
  import opened Wrappers
  import Strings
  import DotRenderer

  const NODE_ID_PREFIX: string := "c"
  const CLUSTER_PREFIX: string := "cluster_"
  /** The column width at which a node's label is wrapped. */
  const NODE_LABEL_WIDTH: int := 20

  /** The id handed out for the `n`-th registered key. */
  function NodeId(n: nat): string {
    NODE_ID_PREFIX + Strings.NatToString(n)
  }

  lemma NodeIdInjective(a: nat, b: nat)
    requires NodeId(a) == NodeId(b)
    ensures a == b
  {
    assert NodeId(a)[1..] == Strings.NatToString(a);
    assert NodeId(b)[1..] == Strings.NatToString(b);
    Strings.NatToStringInjective(a, b);
  }

  /** `uid` is one of the first `bound` ids handed out. */
  ghost predicate IssuedBelow(uid: string, bound: nat) {
    exists n: nat :: n < bound && uid == NodeId(n)
  }

  predicate NoDuplicates(s: seq<string>) {
    forall i, j :: 0 <= i < j < |s| ==> s[i] != s[j]
  }

  /**
   * One lookup-or-assign step from the map `before` and counter `n` to
   * `after` and `count`: a known `key` keeps its id `uid` and nothing
   * changes; a new one gets `"c" + n`, and exactly that key is added and
   * the counter rises by one.
   */
  predicate Assigned<K>(before: map<K, string>, n: nat, after: map<K, string>, count: nat, key: K, uid: string) {
    && key in after && after[key] == uid
    && (key in before ==> uid == before[key] && after == before && count == n)
    && (key !in before ==> uid == NodeId(n) && after == before[key := uid] && count == n + 1)
  }

  /**
   * Two steps, for `key` and then `key2`: both have their ids, no other key
   * was added, known keys kept their ids, each new key got the next counter
   * value in turn, and the counter rose by the number of new distinct keys.
   */
  predicate PairAssigned<K>(before: map<K, string>, n: nat, after: map<K, string>, count: nat,
                            key: K, key2: K, uid: string, uid2: string) {
    && key in after && uid == after[key] && key2 in after && uid2 == after[key2]
    && after.Keys == before.Keys + {key, key2}
    && (forall k :: k in before ==> k in after && after[k] == before[k])
    && (key !in before ==> uid == NodeId(n))
    && (key2 !in before && key2 != key ==> uid2 == NodeId(n + if key in before then 0 else 1))
    && count == n + (if key in before then 0 else 1) + (if key2 in before || key2 == key then 0 else 1)
  }

  lemma PairAssignedStep<K>(m0: map<K, string>, c0: nat, m1: map<K, string>, c1: nat, m2: map<K, string>, c2: nat,
                            key: K, key2: K, uid: string, uid2: string)
    requires Assigned(m0, c0, m1, c1, key, uid) && Assigned(m1, c1, m2, c2, key2, uid2)
    ensures PairAssigned(m0, c0, m2, c2, key, key2, uid, uid2)
  {
    assert m1.Keys == m0.Keys + {key};
    assert m2.Keys == m1.Keys + {key2};
    assert key2 in m1 <==> key2 in m0 || key2 == key;
  }

  // ---------------------------------------------------------------------
  // NodeRegistry

  /** Stores the unique node id of every key seen so far. */
  class NodeRegistry<K(==)> {
    var nodeUids: map<K, string>
    var count: nat

    /**
     * Every stored id is one of the ids handed out so far, and no two keys
     * share an id.
     */
    ghost predicate Valid()
      reads this
    {
      && (forall k :: k in nodeUids ==> IssuedBelow(nodeUids[k], count))
      && (forall k1, k2 :: k1 in nodeUids && k2 in nodeUids && nodeUids[k1] == nodeUids[k2] ==> k1 == k2)
    }

    constructor ()
      ensures Valid() && nodeUids == map[] && count == 0
    {
      nodeUids := map[];
      count := 0;
    }

    /** The id of `key`, or nothing if it was never registered. */
    function ExistingUniqueId(key: K): (uid: Option<string>)
      reads this
      ensures uid.Some? <==> key in nodeUids
      ensures uid.Some? ==> uid.value == nodeUids[key]
    {
      if key in nodeUids then Some(nodeUids[key]) else None
    }

    /**
     * `key` now has id `uid`: the id it had before, with the registry
     * unchanged, or else the next counter value, with exactly that key added
     * and the counter one higher.
     */
    twostate predicate AssignedFrom(key: K, uid: string)
      reads this
    {
      Assigned(old(nodeUids), old(count), nodeUids, count, key, uid)
    }

    lemma FreshIdUnused()
      requires Valid()
      ensures NodeId(count) !in nodeUids.Values
    {
      if NodeId(count) in nodeUids.Values {
        var k :| k in nodeUids && nodeUids[k] == NodeId(count);
        var n: nat :| n < count && nodeUids[k] == NodeId(n);
        NodeIdInjective(n, count);
      }
    }

    /** Lookup-or-assign: the stored id of a known key, else `"c" + count++`. */
    method NodeUniqueId(key: K) returns (uid: string)
      requires Valid()
      modifies this
      ensures Valid() && AssignedFrom(key, uid)
      ensures old(nodeUids).Values <= nodeUids.Values
      ensures key !in old(nodeUids) ==> uid !in old(nodeUids).Values
    {
      if key in nodeUids {
        return nodeUids[key];
      }
      uid := NodeId(count);
      FreshIdUnused();
      ghost var before := nodeUids;
      nodeUids := nodeUids[key := uid];
      count := count + 1;
      forall v | v in before.Values
        ensures v in nodeUids.Values
      {
        var k :| k in before && before[k] == v;
        assert nodeUids[k] == v;
      }
    }

    /** The ids of two keys, registering whichever is new, the first one first. */
    method NodeUniqueIds(key: K, key2: K) returns (uid: string, uid2: string)
      requires Valid()
      modifies this
      ensures Valid() && PairAssigned(old(nodeUids), old(count), nodeUids, count, key, key2, uid, uid2)
    {
      ghost var before, n := nodeUids, count;
      uid := NodeUniqueId(key);
      ghost var middle, m := nodeUids, count;
      uid2 := NodeUniqueId(key2);
      PairAssignedStep(before, n, middle, m, nodeUids, count, key, key2, uid, uid2);
    }

  }

  // ---------------------------------------------------------------------
  // Associations

  /** A directed edge; two associations are equal when their endpoints are. */
  class Association {
    const sourceId: string
    const targetId: string
    var labelText: Option<string>
    var comment: Option<string>
    var options: Option<string>

    constructor (sourceId: string, targetId: string)
      ensures this.sourceId == sourceId && this.targetId == targetId
      ensures labelText.None? && comment.None? && options.None?
    {
      this.sourceId := sourceId;
      this.targetId := targetId;
      labelText := None;
      comment := None;
      options := None;
    }

    /** Java `equals`: the same source and the same target, whatever the label. */
    predicate Equals(other: Association): (r: bool)
      ensures r <==> sourceId == other.sourceId && targetId == other.targetId
    {
      sourceId == other.sourceId && targetId == other.targetId
    }

    /** A missing or empty label leaves the current one in place. */
    method SetLabel(labelText: Option<string>)
      modifies this`labelText
      ensures this.labelText ==
        if labelText.Some? && |labelText.value| > 0 then labelText else old(this.labelText)
    {
      if labelText.Some? && |labelText.value| > 0 {
        this.labelText := labelText;
      }
    }

    method SetComment(comment: Option<string>)
      modifies this`comment
      ensures this.comment == comment
    {
      this.comment := comment;
    }

    method SetOptions(options: Option<string>)
      modifies this`options
      ensures this.options == options
    {
      this.options := options;
    }

    /** Sets each of the label, comment and options that is given. */
    method SetGiven(labelText: Option<string>, comment: Option<string>, options: Option<string>)
      modifies this`labelText, this`comment, this`options
      ensures this.labelText ==
        if labelText.Some? && |labelText.value| > 0 then labelText else old(this.labelText)
      ensures this.comment == if comment.Some? then comment else old(this.comment)
      ensures this.options == if options.Some? then options else old(this.options)
    {
      if labelText.Some? {
        SetLabel(labelText);
      }
      if comment.Some? {
        SetComment(comment);
      }
      if options.Some? {
        SetOptions(options);
      }
    }

    /** The label attribute, `label="<label>"`, when there is a label. */
    function DisplayLabel(): Option<string>
      reads this
    {
      if labelText.Some? then Some("label=\"" + labelText.value + "\"") else None
    }

    /**
     * The edge statement: the comment line (with `null` for no comment),
     * `<source> -> <target> [`, the label attribute only when there is a
     * label, the options, `];`.
     */
    function Render(): (r: string)
      reads this
      ensures DotRenderer.StartsWith(r, DotRenderer.EdgeHead(sourceId, targetId, comment))
      ensures DotRenderer.EndsWith(r, "];")
      ensures labelText.Some? ==>
        DotRenderer.OccursAt(r, "label=\"" + labelText.value + "\"" + "  , ",
                             |DotRenderer.EdgeHead(sourceId, targetId, comment)|)
      ensures options.Some? ==> DotRenderer.OccursAt(r, options.value, |r| - 2 - |options.value|)
      ensures |r| == |DotRenderer.EdgeHead(sourceId, targetId, comment)|
                     + (if labelText.Some? then |labelText.value| + 12 else 0)
                     + (if options.Some? then |options.value| else 0) + 2
    {
      DotRenderer.Edge(Some(sourceId), Some(targetId), comment, DisplayLabel(), options)
    }
  }

  /** No two associations of `s` are equal. */
  predicate DistinctEndpoints(s: seq<Association>) {
    forall i, j :: 0 <= i < j < |s| ==> !s[i].Equals(s[j])
  }

  /**
   * `HashSet.add`: `a` joins `s` unless an equal association is already
   * there, which is then kept.
   */
  function WithAssociation(s: seq<Association>, a: Association): (r: seq<Association>)
    ensures DistinctEndpoints(s) ==> DistinctEndpoints(r)
    ensures exists i :: 0 <= i < |r| && r[i].Equals(a)
    ensures (exists i :: 0 <= i < |s| && s[i].Equals(a)) <==> r == s
    ensures r == s || r == s + [a]
  {
    if exists i :: 0 <= i < |s| && s[i].Equals(a) then s
    else
      assert (s + [a])[|s|] == a;
      s + [a]
  }

  /** Renders the associations one after another. */
  function RenderEdges(s: seq<Association>): (r: string)
    reads s
    ensures r == "" <==> s == []
  {
    if s == [] then "" else s[0].Render() + RenderEdges(s[1..])
  }

  // ---------------------------------------------------------------------
  // The container tree

  /** Which Java class an element stands for; a digraph carries its direction hint. */
  datatype Kind = NodeKind | ClusterKind | DigraphKind(dir: Option<string>)

  /** A `// comment` line when there is a comment. */
  function CommentLine(comment: Option<string>): string {
    if comment.Some? then DotRenderer.WithDotNewLine(comment.value) else ""
  }

  /** A digraph, cluster or node of the tree. */
  class AbstractNode<K(==)> {
    const registry: NodeRegistry<K>
    const id: string
    const kind: Kind
    /** The graph this element belongs to. */
    ghost const owner: DotGraph<K>
    /** Greater than the rank of the element that created it. */
    ghost const rank: nat
    var comment: Option<string>
    var labelText: Option<string>
    var options: Option<string>
    /** The decorated stereotypes, each once. */
    var stereotypes: seq<string>
    /** The children, by id. */
    var nodes: map<string, AbstractNode<K>>
    /** The associations added to this element, no two equal. */
    var associations: seq<Association>

    constructor (registry: NodeRegistry<K>, id: string, kind: Kind, ghost owner: DotGraph<K>, ghost rank: nat)
      ensures this.registry == registry && this.id == id && this.kind == kind
      ensures this.owner == owner && this.rank == rank
      ensures Blank()
    {
      this.registry := registry;
      this.id := id;
      this.kind := kind;
      this.owner := owner;
      this.rank := rank;
      comment := None;
      labelText := None;
      options := None;
      stereotypes := [];
      nodes := map[];
      associations := [];
    }

    /** Nothing set, nothing added. */
    ghost predicate Blank()
      reads this
    {
      && comment.None? && labelText.None? && options.None?
      && stereotypes == [] && nodes == map[] && associations == []
    }

    /** This element belongs to a well-formed graph. */
    ghost predicate InGraph()
      reads owner, owner.registry, owner.Repr
    {
      owner.Valid() && this in owner.Repr
    }

    /** Java `toString`, by which children are sorted. */
    function ToString(): (r: string)
      ensures kind == NodeKind ==> |r| == |id| + 4 && r[4..] == id
      ensures kind != NodeKind ==> |r| == |id| + 8 && r[8..] == id
      ensures kind == NodeKind <==> r[0] == 'N'
      ensures kind == ClusterKind <==> r[0] == 'C'
      ensures kind.DigraphKind? <==> r[0] == 'D'
    {
      match kind
      case NodeKind => "Node" + id
      case ClusterKind => "Cluster " + id
      case DigraphKind(_) => "Digraph " + id
    }

    method SetComment(comment: Option<string>)
      requires InGraph()
      modifies this`comment
      ensures InGraph() && this.comment == comment
    {
      this.comment := comment;
    }

    method SetLabel(labelText: Option<string>)
      requires InGraph()
      modifies this`labelText
      ensures InGraph() && this.labelText == labelText
    {
      this.labelText := labelText;
    }

    method SetOptions(options: Option<string>)
      requires InGraph()
      modifies this`options
      ensures InGraph() && this.options == options
    {
      this.options := options;
    }

    /** Adds the decorated stereotype unless it is already there. */
    method AddStereotype(stereotype: Option<string>)
      requires InGraph()
      modifies this`stereotypes
      ensures InGraph()
      ensures var tag := DotRenderer.Stereotype(DotRenderer.Text(stereotype));
        stereotypes == if tag in old(stereotypes) then old(stereotypes) else old(stereotypes) + [tag]
    {
      var tag := DotRenderer.Stereotype(DotRenderer.Text(stereotype));
      if tag !in stereotypes {
        stereotypes := stereotypes + [tag];
      }
    }

    /**
     * The child with id `uid`, created blank with the given kind if there is
     * none. Shared by `addNode`, `addCluster` and `addPossibleNode`.
     */
    method ChildFor(uid: string, childKind: Kind) returns (child: AbstractNode<K>)
      requires InGraph() && !childKind.DigraphKind? && uid in registry.nodeUids.Values
      requires uid in nodes ==> nodes[uid].kind == childKind
      modifies this`nodes, owner`Repr, owner`nextRank
      ensures InGraph() && child in owner.Repr && child.id == uid && child.kind == childKind
      ensures uid in old(nodes) ==> child == old(nodes)[uid] && nodes == old(nodes)
      ensures uid !in old(nodes) ==>
        fresh(child) && child.Blank() && nodes == old(nodes)[uid := child]
    {
      if uid in nodes {
        child := nodes[uid];
      } else {
        child := new AbstractNode(registry, uid, childKind, owner, owner.nextRank);
        owner.nextRank := owner.nextRank + 1;
        owner.Repr := owner.Repr + {child};
        nodes := nodes[uid := child];
        NewChildKeepsValid(uid);
      }
    }

    /** Hanging a new blank element here at `uid` keeps the graph well formed. */
    twostate lemma NewChildKeepsValid(uid: string)
      requires old(owner.Valid()) && this in old(owner.Repr) && uid !in old(nodes) && uid in nodes
      requires var child := nodes[uid];
        && child !in old(owner.Repr) && owner.Repr == old(owner.Repr) + {child}
        && owner.nextRank == old(owner.nextRank) + 1
        && child.owner == owner && child.registry == registry && child.rank == old(owner.nextRank)
        && child.id == uid && !child.kind.DigraphKind? && child.Blank()
      requires unchanged(registry) && owner.root == old(owner.root) && owner.Edges == old(owner.Edges)
      requires uid in registry.nodeUids.Values && nodes == old(nodes)[uid := nodes[uid]]
      requires associations == old(associations) && stereotypes == old(stereotypes)
      requires forall e :: e in old(owner.Repr) && e != this ==>
        e.nodes == old(e.nodes) && e.associations == old(e.associations) && e.stereotypes == old(e.stereotypes)
      ensures owner.Valid()
    {
      var g, child := owner, nodes[uid];
      assert g.Members();
      forall e | e in g.Repr
        ensures g.ElementOk(e)
      {
        if e != child {
          assert old(g.ElementOk(e));
          forall u | u in e.nodes
            ensures g.ChildOk(e, u)
          {
            if e != this || u != uid {
              assert old(g.ChildOk(e, u));
            }
          }
        }
      }
    }

    /**
     * Lookup-or-create a node child for a registered key; nothing for a key
     * never registered.
     */
    method AddPossibleNode(key: K) returns (node: Option<AbstractNode<K>>)
      requires InGraph()
      requires key in registry.nodeUids && registry.nodeUids[key] in nodes ==>
        nodes[registry.nodeUids[key]].kind == NodeKind
      modifies this`nodes, owner`Repr, owner`nextRank
      ensures InGraph()
      ensures unchanged(registry)
      ensures node.None? <==> key !in registry.nodeUids
      ensures node.None? ==> nodes == old(nodes)
      ensures node.Some? ==>
        var uid := registry.nodeUids[key];
        && node.value in owner.Repr && node.value.id == uid && node.value.kind == NodeKind
        && (uid in old(nodes) ==> node.value == old(nodes)[uid] && nodes == old(nodes))
        && (uid !in old(nodes) ==>
              fresh(node.value) && node.value.Blank() && nodes == old(nodes)[uid := node.value])
    {
      var uid := registry.ExistingUniqueId(key);
      if uid.None? {
        return None;
      }
      var child := ChildFor(uid.value, NodeKind);
      node := Some(child);
    }

    /** Lookup-or-create the node child of a key, registering the key if new. */
    method AddNode(key: K) returns (node: AbstractNode<K>)
      requires InGraph()
      requires key in registry.nodeUids && registry.nodeUids[key] in nodes ==>
        nodes[registry.nodeUids[key]].kind == NodeKind
      modifies this`nodes, registry, owner`Repr, owner`nextRank
      ensures InGraph() && node in owner.Repr && node.kind == NodeKind
      ensures registry.AssignedFrom(key, node.id)
      ensures node.id in old(nodes) ==> node == old(nodes)[node.id] && nodes == old(nodes)
      ensures node.id !in old(nodes) ==>
        fresh(node) && node.Blank() && nodes == old(nodes)[node.id := node]
    {
      var uid := registry.NodeUniqueId(key);
      assert uid in nodes ==> old(owner.ChildOk(this, uid));
      owner.RegistryGrowthKeepsValid();
      node := ChildFor(uid, NodeKind);
    }

    /** Lookup-or-create the cluster child of a key, registering the key if new. */
    method AddCluster(key: K) returns (cluster: AbstractNode<K>)
      requires InGraph()
      requires key in registry.nodeUids && registry.nodeUids[key] in nodes ==>
        nodes[registry.nodeUids[key]].kind == ClusterKind
      modifies this`nodes, registry, owner`Repr, owner`nextRank
      ensures InGraph() && cluster in owner.Repr && cluster.kind == ClusterKind
      ensures registry.AssignedFrom(key, cluster.id)
      ensures cluster.id in old(nodes) ==> cluster == old(nodes)[cluster.id] && nodes == old(nodes)
      ensures cluster.id !in old(nodes) ==>
        fresh(cluster) && cluster.Blank() && nodes == old(nodes)[cluster.id := cluster]
    {
      var uid := registry.NodeUniqueId(key);
      assert uid in nodes ==> old(owner.ChildOk(this, uid));
      owner.RegistryGrowthKeepsValid();
      cluster := ChildFor(uid, ClusterKind);
    }

    /** Adds `a` to this element's associations unless an equal one is there. */
    method Associate(a: Association)
      requires InGraph()
      modifies this`associations, owner`Edges
      ensures InGraph()
      ensures associations == WithAssociation(old(associations), a)
      ensures owner.Edges == old(owner.Edges) + {a}
    {
      associations := WithAssociation(associations, a);
      owner.Edges := owner.Edges + {a};
    }

    /**
     * An association between two registered keys; nothing, and no change at
     * all, when either key was never registered.
     */
    method AddExistingAssociation(sourceKey: K, targetKey: K) returns (a: Option<Association>)
      requires InGraph()
      modifies this`associations, owner`Edges
      ensures InGraph()
      ensures unchanged(registry)
      ensures a.None? <==> sourceKey !in registry.nodeUids || targetKey !in registry.nodeUids
      ensures a.None? ==> associations == old(associations) && owner.Edges == old(owner.Edges)
      ensures a.None? ==> owner.Render() == old(owner.Render())
      ensures a.Some? ==>
        && fresh(a.value)
        && a.value.sourceId == registry.nodeUids[sourceKey]
        && a.value.targetId == registry.nodeUids[targetKey]
        && a.value.labelText.None? && a.value.comment.None? && a.value.options.None?
        && associations == WithAssociation(old(associations), a.value)
    {
      var uid := registry.ExistingUniqueId(sourceKey);
      var uid2 := registry.ExistingUniqueId(targetKey);
      if uid.Some? && uid2.Some? {
        var association := new Association(uid.value, uid2.value);
        Associate(association);
        return Some(association);
      }
      return None;
    }

    /**
     * As `AddExistingAssociation`, then sets the label, comment and options
     * that are given on the new association, which is what is returned even
     * when an equal association was already present (and is kept).
     */
    method AddExistingAssociationWith(sourceKey: K, targetKey: K, labelText: Option<string>,
                                      comment: Option<string>, options: Option<string>)
      returns (a: Option<Association>)
      requires InGraph()
      modifies this`associations, owner`Edges
      ensures InGraph()
      ensures unchanged(registry)
      ensures a.None? <==> sourceKey !in registry.nodeUids || targetKey !in registry.nodeUids
      ensures a.None? ==> associations == old(associations) && owner.Edges == old(owner.Edges)
      ensures a.Some? ==>
        && fresh(a.value)
        && a.value.sourceId == registry.nodeUids[sourceKey]
        && a.value.targetId == registry.nodeUids[targetKey]
        && a.value.labelText == (if labelText.Some? && |labelText.value| > 0 then labelText else None)
        && a.value.comment == comment && a.value.options == options
        && associations == WithAssociation(old(associations), a.value)
    {
      var uid := registry.ExistingUniqueId(sourceKey);
      var uid2 := registry.ExistingUniqueId(targetKey);
      if uid.Some? && uid2.Some? {
        var association := new Association(uid.value, uid2.value);
        association.SetGiven(labelText, comment, options);
        Associate(association);
        return Some(association);
      }
      return None;
    }

    /**
     * An association between two keys, registering whichever is new; no
     * child is created for them.
     */
    method AddAssociation(sourceKey: K, targetKey: K) returns (a: Association)
      requires InGraph()
      modifies this`associations, owner`Edges, registry
      ensures InGraph()
      ensures nodes == old(nodes)
      ensures PairAssigned(old(registry.nodeUids), old(registry.count), registry.nodeUids, registry.count,
                           sourceKey, targetKey, a.sourceId, a.targetId)
      ensures fresh(a)
      ensures a.labelText.None? && a.comment.None? && a.options.None?
      ensures associations == WithAssociation(old(associations), a)
    {
      ghost var children := nodes;
      var uid, uid2 := registry.NodeUniqueIds(sourceKey, targetKey);
      ghost var uids, count := registry.nodeUids, registry.count;
      owner.RegistryGrowthKeepsValid();
      a := new Association(uid, uid2);
      Associate(a);
      assert nodes == children;
      assert registry.nodeUids == uids && registry.count == count;
    }

    // -------------------------------------------------------------------
    // Rendering

    /** Each child's id displayed as its `toString`. */
    function Displays(): map<string, string>
      reads this
    {
      map u | u in nodes :: nodes[u].ToString()
    }

    lemma DisplaysInjective()
      requires InGraph()
      ensures Strings.Injective(Displays())
    {
      forall u, v | u in Displays() && v in Displays() && Displays()[u] == Displays()[v]
        ensures u == v
      {
        var a, b := nodes[u], nodes[v];
        assert a.id == u && b.id == v;
        assert a.ToString()[0] == b.ToString()[0];
        if a.kind == NodeKind {
          assert b.kind == NodeKind;
          assert a.ToString()[4..] == u && b.ToString()[4..] == v;
        } else {
          assert a.kind == ClusterKind && b.kind == ClusterKind;
          assert a.ToString()[8..] == u && b.ToString()[8..] == v;
        }
      }
    }

    /** The ids of the children in increasing order of their `toString`. */
    function ChildOrder(): (order: seq<string>)
      reads this, owner, owner.registry, owner.Repr
      requires InGraph()
      ensures forall u :: u in order <==> u in nodes
    {
      DisplaysInjective();
      Strings.SortedKeysSpec(Displays());
      Strings.SortedKeys(Displays())
    }

    /** The cells of a node's record label: the label, then the stereotypes. */
    function NodeLabel(): string
      reads this
      requires labelText.Some?
    {
      DotRenderer.Wrapped(DotRenderer.Join([labelText.value] + stereotypes, DotRenderer.CELL_SEPARATOR),
                          NODE_LABEL_WIDTH)
    }

    /** A cluster's heading: its label if any, then its stereotypes. */
    function ClusterHeading(): string
      reads this
    {
      DotRenderer.Join((if labelText.Some? then [labelText.value] else []) + stereotypes,
                       DotRenderer.CELL_SEPARATOR)
    }

    /**
     * `render()`. A node: nothing without a label, else its comment, its
     * declaration and its associations (its own children are not rendered).
     * A cluster: its block with heading, sorted children and associations;
     * its comment is not rendered. The digraph: the header, sorted children,
     * associations and the closing brace.
     */
    function Render(): (r: string)
      reads this, owner, owner.registry, owner.Repr, owner.Edges
      requires InGraph()
      ensures kind == NodeKind ==> (r == "" <==> labelText.None?)
      decreases owner.nextRank - rank, 2
    {
      assert owner.ElementOk(this);
      match kind
      case NodeKind =>
        if labelText.None? then ""
        else
          var node := DotRenderer.Node(id, NodeLabel(), options);
          assert |node| > 0;
          CommentLine(comment) + node + RenderEdges(associations)
      case ClusterKind =>
        RenderCluster()
      case DigraphKind(_) =>
        RenderDigraph()
    }

    /**
     * A cluster's block: `subgraph cluster_<id> {` and its heading, then its
     * sorted children, its associations and the closing brace. Its comment
     * is not rendered.
     */
    function RenderCluster(): (r: string)
      reads this, owner, owner.registry, owner.Repr, owner.Edges
      requires InGraph() && kind == ClusterKind
      ensures DotRenderer.StartsWith(r, DotRenderer.OpenCluster(CLUSTER_PREFIX + id) + DotRenderer.Cluster(ClusterHeading()))
      ensures DotRenderer.OccursAt(r, RenderChildren(ChildOrder()),
                                   |DotRenderer.OpenCluster(CLUSTER_PREFIX + id) + DotRenderer.Cluster(ClusterHeading())|)
      ensures DotRenderer.EndsWith(r, RenderEdges(associations) + DotRenderer.CloseCluster())
      ensures |r| == |DotRenderer.OpenCluster(CLUSTER_PREFIX + id) + DotRenderer.Cluster(ClusterHeading())|
                     + |RenderChildren(ChildOrder())| + |RenderEdges(associations) + DotRenderer.CloseCluster()|
      decreases owner.nextRank - rank, 1
    {
      assert owner.ElementOk(this);
      var head := DotRenderer.OpenCluster(CLUSTER_PREFIX + id) + DotRenderer.Cluster(ClusterHeading());
      var body, edges := RenderChildren(ChildOrder()), RenderEdges(associations);
      DotRenderer.Parts4(head, body, edges, DotRenderer.CloseCluster());
      head + body + edges + DotRenderer.CloseCluster()
    }

    /**
     * The whole document: the graph header for the digraph's label, then its
     * sorted children, its associations and the closing brace.
     */
    function RenderDigraph(): (r: string)
      reads this, owner, owner.registry, owner.Repr, owner.Edges
      requires InGraph() && kind.DigraphKind?
      ensures DotRenderer.StartsWith(r, DotRenderer.OpenGraph(labelText))
      ensures DotRenderer.OccursAt(r, RenderChildren(ChildOrder()), |DotRenderer.OpenGraph(labelText)|)
      ensures DotRenderer.EndsWith(r, RenderEdges(associations) + DotRenderer.CloseGraph())
      ensures |r| == |DotRenderer.OpenGraph(labelText)| + |RenderChildren(ChildOrder())|
                     + |RenderEdges(associations) + DotRenderer.CloseGraph()|
      decreases owner.nextRank - rank, 1
    {
      assert owner.ElementOk(this);
      var head := DotRenderer.OpenGraph(labelText);
      var body, edges := RenderChildren(ChildOrder()), RenderEdges(associations);
      DotRenderer.Parts4(head, body, edges, DotRenderer.CloseGraph());
      head + body + edges + DotRenderer.CloseGraph()
    }

    /** `renderNodes`: the children with the given ids, rendered in that order. */
    function RenderChildren(order: seq<string>): (r: string)
      reads this, owner, owner.registry, owner.Repr, owner.Edges
      requires InGraph() && forall u :: u in order ==> u in nodes
      decreases owner.nextRank - rank, 0, |order|
      ensures r == "" <==> AllSilent(order)
    {
      if order == [] then ""
      else nodes[order[0]].Render() + RenderChildren(order[1..])
    }

    /** None of the children with the given ids renders anything. */
    predicate AllSilent(order: seq<string>)
      reads this, owner, owner.registry, owner.Repr, owner.Edges
      requires InGraph() && forall u :: u in order ==> u in nodes
      decreases owner.nextRank - rank, 0, |order|, 0
    {
      forall u :: u in order ==> nodes[u].Render() == ""
    }
  }

  // ---------------------------------------------------------------------
  // The graph

  /** The digraph and the registry shared by all its elements. */
  class DotGraph<K(==)> {
    const registry: NodeRegistry<K>
    var root: AbstractNode?<K>
    /** Every element of the tree. */
    ghost var Repr: set<AbstractNode<K>>
    /** Every association held by an element. */
    ghost var Edges: set<Association>
    /** Greater than the rank of every element. */
    ghost var nextRank: nat

    ghost predicate Valid()
      reads this, registry, Repr
    {
      && registry.Valid()
      && root != null && root in Repr && root.kind.DigraphKind?
      && Members()
      && (forall e :: e in Repr ==> ElementOk(e))
    }

    /** Every element belongs to this graph, shares its registry and ranks below `nextRank`. */
    ghost predicate Members()
      reads this
    {
      forall e :: e in Repr ==> e.owner == this && e.registry == registry && e.rank < nextRank
    }

    /** The child of `e` under `u` is an element of higher rank, a node or cluster with id `u`. */
    ghost predicate ChildOk(e: AbstractNode<K>, u: string)
      reads this, registry, e
      requires u in e.nodes
    {
      var c := e.nodes[u];
      c in Repr && c.rank > e.rank && c.id == u && !c.kind.DigraphKind? && u in registry.nodeUids.Values
    }

    /** The children, associations and stereotypes of `e` are well formed. */
    ghost predicate ElementOk(e: AbstractNode<K>)
      reads this, registry, e
    {
      && (forall u :: u in e.nodes ==> ChildOk(e, u))
      && (forall a :: a in e.associations ==> a in Edges)
      && DistinctEndpoints(e.associations) && NoDuplicates(e.stereotypes)
    }

    /** Registering more keys keeps a graph well formed. */
    twostate lemma RegistryGrowthKeepsValid()
      requires old(Valid()) && unchanged(this) && unchanged(Repr)
      requires registry.Valid() && old(registry.nodeUids.Values) <= registry.nodeUids.Values
      ensures Valid()
    {
      forall e | e in Repr
        ensures ElementOk(e)
      {
        assert old(ElementOk(e));
        forall u | u in e.nodes
          ensures ChildOk(e, u)
        {
          assert old(ChildOk(e, u));
        }
      }
    }

    /** A graph with the given title and direction hint, and nothing in it. */
    constructor (title: Option<string>, dir: Option<string>)
      ensures Valid() && fresh(registry) && registry.nodeUids == map[] && registry.count == 0
      ensures fresh(root) && root.kind == DigraphKind(dir) && root.labelText == title
      ensures root.nodes == map[] && root.associations == [] && Repr == {root}
      ensures root.id == DotRenderer.Text(title)
      ensures root.comment.None? && root.options.None? && root.stereotypes == []
    {
      registry := new NodeRegistry();
      new;
      var digraph := new AbstractNode(registry, DotRenderer.Text(title), DigraphKind(dir), this, 0);
      digraph.labelText := title;
      root := digraph;
      Repr := {digraph};
      Edges := {};
      nextRank := 1;
      assert ElementOk(digraph);
    }

    /** The root container. */
    function GetDigraph(): (d: AbstractNode<K>)
      reads this, registry, Repr
      requires Valid()
      ensures d.kind.DigraphKind? && d in Repr && d.owner == this && d.InGraph()
    {
      root
    }

    /** Registers a key ahead of use and returns its id. */
    method PreloadNode(key: K) returns (uid: string)
      requires Valid()
      modifies registry
      ensures Valid() && registry.AssignedFrom(key, uid)
    {
      uid := registry.NodeUniqueId(key);
      RegistryGrowthKeepsValid();
    }

    /** The DOT document of the whole graph. */
    function Render(): (r: string)
      reads this, registry, Repr, Edges
      requires Valid()
      ensures DotRenderer.StartsWith(r, DotRenderer.OpenGraph(root.labelText))
      ensures DotRenderer.OccursAt(r, root.RenderChildren(root.ChildOrder()), |DotRenderer.OpenGraph(root.labelText)|)
      ensures DotRenderer.EndsWith(r, RenderEdges(root.associations) + DotRenderer.CloseGraph())
      ensures DotRenderer.EndsWith(r, DotRenderer.CloseGraph())
      ensures |r| == |DotRenderer.OpenGraph(root.labelText)| + |root.RenderChildren(root.ChildOrder())|
                     + |RenderEdges(root.associations) + DotRenderer.CloseGraph()|
    {
      var r := root.RenderDigraph();
      var tail := RenderEdges(root.associations) + DotRenderer.CloseGraph();
      assert r[|r| - |tail|..][|tail| - |DotRenderer.CloseGraph()|..] == DotRenderer.CloseGraph();
      r
    }
  }
}
