/**
 * What rendering promises about the tree: the outline of each kind of
 * element, and the order in which a container lists its children.
 */
module GraphProperties {
  import Strings
  import DotRenderer
  import opened DotGraph

  /**
   * A node with no label renders to nothing (not even its associations);
   * a labelled node renders its comment line, then its declaration, and
   * ends with its associations.
   */
  lemma NodeRenderShape<K>(n: AbstractNode<K>)
    requires n.InGraph() && n.kind == NodeKind
    ensures n.Render() == "" <==> n.labelText.None?
    ensures n.labelText.Some? ==>
      && DotRenderer.StartsWith(n.Render(), CommentLine(n.comment) + DotRenderer.Node(n.id, n.NodeLabel(), n.options))
      && DotRenderer.EndsWith(n.Render(), RenderEdges(n.associations))
      && |n.Render()| == |CommentLine(n.comment)| + |DotRenderer.Node(n.id, n.NodeLabel(), n.options)|
                         + |RenderEdges(n.associations)|
  {
    if n.labelText.Some? {
      DotRenderer.Parts(CommentLine(n.comment), DotRenderer.Node(n.id, n.NodeLabel(), n.options),
                        RenderEdges(n.associations));
    }
  }

  /** Rendering a list of ids in two parts is rendering the parts one after the other. */
  lemma {:induction false} RenderChildrenConcat<K>(n: AbstractNode<K>, a: seq<string>, b: seq<string>)
    requires n.InGraph() && (forall u :: u in a ==> u in n.nodes) && (forall u :: u in b ==> u in n.nodes)
    ensures n.RenderChildren(a + b) == n.RenderChildren(a) + n.RenderChildren(b)
    decreases |a|
  {
    if a == [] {
      assert a + b == b;
    } else {
      var ab := a + b;
      assert ab[0] == a[0] && ab[1..] == a[1..] + b;
      RenderChildrenConcat(n, a[1..], b);
      var x, y, z := n.nodes[a[0]].Render(), n.RenderChildren(a[1..]), n.RenderChildren(b);
      assert n.RenderChildren(ab) == x + (y + z);
      assert n.RenderChildren(a) == x + y;
      DotRenderer.Regroup(x, y, z);
    }
  }

  /**
   * `renderNodes` renders the children in the given order: the output is
   * whatever precedes position `k`, then the `k`-th child's own output, then
   * whatever follows.
   */
  lemma RenderChildrenInOrder<K>(n: AbstractNode<K>, order: seq<string>, k: int)
    requires n.InGraph() && (forall u :: u in order ==> u in n.nodes) && 0 <= k < |order|
    ensures n.RenderChildren(order)
         == n.RenderChildren(order[..k]) + n.nodes[order[k]].Render() + n.RenderChildren(order[k + 1..])
  {
    var before, rest, after := order[..k], order[k..], order[k + 1..];
    assert order == before + rest;
    assert rest[0] == order[k] && rest[1..] == after;
    RenderChildrenConcat(n, before, rest);
    var x, y, z := n.RenderChildren(before), n.nodes[order[k]].Render(), n.RenderChildren(after);
    assert n.RenderChildren(rest) == y + z;
    DotRenderer.Regroup(x, y, z);
  }

  /** Rendering associations in two parts is rendering the parts one after the other. */
  lemma {:induction false} RenderEdgesConcat(s: seq<Association>, t: seq<Association>)
    ensures RenderEdges(s + t) == RenderEdges(s) + RenderEdges(t)
    decreases |s|
  {
    if s == [] {
      assert s + t == t;
    } else {
      var st := s + t;
      assert st[0] == s[0] && st[1..] == s[1..] + t;
      RenderEdgesConcat(s[1..], t);
      var x, y, z := s[0].Render(), RenderEdges(s[1..]), RenderEdges(t);
      assert RenderEdges(st) == x + (y + z);
      assert RenderEdges(s) == x + y;
      DotRenderer.Regroup(x, y, z);
    }
  }

  /**
   * An association that joins the end of the kept ones (as `WithAssociation`
   * does for one not yet kept) appends its edge to the rendered associations.
   */
  lemma RenderEdgesAppend(s: seq<Association>, a: Association)
    ensures RenderEdges(s + [a]) == RenderEdges(s) + a.Render()
  {
    RenderEdgesConcat(s, [a]);
    var e := a.Render();
    assert [a][1..] == [];
    assert RenderEdges([a]) == e + "";
    assert e + "" == e;
  }

  /** Children are listed once each, in strictly increasing order of their `toString`. */
  lemma ChildOrderSorted<K>(n: AbstractNode<K>)
    requires n.InGraph()
    ensures |n.ChildOrder()| == |n.nodes|
    ensures forall u :: u in n.ChildOrder() <==> u in n.nodes
    ensures forall i, j :: 0 <= i < j < |n.ChildOrder()| ==>
      Strings.Lt(n.nodes[n.ChildOrder()[i]].ToString(), n.nodes[n.ChildOrder()[j]].ToString())
  {
    var m := n.Displays();
    var order := n.ChildOrder();
    n.DisplaysInjective();
    Strings.SortedKeysSpec(m);
    assert |m| == |n.nodes| by { assert m.Keys == n.nodes.Keys; }
    forall i, j | 0 <= i < j < |order|
      ensures Strings.Lt(n.nodes[order[i]].ToString(), n.nodes[order[j]].ToString())
    {
      assert m[order[i]] == n.nodes[order[i]].ToString();
      assert m[order[j]] == n.nodes[order[j]].ToString();
    }
  }

  /** Since `Cluster …` sorts before `Node…`, every cluster comes before every node. */
  lemma ClustersFirst<K>(n: AbstractNode<K>)
    requires n.InGraph()
    ensures forall i, j :: 0 <= i < j < |n.ChildOrder()| ==>
      !(n.nodes[n.ChildOrder()[i]].kind == NodeKind && n.nodes[n.ChildOrder()[j]].kind == ClusterKind)
  {
    var order := n.ChildOrder();
    ChildOrderSorted(n);
    forall i, j | 0 <= i < j < |order|
      ensures !(n.nodes[order[i]].kind == NodeKind && n.nodes[order[j]].kind == ClusterKind)
    {
      var a, b := n.nodes[order[i]], n.nodes[order[j]];
      if a.kind == NodeKind && b.kind == ClusterKind {
        assert false;
      }
    }
  }
}
