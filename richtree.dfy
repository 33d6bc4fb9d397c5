/**
 * Rich's `Tree` as an arena: node 0 is the root, every node has a label and
 * the ordered list of its children's indices, and `add` appends a new node
 * under a parent and hands back the new node's index.
 */
module RichTree {

  datatype Arena = Arena(labels: seq<string>, children: seq<seq<nat>>)

  /**
   * A root exists, every node has a child list, every child is a later node,
   * and each child list is in the order the children were added.
   */
  ghost predicate WellFormed(a: Arena) {
    && |a.labels| >= 1
    && |a.children| == |a.labels|
    && (forall p, k :: 0 <= p < |a.children| && 0 <= k < |a.children[p]| ==>
          p < a.children[p][k] < |a.labels|)
    && (forall p, k, l :: 0 <= p < |a.children| && 0 <= k < l < |a.children[p]| ==>
          a.children[p][k] < a.children[p][l])
  }

  /** `b` is `a` with nodes and children appended only: nothing of `a` changed. */
  ghost predicate Extends(a: Arena, b: Arena) {
    && |a.labels| <= |b.labels|
    && b.labels[..|a.labels|] == a.labels
    && |a.children| <= |b.children|
    && (forall p :: 0 <= p < |a.children| ==>
          |a.children[p]| <= |b.children[p]| && b.children[p][..|a.children[p]|] == a.children[p])
  }

  lemma ExtendsTransitive(a: Arena, b: Arena, c: Arena)
    requires Extends(a, b) && Extends(b, c)
    ensures Extends(a, c)
  {
    forall p | 0 <= p < |a.children|
      ensures b.children[p][..|a.children[p]|] == c.children[p][..|a.children[p]|]
    {
      assert c.children[p][..|a.children[p]|] == c.children[p][..|b.children[p]|][..|a.children[p]|];
    }
  }

  /** No node is listed as the child of two different nodes. */
  ghost predicate SingleParent(a: Arena) {
    forall p, q, x :: 0 <= p < q < |a.children| && x in a.children[p] ==> x !in a.children[q]
  }

  /** Node `n` exists and carries `text`. */
  ghost predicate HasLabel(a: Arena, n: nat, text: string) {
    n < |a.labels| && a.labels[n] == text
  }

  /** Node `n` is a child of node `parent`. */
  ghost predicate IsChild(a: Arena, parent: nat, n: nat) {
    parent < |a.children| && n in a.children[parent]
  }

  /** In a tree where no node has two parents, a child's parent is unique. */
  lemma OnlyParent(a: Arena, p: nat, q: nat, x: nat)
    requires SingleParent(a) && IsChild(a, p, x) && IsChild(a, q, x)
    ensures p == q
  {
  }

  /** A child recorded in `a` is still a child of the same node in `b`. */
  lemma ExtendsKeeps(a: Arena, b: Arena, p: nat, x: nat)
    requires Extends(a, b) && p < |a.children| && x in a.children[p]
    ensures x in b.children[p]
  {
    var k :| 0 <= k < |a.children[p]| && a.children[p][k] == x;
    assert b.children[p][..|a.children[p]|][k] == x;
  }

  /** A labelled child recorded in `a` keeps its label and its parent in `b`. */
  lemma ExtendsKeepsNode(a: Arena, b: Arena, p: nat, x: nat, text: string)
    requires Extends(a, b) && HasLabel(a, x, text) && IsChild(a, p, x)
    ensures HasLabel(b, x, text) && IsChild(b, p, x)
  {
    ExtendsKeeps(a, b, p, x);
  }

  /** The tree after `parent.add(label)`; the new node's index is `|a.labels|`. */
  function Added(a: Arena, parent: nat, text: string): (r: Arena)
    requires WellFormed(a) && parent < |a.labels|
    ensures WellFormed(r) && Extends(a, r)
    ensures |r.labels| == |a.labels| + 1 && r.labels[|a.labels|] == text
    ensures r.children[parent] == a.children[parent] + [|a.labels|]
    ensures r.children[|a.labels|] == []
    ensures forall p :: 0 <= p < |a.children| && p != parent ==> r.children[p] == a.children[p]
    ensures SingleParent(a) ==> SingleParent(r)
  {
    var r := Arena(a.labels + [text], a.children[parent := a.children[parent] + [|a.labels|]] + [[]]);
    assert SingleParent(a) ==> SingleParent(r) by {
      if SingleParent(a) {
        forall p, q, x | 0 <= p < q < |r.children| && x in r.children[p]
          ensures x !in r.children[q]
        {
          if x == |a.labels| {
            assert p == parent;
          } else if q < |a.children| {
            assert x in a.children[p] && (q == parent || x !in r.children[q]);
          }
        }
      }
    }
    r
  }

  /** The rendered tree object, with its nodes stored in one arena. */
  class Tree {
    var labels: seq<string>
    var children: seq<seq<nat>>

    function Snapshot(): Arena
      reads this
    {
      Arena(labels, children)
    }

    ghost predicate Valid()
      reads this
    {
      WellFormed(Snapshot())
    }

    /** `Tree(label)`: a root with no children. */
    constructor (text: string)
      ensures Valid() && labels == [text] && children == [[]]
    {
      labels := [text];
      children := [[]];
    }

    /** `node.add(label)` on the node with index `parent`. */
    method Add(parent: nat, text: string) returns (node: nat)
      requires Valid() && parent < |labels|
      modifies this
      ensures Valid()
      ensures node == old(|labels|)
      ensures Snapshot() == Added(old(Snapshot()), parent, text)
    {
      node := |labels|;
      labels := labels + [text];
      children := children[parent := children[parent] + [node]] + [[]];
    }
  }
}
