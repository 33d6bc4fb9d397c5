/**
 * `metadata_tree`: the metadata grouped under the root tag of each key.
 *
 * The loop keeps a dict `branches` from root tag to the node where later
 * entries with that tag attach.  The first key with a tag adds a group node
 * under the root.  A key `g:f` adds a node under the root and makes it the
 * new attachment point of `g`; any other key (one segment, or three and
 * more) adds its stripped value as a leaf under the current node of `g`.
 *
 * `BuildTree` is that loop as a fold over the entries; the lemmas describe
 * the resulting tree by entry index, independently of the fold.
 */
module MetadataTree {
  import opened Wrappers
  import opened PyStr
  import opened RichTree

  /** The root label, with the markup exactly as written: `f"[blue]{filepath}[blue]"`. */
  function RootLabel(filepath: string): string {
    "[blue]" + filepath + "[blue]"
  }

  /** `f"[blue]{root_tag}[/blue]"` */
  function GroupLabel(tag: string): string {
    "[blue]" + tag + "[/blue]"
  }

  /** `f"[blue]{tags[1]}:[/blue] {value}"` */
  function FieldLabel(field: string, value: string): string {
    "[blue]" + field + ":[/blue] " + value
  }

  /** The label of a key's own node: `FieldLabel` for a key `g:f`, the stripped value otherwise. */
  function EntryLabel<V>(key: string, value: V, str: V -> string): string {
    if IsPair(key) then FieldLabel(Split(key, ':')[1], str(value)) else Strip(str(value))
  }

  /** The first `:`-separated segment of a key. */
  function RootTag(key: string): string {
    Split(key, ':')[0]
  }

  /** A key of exactly two segments, `group:field`. */
  predicate IsPair(key: string) {
    |Split(key, ':')| == 2
  }

  /** `tagged_values`: one pair per entry, in dict order. */
  function TaggedValues<V>(m: seq<(string, V)>): (r: seq<(seq<string>, V)>)
    ensures |r| == |m|
  {
    if m == [] then [] else [(Split(m[0].0, ':'), m[0].1)] + TaggedValues(m[1..])
  }

  /**
   * Pair `i` of `tagged_values` holds at least one separator-free part, the
   * parts join back to key `i`, and the value is value `i`.
   */
  lemma {:induction false} TaggedValuesParts<V>(m: seq<(string, V)>, i: nat)
    requires i < |m|
    ensures var (tags, value) := TaggedValues(m)[i];
      && |tags| >= 1
      && (forall k :: 0 <= k < |tags| ==> ':' !in tags[k])
      && Join(tags, ':') == m[i].0
      && value == m[i].1
  {
    if i == 0 {
      SplitJoin(m[0].0, ':');
    } else {
      TaggedValuesParts(m[1..], i - 1);
    }
  }

  /** By `JoinSplit`, the parts of pair `i` are exactly `key.split(":")`. */
  lemma TaggedValuesSplit<V>(m: seq<(string, V)>, i: nat)
    requires i < |m|
    ensures TaggedValues(m)[i] == (Split(m[i].0, ':'), m[i].1)
  {
    TaggedValuesParts(m, i);
    JoinSplit(TaggedValues(m)[i].0, ':');
  }

  /** The root tags of all keys of `m`. */
  function RootTags<V>(m: seq<(string, V)>): set<string>
    decreases |m|
  {
    if m == [] then {} else RootTags(m[..|m| - 1]) + {RootTag(m[|m| - 1].0)}
  }

  /** Entry `j` adds its root tag to those of the entries before it. */
  lemma RootTagsAt<V>(m: seq<(string, V)>, j: nat)
    requires j < |m|
    ensures RootTags(m[..j + 1]) == RootTags(m[..j]) + {RootTag(m[j].0)}
  {
    assert m[..j + 1][..j] == m[..j];
  }

  /** Every key's root tag is among the root tags. */
  lemma {:induction false} RootTagsHas<V>(m: seq<(string, V)>, k: nat)
    requires k < |m|
    ensures RootTag(m[k].0) in RootTags(m)
    decreases |m|
  {
    var n := |m| - 1;
    if k < n {
      RootTagsHas(m[..n], k);
      assert m[..n][k] == m[k];
    }
  }

  /** Nothing else is: each root tag is the tag of some key. */
  lemma {:induction false} RootTagsOnly<V>(m: seq<(string, V)>, g: string)
    requires g in RootTags(m)
    ensures exists k :: 0 <= k < |m| && RootTag(m[k].0) == g
    decreases |m|
  {
    var n := |m| - 1;
    if g in RootTags(m[..n]) {
      RootTagsOnly(m[..n], g);
      var k :| 0 <= k < n && RootTag(m[..n][k].0) == g;
      assert m[..n][k] == m[k];
    } else {
      assert RootTag(m[n].0) == g;
    }
  }

  /** The tree being built and the `branches` dict. */
  datatype State = State(tree: Arena, branches: map<string, nat>)

  /** Every branch names an existing node other than the root. */
  ghost predicate Inv(s: State) {
    && WellFormed(s.tree)
    && forall g :: g in s.branches ==> 0 < s.branches[g] < |s.tree.labels|
  }

  /** Node index of a branch, or the new node's index when the tag is new. */
  function Branches(s: State, tag: string): nat {
    if tag in s.branches then s.branches[tag] else |s.tree.labels|
  }

  /** `if root_tag not in branches: branches[root_tag] = tree.add(...)` */
  function EnsureGroup(s: State, tag: string): (r: State)
    requires Inv(s)
    ensures Inv(r) && Extends(s.tree, r.tree)
    ensures tag in s.branches ==> r == s
    ensures tag !in s.branches ==>
              && |r.tree.labels| == |s.tree.labels| + 1
              && r.tree.labels[|s.tree.labels|] == GroupLabel(tag)
              && r.tree.children[0] == s.tree.children[0] + [|s.tree.labels|]
              && r.tree.children[|s.tree.labels|] == []
              && (forall p :: 0 < p < |s.tree.children| ==> r.tree.children[p] == s.tree.children[p])
              && r.branches == s.branches[tag := |s.tree.labels|]
  {
    if tag in s.branches then s
    else State(Added(s.tree, 0, GroupLabel(tag)), s.branches[tag := |s.tree.labels|])
  }

  /** The `if len(tags) == 2 ... else ...` part, once the tag has a branch. */
  function AddEntry<V>(s: State, tags: seq<string>, value: V, str: V -> string): (r: State)
    requires Inv(s) && |tags| >= 1 && tags[0] in s.branches
    ensures Inv(r) && Extends(s.tree, r.tree)
    ensures |r.tree.labels| == |s.tree.labels| + 1
    ensures r.branches.Keys == s.branches.Keys
    ensures var parent := if |tags| == 2 then 0 else s.branches[tags[0]];
      && r.tree.children[parent] == s.tree.children[parent] + [|s.tree.labels|]
      && r.tree.children[|s.tree.labels|] == []
      && forall p :: 0 <= p < |s.tree.children| && p != parent ==> r.tree.children[p] == s.tree.children[p]
    ensures |tags| == 2 ==>
              && r.tree.labels[|s.tree.labels|] == FieldLabel(tags[1], str(value))
              && r.branches == s.branches[tags[0] := |s.tree.labels|]
    ensures |tags| != 2 ==>
              && r.tree.labels[|s.tree.labels|] == Strip(str(value))
              && r.branches == s.branches
  {
    if |tags| == 2
    then State(Added(s.tree, 0, FieldLabel(tags[1], str(value))), s.branches[tags[0] := |s.tree.labels|])
    else State(Added(s.tree, s.branches[tags[0]], Strip(str(value))), s.branches)
  }

  /** One iteration of the loop, on the split key `tags` and its value. */
  function Step<V>(s: State, tags: seq<string>, value: V, str: V -> string): (r: State)
    requires Inv(s) && |tags| >= 1
    ensures Inv(r) && Extends(s.tree, r.tree)
    ensures r.branches.Keys == s.branches.Keys + {tags[0]}
    ensures |r.tree.labels| == |s.tree.labels| + (if tags[0] in s.branches then 1 else 2)
  {
    StepExtends(s, tags, value, str);
    AddEntry(EnsureGroup(s, tags[0]), tags, value, str)
  }

  lemma StepExtends<V>(s: State, tags: seq<string>, value: V, str: V -> string)
    requires Inv(s) && |tags| >= 1
    ensures Extends(s.tree, AddEntry(EnsureGroup(s, tags[0]), tags, value, str).tree)
  {
    var s1 := EnsureGroup(s, tags[0]);
    ExtendsTransitive(s.tree, s1.tree, AddEntry(s1, tags, value, str).tree);
  }

  /** A new tag first gets its group node, as a child of the root. */
  lemma StepGroup<V>(s: State, r: State, tags: seq<string>, value: V, str: V -> string)
    requires Inv(s) && |tags| >= 1 && tags[0] !in s.branches && r == Step(s, tags, value, str)
    ensures HasLabel(r.tree, |s.tree.labels|, GroupLabel(tags[0]))
    ensures IsChild(r.tree, 0, |s.tree.labels|)
  {
    var s1 := EnsureGroup(s, tags[0]);
    assert r == AddEntry(s1, tags, value, str);
    assert r.tree.children[0][..|s1.tree.children[0]|] == s1.tree.children[0];
    assert r.tree.labels[..|s1.tree.labels|] == s1.tree.labels;
  }

  /** A two-segment key's node is the last node, under the root, and becomes the tag's branch. */
  lemma StepPair<V>(s: State, r: State, tags: seq<string>, value: V, str: V -> string)
    requires Inv(s) && |tags| == 2 && r == Step(s, tags, value, str)
    ensures HasLabel(r.tree, |r.tree.labels| - 1, FieldLabel(tags[1], str(value)))
    ensures IsChild(r.tree, 0, |r.tree.labels| - 1)
    ensures tags[0] in r.branches && r.branches[tags[0]] == |r.tree.labels| - 1
  {
    var s1 := EnsureGroup(s, tags[0]);
    assert r == AddEntry(s1, tags, value, str);
    assert |r.tree.labels| - 1 == |s1.tree.labels|;
  }

  /** Any other key's node is the last node, under the tag's branch, which stays where it was. */
  lemma StepLeaf<V>(s: State, r: State, tags: seq<string>, value: V, str: V -> string)
    requires Inv(s) && |tags| >= 1 && |tags| != 2 && r == Step(s, tags, value, str)
    ensures HasLabel(r.tree, |r.tree.labels| - 1, Strip(str(value)))
    ensures tags[0] in r.branches && r.branches[tags[0]] == Branches(s, tags[0])
    ensures IsChild(r.tree, r.branches[tags[0]], |r.tree.labels| - 1)
  {
    var s1 := EnsureGroup(s, tags[0]);
    assert r == AddEntry(s1, tags, value, str);
    assert |r.tree.labels| - 1 == |s1.tree.labels|;
  }

  /** Only the branch of the key's own root tag can move. */
  lemma StepOtherBranches<V>(s: State, tags: seq<string>, value: V, str: V -> string, h: string)
    requires Inv(s) && |tags| >= 1 && h in s.branches && h != tags[0]
    ensures Step(s, tags, value, str).branches[h] == s.branches[h]
  {
  }

  /** `metadata_tree(filepath, metadata)` as a fold of `Step` over the entries. */
  function BuildTree<V>(filepath: string, m: seq<(string, V)>, str: V -> string): (s: State)
    ensures Inv(s)
    ensures s.branches.Keys == RootTags(m)
    ensures |s.tree.labels| == 1 + |m| + |RootTags(m)|
    decreases |m|
  {
    if m == [] then State(Arena([RootLabel(filepath)], [[]]), map[])
    else Step(BuildTree(filepath, m[..|m| - 1], str), Split(m[|m| - 1].0, ':'), m[|m| - 1].1, str)
  }

  /** Later entries only append: the tree built from a prefix is kept as it is. */
  lemma {:induction false} BuildPrefix<V>(filepath: string, m: seq<(string, V)>, str: V -> string, n: nat)
    requires n <= |m|
    ensures Extends(BuildTree(filepath, m[..n], str).tree, BuildTree(filepath, m, str).tree)
    decreases |m|
  {
    if n == |m| {
      assert m[..n] == m;
    } else {
      var p := m[..|m| - 1];
      assert p[..n] == m[..n];
      BuildPrefix(filepath, p, str, n);
      ExtendsTransitive(BuildTree(filepath, m[..n], str).tree, BuildTree(filepath, p, str).tree,
                        BuildTree(filepath, m, str).tree);
    }
  }

  /** One iteration adds nodes under one parent each, so no node gets a second parent. */
  lemma StepSingleParent<V>(s: State, tags: seq<string>, value: V, str: V -> string)
    requires Inv(s) && |tags| >= 1 && SingleParent(s.tree)
    ensures SingleParent(Step(s, tags, value, str).tree)
  {
    var s1 := EnsureGroup(s, tags[0]);
    assert SingleParent(s1.tree);
  }

  /** In the tree `BuildTree` builds, every node has at most one parent. */
  lemma {:induction false} BuildTreeSingleParent<V>(filepath: string, m: seq<(string, V)>, str: V -> string, s: State)
    requires s == BuildTree(filepath, m, str)
    ensures SingleParent(s.tree)
    decreases |m|
  {
    if m != [] {
      var before := BuildTree(filepath, m[..|m| - 1], str);
      BuildTreeSingleParent(filepath, m[..|m| - 1], str, before);
      StepSingleParent(before, Split(m[|m| - 1].0, ':'), m[|m| - 1].1, str);
    }
  }

  /** A node of the tree built from a prefix keeps its label and its parent in the final tree. */
  lemma BuildKeepsNode<V>(filepath: string, m: seq<(string, V)>, str: V -> string, n: nat,
                          here: State, t: Arena, p: nat, x: nat, text: string)
    requires n <= |m| && here == BuildTree(filepath, m[..n], str) && t == BuildTree(filepath, m, str).tree
    requires HasLabel(here.tree, x, text) && IsChild(here.tree, p, x)
    ensures HasLabel(t, x, text) && IsChild(t, p, x)
  {
    BuildPrefix(filepath, m, str, n);
    ExtendsKeepsNode(here.tree, t, p, x, text);
  }

  /** The root keeps the file path label. */
  lemma RootLabelKept<V>(filepath: string, m: seq<(string, V)>, str: V -> string)
    ensures BuildTree(filepath, m, str).tree.labels[0] == RootLabel(filepath)
  {
    BuildPrefix(filepath, m, str, 0);
    assert m[..0] == [];
  }

  /** Index of the node added for entry `i`: the root, one node per earlier entry, one group node per tag seen. */
  ghost function EntryNode<V>(m: seq<(string, V)>, i: nat): nat
    requires i < |m|
  {
    1 + i + |RootTags(m[..i + 1])|
  }

  /** Index of the group node added while processing entry `j`, the first of its tag. */
  ghost function GroupNode<V>(m: seq<(string, V)>, j: nat): nat
    requires j < |m|
  {
    1 + j + |RootTags(m[..j])|
  }

  /** The index of the last two-segment key `g:f` in `m`, if there is one. */
  ghost function LastPair<V>(m: seq<(string, V)>, g: string): (r: Option<nat>)
    ensures r.Some? ==> r.value < |m| && IsPair(m[r.value].0) && RootTag(m[r.value].0) == g
    ensures r.Some? ==> forall k :: r.value < k < |m| ==> !(IsPair(m[k].0) && RootTag(m[k].0) == g)
    ensures r.None? ==> forall k :: 0 <= k < |m| ==> !(IsPair(m[k].0) && RootTag(m[k].0) == g)
    decreases |m|
  {
    if m == [] then None
    else
      var n := |m| - 1;
      if IsPair(m[n].0) && RootTag(m[n].0) == g then Some(n)
      else
        assert forall k :: 0 <= k < n ==> m[..n][k] == m[k];
        LastPair(m[..n], g)
  }

  /** The index of the first key of `m` whose root tag is `g`. */
  ghost function FirstIndex<V>(m: seq<(string, V)>, g: string): (j: nat)
    requires g in RootTags(m)
    ensures j < |m| && RootTag(m[j].0) == g
    ensures forall k :: 0 <= k < j ==> RootTag(m[k].0) != g
    decreases |m|
  {
    var n := |m| - 1;
    if g in RootTags(m[..n]) then
      var j := FirstIndex(m[..n], g);
      assert forall k :: 0 <= k <= j ==> m[..n][k] == m[k];
      j
    else
      assert forall k :: 0 <= k < n ==> RootTag(m[k].0) != g by {
        forall k | 0 <= k < n ensures RootTag(m[k].0) != g {
          RootTagsHas(m[..n], k);
          assert m[..n][k] == m[k];
        }
      }
      n
  }

  /**
   * Where the next one-segment or three-plus-segment key with root tag `g`
   * attaches after the entries `m`: the node of the last key `g:f` when there
   * is one, otherwise the group node of `g`.
   */
  ghost function Attach<V>(m: seq<(string, V)>, g: string): nat
    requires g in RootTags(m)
  {
    match LastPair(m, g)
    case Some(i) => EntryNode(m, i)
    case None => GroupNode(m, FirstIndex(m, g))
  }

  /** Appending an entry with another root tag does not move `g`'s attachment point. */
  lemma {:induction false} AttachOther<V>(m: seq<(string, V)>, e: (string, V), g: string)
    requires g in RootTags(m) && (RootTag(e.0) != g || !IsPair(e.0))
    ensures g in RootTags(m + [e]) && Attach(m + [e], g) == Attach(m, g)
  {
    var m' := m + [e];
    assert m'[..|m|] == m;
    forall i | 0 <= i <= |m| ensures m'[..i] == m[..i] {
    }
    assert LastPair(m', g) == LastPair(m, g);
    assert FirstIndex(m', g) == FirstIndex(m, g);
  }

  /** The tree after one more entry is one more `Step`. */
  lemma BuildTreeSnoc<V>(filepath: string, p: seq<(string, V)>, e: (string, V), str: V -> string)
    ensures BuildTree(filepath, p + [e], str)
         == Step(BuildTree(filepath, p, str), Split(e.0, ':'), e.1, str)
  {
    assert (p + [e])[..|p|] == p;
  }

  /** The tree after entry `i` is one `Step` on the tree before it. */
  lemma BuildTreeAt<V>(filepath: string, m: seq<(string, V)>, str: V -> string, i: nat)
    requires i < |m|
    ensures BuildTree(filepath, m[..i + 1], str)
         == Step(BuildTree(filepath, m[..i], str), Split(m[i].0, ':'), m[i].1, str)
  {
    assert m[..i + 1][..i] == m[..i];
  }

  /** The loop's state after entry `i` is one `Step` on the split key and value of that entry. */
  lemma BuildTreeNext<V>(filepath: string, m: seq<(string, V)>, str: V -> string, i: nat,
                         before: State, tags: seq<string>, value: V)
    requires i < |m| && before == BuildTree(filepath, m[..i], str)
    requires tags == Split(m[i].0, ':') && value == m[i].1
    ensures Inv(before) && |tags| >= 1
    ensures Step(before, tags, value, str) == BuildTree(filepath, m[..i + 1], str)
  {
    BuildTreeAt(filepath, m, str, i);
  }

  /** An entry that is not a key `g:f` keeps `branches[g]` at `g`'s attachment point. */
  lemma BranchKept<V>(filepath: string, p: seq<(string, V)>, e: (string, V), str: V -> string, g: string)
    requires g in RootTags(p) && (RootTag(e.0) != g || !IsPair(e.0))
    requires BuildTree(filepath, p, str).branches[g] == Attach(p, g)
    ensures g in RootTags(p + [e])
    ensures BuildTree(filepath, p + [e], str).branches[g] == Attach(p + [e], g)
  {
    var before := BuildTree(filepath, p, str);
    var tags := Split(e.0, ':');
    BuildTreeSnoc(filepath, p, e, str);
    if g != tags[0] {
      StepOtherBranches(before, tags, e.1, str, g);
    } else {
      StepLeaf(before, BuildTree(filepath, p + [e], str), tags, e.1, str);
    }
    AttachOther(p, e, g);
  }

  /** A key `g:f` makes its own node `g`'s attachment point. */
  lemma BranchAtPair<V>(filepath: string, p: seq<(string, V)>, e: (string, V), str: V -> string)
    requires IsPair(e.0)
    ensures RootTag(e.0) in RootTags(p + [e])
    ensures BuildTree(filepath, p + [e], str).branches[RootTag(e.0)] == Attach(p + [e], RootTag(e.0))
  {
    var m := p + [e];
    assert m[..|p|] == p && m[..|p| + 1] == m;
    BuildTreeSnoc(filepath, p, e, str);
    StepPair(BuildTree(filepath, p, str), BuildTree(filepath, m, str), Split(e.0, ':'), e.1, str);
    assert LastPair(m, RootTag(e.0)) == Some(|p|);
  }

  /** The first key with tag `g`, when it has one or three and more segments, attaches under `g`'s group node. */
  lemma BranchAtGroup<V>(filepath: string, p: seq<(string, V)>, e: (string, V), str: V -> string)
    requires !IsPair(e.0) && RootTag(e.0) !in RootTags(p)
    ensures RootTag(e.0) in RootTags(p + [e])
    ensures BuildTree(filepath, p + [e], str).branches[RootTag(e.0)] == Attach(p + [e], RootTag(e.0))
  {
    var m := p + [e];
    var g := RootTag(e.0);
    assert m[..|p|] == p;
    BuildTreeSnoc(filepath, p, e, str);
    StepLeaf(BuildTree(filepath, p, str), BuildTree(filepath, m, str), Split(e.0, ':'), e.1, str);
    forall k | 0 <= k < |p| ensures RootTag(m[k].0) != g {
      RootTagsHas(p, k);
      assert p[k] == m[k];
    }
    assert LastPair(m, g) == None;
    assert FirstIndex(m, g) == |p|;
  }

  /** `branches[g]` after all entries is `Attach(m, g)`. */
  lemma {:induction false} BranchesAttach<V>(filepath: string, m: seq<(string, V)>, str: V -> string, g: string)
    requires g in RootTags(m)
    ensures BuildTree(filepath, m, str).branches[g] == Attach(m, g)
    decreases |m|
  {
    var n := |m| - 1;
    var p, e := m[..n], m[n];
    assert m == p + [e];
    if g in RootTags(p) && (RootTag(e.0) != g || !IsPair(e.0)) {
      BranchesAttach(filepath, p, str, g);
      BranchKept(filepath, p, e, str, g);
    } else if IsPair(e.0) {
      BranchAtPair(filepath, p, e, str);
    } else {
      BranchAtGroup(filepath, p, e, str);
    }
  }

  /** Right after a key `g:f` at index `i`, the last node is labelled `[blue]f:[/blue] value` and is a child of the root. */
  lemma PairPlaced<V>(filepath: string, m: seq<(string, V)>, str: V -> string, i: nat, here: State)
    requires i < |m| && IsPair(m[i].0) && here == BuildTree(filepath, m[..i + 1], str)
    ensures HasLabel(here.tree, |here.tree.labels| - 1, FieldLabel(Split(m[i].0, ':')[1], str(m[i].1)))
    ensures IsChild(here.tree, 0, |here.tree.labels| - 1)
  {
    BuildTreeAt(filepath, m, str, i);
    StepPair(BuildTree(filepath, m[..i], str), here, Split(m[i].0, ':'), m[i].1, str);
  }

  /**
   * Right after any other key at index `i`, with root tag `g`, the last node
   * holds the stripped value and is a child of `branches[g]`.
   */
  lemma LeafPlaced<V>(filepath: string, m: seq<(string, V)>, str: V -> string, i: nat, here: State)
    requires i < |m| && !IsPair(m[i].0) && here == BuildTree(filepath, m[..i + 1], str)
    ensures HasLabel(here.tree, |here.tree.labels| - 1, Strip(str(m[i].1)))
    ensures RootTag(m[i].0) in here.branches
    ensures IsChild(here.tree, here.branches[RootTag(m[i].0)], |here.tree.labels| - 1)
  {
    BuildTreeAt(filepath, m, str, i);
    StepLeaf(BuildTree(filepath, m[..i], str), here, Split(m[i].0, ':'), m[i].1, str);
  }

  /**
   * The node entry `i` is added under: the root for a key `g:f`, otherwise
   * `g`'s attachment point as it stood when entry `i` was processed.
   */
  ghost function EntryParent<V>(m: seq<(string, V)>, i: nat): nat
    requires i < |m|
  {
    if IsPair(m[i].0) then 0
    else
      RootTagsHas(m[..i + 1], i);
      assert m[..i + 1][i] == m[i];
      Attach(m[..i + 1], RootTag(m[i].0))
  }

  /** Right after entry `i`, its node `EntryNode(m, i)` is the last one, with its label and under `EntryParent(m, i)`. */
  lemma EntryPlacedHere<V>(filepath: string, m: seq<(string, V)>, str: V -> string, i: nat, here: State, parent: nat)
    requires i < |m| && here == BuildTree(filepath, m[..i + 1], str) && parent == EntryParent(m, i)
    ensures HasLabel(here.tree, EntryNode(m, i), EntryLabel(m[i].0, m[i].1, str))
    ensures IsChild(here.tree, parent, EntryNode(m, i))
  {
    assert EntryNode(m, i) == |here.tree.labels| - 1;
    if IsPair(m[i].0) {
      PairPlaced(filepath, m, str, i, here);
    } else {
      LeafPlaced(filepath, m, str, i, here);
      assert parent == here.branches[RootTag(m[i].0)] by {
        RootTagsHas(m[..i + 1], i);
        assert m[..i + 1][i] == m[i];
        BranchesAttach(filepath, m[..i + 1], str, RootTag(m[i].0));
      }
    }
  }

  /**
   * Entry `i` has the node `EntryNode(m, i)` in the final tree `t`, labelled
   * `[blue]f:[/blue] value` for a key `g:f` and with the stripped value for
   * any other key (middle segments play no part), under `EntryParent(m, i)`.
   */
  lemma EntryPlacement<V>(filepath: string, m: seq<(string, V)>, str: V -> string, i: nat, t: Arena)
    requires i < |m| && t == BuildTree(filepath, m, str).tree
    ensures HasLabel(t, EntryNode(m, i), EntryLabel(m[i].0, m[i].1, str))
    ensures IsChild(t, EntryParent(m, i), EntryNode(m, i))
  {
    var here := BuildTree(filepath, m[..i + 1], str);
    assert Extends(here.tree, t) by {
      BuildPrefix(filepath, m, str, i + 1);
    }
    assert HasLabel(here.tree, EntryNode(m, i), EntryLabel(m[i].0, m[i].1, str))
        && IsChild(here.tree, EntryParent(m, i), EntryNode(m, i)) by {
      EntryPlacedHere(filepath, m, str, i, here, EntryParent(m, i));
    }
    ExtendsKeepsNode(here.tree, t, EntryParent(m, i), EntryNode(m, i), EntryLabel(m[i].0, m[i].1, str));
  }

  /** `EntryParent(m, i)` is the only node of the final tree `t` that lists entry `i`'s node among its children. */
  lemma EntryParentOnly<V>(filepath: string, m: seq<(string, V)>, str: V -> string, i: nat, t: Arena, q: nat)
    requires i < |m| && t == BuildTree(filepath, m, str).tree && IsChild(t, q, EntryNode(m, i))
    ensures q == EntryParent(m, i)
  {
    EntryPlacement(filepath, m, str, i, t);
    BuildTreeSingleParent(filepath, m, str, BuildTree(filepath, m, str));
    OnlyParent(t, q, EntryParent(m, i), EntryNode(m, i));
  }

  /** No key before the first one with tag `g` has tag `g`. */
  lemma FirstIndexIsNew<V>(m: seq<(string, V)>, g: string)
    requires g in RootTags(m)
    ensures g !in RootTags(m[..FirstIndex(m, g)])
  {
    var j := FirstIndex(m, g);
    if g in RootTags(m[..j]) {
      RootTagsOnly(m[..j], g);
    }
  }

  /** The first key with a new root tag has its node right after that tag's group node. */
  lemma GroupNodeBeforeEntry<V>(m: seq<(string, V)>, j: nat)
    requires j < |m| && RootTag(m[j].0) !in RootTags(m[..j])
    ensures GroupNode(m, j) == EntryNode(m, j) - 1
  {
    RootTagsAt(m, j);
    assert |RootTags(m[..j]) + {RootTag(m[j].0)}| == |RootTags(m[..j])| + 1;
  }

  /** Right after the first key with a new root tag `g`, node `GroupNode(m, j)` is labelled `[blue]g[/blue]` under the root. */
  lemma GroupPlacedHere<V>(filepath: string, m: seq<(string, V)>, str: V -> string, j: nat, here: State)
    requires j < |m| && RootTag(m[j].0) !in RootTags(m[..j]) && here == BuildTree(filepath, m[..j + 1], str)
    ensures HasLabel(here.tree, GroupNode(m, j), GroupLabel(RootTag(m[j].0)))
    ensures IsChild(here.tree, 0, GroupNode(m, j))
  {
    var before := BuildTree(filepath, m[..j], str);
    BuildTreeAt(filepath, m, str, j);
    assert GroupNode(m, j) == |before.tree.labels|;
    StepGroup(before, here, Split(m[j].0, ':'), m[j].1, str);
  }

  /**
   * The first key with a given root tag `g`, at index `j`, gets a group node
   * labelled `[blue]g[/blue]` under the root, just before its own node.
   */
  lemma GroupNodeAt<V>(filepath: string, m: seq<(string, V)>, str: V -> string, j: nat, t: Arena)
    requires j < |m| && RootTag(m[j].0) !in RootTags(m[..j]) && t == BuildTree(filepath, m, str).tree
    ensures GroupNode(m, j) == EntryNode(m, j) - 1
    ensures HasLabel(t, GroupNode(m, j), GroupLabel(RootTag(m[j].0)))
    ensures IsChild(t, 0, GroupNode(m, j))
  {
    var g := RootTag(m[j].0);
    var here := BuildTree(filepath, m[..j + 1], str);
    var n := GroupNode(m, j);
    GroupPlacedHere(filepath, m, str, j, here);
    BuildKeepsNode(filepath, m, str, j + 1, here, t, 0, n, GroupLabel(g));
    GroupNodeBeforeEntry(m, j);
  }

  /**
   * Each root tag `g` of the metadata has its group node in the final tree
   * `t`, added while processing the first key with that tag; the root is its
   * only parent.
   */
  lemma GroupPlacement<V>(filepath: string, m: seq<(string, V)>, str: V -> string, g: string, t: Arena)
    requires g in RootTags(m) && t == BuildTree(filepath, m, str).tree
    ensures GroupNode(m, FirstIndex(m, g)) == EntryNode(m, FirstIndex(m, g)) - 1
    ensures HasLabel(t, GroupNode(m, FirstIndex(m, g)), GroupLabel(g))
    ensures IsChild(t, 0, GroupNode(m, FirstIndex(m, g)))
    ensures forall q :: IsChild(t, q, GroupNode(m, FirstIndex(m, g))) ==> q == 0
  {
    FirstIndexIsNew(m, g);
    var j := FirstIndex(m, g);
    GroupNodeAt(filepath, m, str, j, t);
    BuildTreeSingleParent(filepath, m, str, BuildTree(filepath, m, str));
    forall q | IsChild(t, q, GroupNode(m, j)) ensures q == 0 {
      OnlyParent(t, q, 0, GroupNode(m, j));
    }
  }

  /** Later entries have later nodes, so the root's children keep the order of the keys. */
  lemma {:induction false} EntryNodeIncreasing<V>(m: seq<(string, V)>, i: nat, j: nat)
    requires i < j < |m|
    ensures EntryNode(m, i) < EntryNode(m, j)
    decreases j - i
  {
    assert m[..j + 1][..j] == m[..j];
    var tags, x := RootTags(m[..j]), RootTag(m[j].0);
    assert RootTags(m[..j + 1]) == tags + {x};
    if x in tags {
      assert tags + {x} == tags;
    } else {
      assert |tags + {x}| == |tags| + 1;
    }
    if i < j - 1 {
      EntryNodeIncreasing(m, i, j - 1);
    }
  }

  /** The first `if` of the loop body: a group node for a tag not seen before. */
  method AddGroup(tree: Tree, branches: map<string, nat>, rootTag: string) returns (branches': map<string, nat>)
    requires Inv(State(tree.Snapshot(), branches))
    modifies tree
    ensures State(tree.Snapshot(), branches') == EnsureGroup(old(State(tree.Snapshot(), branches)), rootTag)
  {
    branches' := branches;
    if rootTag !in branches {
      var node := tree.Add(0, GroupLabel(rootTag));
      branches' := branches[rootTag := node];
    }
  }

  /** The second `if` of the loop body: the key's own node. */
  method AddKey<V>(tree: Tree, branches: map<string, nat>, tags: seq<string>, value: V, str: V -> string)
    returns (branches': map<string, nat>)
    requires Inv(State(tree.Snapshot(), branches))
    requires |tags| >= 1 && tags[0] in branches
    modifies tree
    ensures State(tree.Snapshot(), branches') == AddEntry(old(State(tree.Snapshot(), branches)), tags, value, str)
  {
    branches' := branches;
    if |tags| == 2 {
      var node := tree.Add(0, FieldLabel(tags[1], str(value)));
      branches' := branches[tags[0] := node];
    } else {
      var _ := tree.Add(branches[tags[0]], Strip(str(value)));
    }
  }

  /** One pass of the loop body: the group node if needed, then the key's own node. */
  method AddTagged<V>(tree: Tree, branches: map<string, nat>, tags: seq<string>, value: V, str: V -> string)
    returns (branches': map<string, nat>)
    requires Inv(State(tree.Snapshot(), branches)) && |tags| >= 1
    modifies tree
    ensures State(tree.Snapshot(), branches') == Step(old(State(tree.Snapshot(), branches)), tags, value, str)
  {
    branches' := AddGroup(tree, branches, tags[0]);
    branches' := AddKey(tree, branches', tags, value, str);
  }

  /**
   * `metadata_tree(filepath, metadata)`: builds the tree in place, keeping the
   * `branches` dict, entry by entry.
   */
  method MetadataTreeOf<V>(filepath: string, m: seq<(string, V)>, str: V -> string) returns (tree: Tree)
    ensures fresh(tree) && tree.Valid()
    ensures tree.Snapshot() == BuildTree(filepath, m, str).tree
  {
    tree := new Tree(RootLabel(filepath));
    var branches: map<string, nat> := map[];
    var taggedValues := TaggedValues(m);
    for i := 0 to |m|
      invariant State(tree.Snapshot(), branches) == BuildTree(filepath, m[..i], str)
    {
      var (tags, value) := taggedValues[i];
      TaggedValuesSplit(m, i);
      BuildTreeNext(filepath, m, str, i, State(tree.Snapshot(), branches), tags, value);
      branches := AddTagged(tree, branches, tags, value, str);
    }
    assert m[..|m|] == m;
  }
}
