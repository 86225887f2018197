/**
  ComponentFileHistoryService: snapshotting a component's file tree into a
  component history, the id and by-parent lookups over the snapshot
  store, and exporting a snapshot node to files on disk.

  Both repositories are stores of `FileForest.Node`s: in the component
  file repository `owner` is the component, in the history repository it
  is the component history (the snapshot). A node's id is its index.
*/
module ComponentFileHistory {
  import opened Wrappers
  import opened FileForest

  // ---------------------------------------------------------------------
  // The snapshot copy
  // ---------------------------------------------------------------------

  /**
    The history store after saveComponentFileHistorysByComponentFile: the
    copy of source node i (every property but id, creation time, parent and
    component) is saved under `parent` and `history`, then the subtrees of
    i's children in `component`, in order, each under that copy.
  */
  function CopyTree(src: seq<Node>, component: string, i: nat, parent: Option<nat>, history: string, store: seq<Node>): (r: seq<Node>)
    requires WellFormed(src) && i < |src|
    ensures |store| < |r| && r[..|store|] == store
    decreases |src| - i + 1, 0
  {
    var copy := Node(parent, history, src[i].props);
    CopyForest(src, component, Kids(src, component, Some(i)), i + 1, Some(|store|), history, store + [copy])
  }

  /** The history store after copying the subtrees of `cs`, in order, each under `parent`. */
  function CopyForest(src: seq<Node>, component: string, cs: seq<nat>, lo: nat, parent: Option<nat>, history: string, store: seq<Node>): (r: seq<Node>)
    requires WellFormed(src) && forall c :: c in cs ==> lo <= c < |src|
    ensures |store| <= |r| && r[..|store|] == store
    decreases |src| - lo + 1, |cs|
  {
    if cs == [] then store
    else
      assert cs[0] in cs && forall c :: c in cs[1..] ==> c in cs;
      var store' := CopyTree(src, component, cs[0], parent, history, store);
      assert store'[..|store|] == store;
      CopyForest(src, component, cs[1..], lo, parent, history, store')
  }

  lemma CopyForestUnfold(src: seq<Node>, component: string, cs: seq<nat>, lo: nat, parent: Option<nat>, history: string, store: seq<Node>)
    requires WellFormed(src) && forall c :: c in cs ==> lo <= c < |src|
    requires cs != []
    ensures cs[0] in cs && forall c :: c in cs[1..] ==> c in cs
    ensures CopyForest(src, component, cs, lo, parent, history, store)
         == CopyForest(src, component, cs[1..], lo, parent, history, CopyTree(src, component, cs[0], parent, history, store))
  {
    assert cs[0] in cs && forall c :: c in cs[1..] ==> c in cs;
  }

  /**
    The copy at position base + k stands under the copy of its source
    node's parent, and that copy was saved earlier in the same block.
  */
  predicate InBlockParent(src: seq<Node>, walk: seq<nat>, base: nat, r: seq<Node>, k: nat)
    requires k < |walk| && walk[k] < |src| && base + k < |r|
  {
    && src[walk[k]].parent.Some?
    && r[base + k].parent.Some?
    && base <= r[base + k].parent.value < base + k
    && walk[r[base + k].parent.value - base] == src[walk[k]].parent.value
  }

  /** The copy at position base + k is a copy of source node walk[k] for the snapshot `history`. */
  predicate CopyOf(src: seq<Node>, walk: seq<nat>, base: nat, r: seq<Node>, history: string, k: nat)
    requires k < |walk| && walk[k] < |src| && base + k < |r|
  {
    r[base + k].owner == history && r[base + k].props == src[walk[k]].props
  }

  /**
    r holds, from position base on, one copy per node of the walk, in walk
    order; the first copy stands under `parent` and every other under the
    copy of its source parent.
  */
  predicate TreeCopied(src: seq<Node>, walk: seq<nat>, parent: Option<nat>, history: string, base: nat, r: seq<Node>) {
    && |r| == base + |walk|
    && |walk| > 0
    && (forall k :: 0 <= k < |walk| ==> walk[k] < |src|)
    && r[base].parent == parent
    && (forall k :: 0 <= k < |walk| ==> CopyOf(src, walk, base, r, history, k))
    && (forall k :: 0 < k < |walk| ==> InBlockParent(src, walk, base, r, k))
  }

  /**
    r holds, from position base on, one copy per node of the walk, in walk
    order; copies of nodes whose source parent is `sp` stand under `parent`,
    every other under the copy of its source parent.
  */
  predicate ForestCopied(src: seq<Node>, walk: seq<nat>, sp: Option<nat>, parent: Option<nat>, history: string, base: nat, r: seq<Node>) {
    && |r| == base + |walk|
    && (forall k :: 0 <= k < |walk| ==> walk[k] < |src|)
    && (forall k :: 0 <= k < |walk| ==> CopyOf(src, walk, base, r, history, k))
    && (forall k :: 0 <= k < |walk| ==>
          (src[walk[k]].parent == sp && r[base + k].parent == parent) || InBlockParent(src, walk, base, r, k))
  }

  /** The copy of node i's subtree keeps its shape: it follows the pre-order walk from i. */
  lemma {:induction false} CopyTreeShape(src: seq<Node>, component: string, i: nat, parent: Option<nat>, history: string, store: seq<Node>)
    requires WellFormed(src) && i < |src|
    ensures TreeCopied(src, PreOrder(src, component, i), parent, history, |store|, CopyTree(src, component, i, parent, history, store))
    decreases |src| - i + 1, 0, 0
  {
    var base := |store|;
    var copy := Node(parent, history, src[i].props);
    var kids := Kids(src, component, Some(i));
    var store1 := store + [copy];
    var r := CopyTree(src, component, i, parent, history, store);
    var fw := PreOrderForest(src, component, kids, i + 1);
    assert r == CopyForest(src, component, kids, i + 1, Some(base), history, store1);
    assert PreOrder(src, component, i) == [i] + fw;
    CopyForestShape(src, component, kids, i + 1, Some(i), Some(base), history, store1);
    assert r[..base + 1] == store1;
    assert r[base] == store1[base];
    TreeJoin(src, i, fw, parent, history, base, r);
  }

  /** A copy of node i followed by the copied forest of its children is a copied tree. */
  lemma TreeJoin(src: seq<Node>, i: nat, fw: seq<nat>, parent: Option<nat>, history: string, base: nat, r: seq<Node>)
    requires i < |src| && base < |r| && r[base] == Node(parent, history, src[i].props)
    requires ForestCopied(src, fw, Some(i), Some(base), history, base + 1, r)
    ensures TreeCopied(src, [i] + fw, parent, history, base, r)
  {
    var w := [i] + fw;
    forall k | 0 <= k < |w|
      ensures w[k] < |src| && CopyOf(src, w, base, r, history, k)
      ensures k > 0 ==> InBlockParent(src, w, base, r, k)
    {
      TreeBlock(src, i, fw, parent, history, base, r, k);
    }
  }

  lemma TreeBlock(src: seq<Node>, i: nat, fw: seq<nat>, parent: Option<nat>, history: string, base: nat, r: seq<Node>, k: nat)
    requires i < |src| && base < |r| && r[base] == Node(parent, history, src[i].props)
    requires ForestCopied(src, fw, Some(i), Some(base), history, base + 1, r)
    requires k < 1 + |fw|
    ensures ([i] + fw)[k] < |src| && CopyOf(src, [i] + fw, base, r, history, k)
    ensures k > 0 ==> InBlockParent(src, [i] + fw, base, r, k)
  {
    var w := [i] + fw;
    if k > 0 {
      assert w[k] == fw[k - 1];
      assert CopyOf(src, fw, base + 1, r, history, k - 1);
      if InBlockParent(src, fw, base + 1, r, k - 1) {
        var v := r[base + k].parent.value;
        assert w[v - base] == fw[v - base - 1];
      } else {
        assert w[0] == i;
      }
    }
  }

  lemma {:induction false} CopyForestShape(src: seq<Node>, component: string, cs: seq<nat>, lo: nat, sp: Option<nat>, parent: Option<nat>, history: string, store: seq<Node>)
    requires WellFormed(src) && forall c :: c in cs ==> lo <= c < |src| && src[c].parent == sp
    ensures ForestCopied(src, PreOrderForest(src, component, cs, lo), sp, parent, history, |store|, CopyForest(src, component, cs, lo, parent, history, store))
    decreases |src| - lo + 1, |cs|, 1
  {
    if cs != [] {
      assert cs[0] in cs && forall c :: c in cs[1..] ==> c in cs;
      var base := |store|;
      var r1 := CopyTree(src, component, cs[0], parent, history, store);
      var r := CopyForest(src, component, cs[1..], lo, parent, history, r1);
      var w1 := PreOrder(src, component, cs[0]);
      var w2 := PreOrderForest(src, component, cs[1..], lo);
      var w := w1 + w2;
      assert PreOrderForest(src, component, cs, lo) == w;
      assert CopyForest(src, component, cs, lo, parent, history, store) == r;
      CopyTreeShape(src, component, cs[0], parent, history, store);
      CopyForestShape(src, component, cs[1..], lo, sp, parent, history, r1);
      assert w1[0] == cs[0];
      ForestJoin(src, w1, w2, sp, parent, history, base, r1, r);
    }
  }

  /** A copied first subtree followed by the copied rest of the forest is a copied forest. */
  lemma ForestJoin(src: seq<Node>, w1: seq<nat>, w2: seq<nat>, sp: Option<nat>, parent: Option<nat>, history: string, base: nat, r1: seq<Node>, r: seq<Node>)
    requires TreeCopied(src, w1, parent, history, base, r1) && src[w1[0]].parent == sp
    requires ForestCopied(src, w2, sp, parent, history, |r1|, r) && r[..|r1|] == r1
    ensures ForestCopied(src, w1 + w2, sp, parent, history, base, r)
  {
    var w := w1 + w2;
    forall k | 0 <= k < |w1|
      ensures w[k] < |src| && CopyOf(src, w, base, r, history, k)
      ensures (src[w[k]].parent == sp && r[base + k].parent == parent) || InBlockParent(src, w, base, r, k)
    {
      FirstBlock(src, w1, w2, parent, history, base, r1, r, k);
    }
    forall k | |w1| <= k < |w|
      ensures w[k] < |src| && CopyOf(src, w, base, r, history, k)
      ensures (src[w[k]].parent == sp && r[base + k].parent == parent) || InBlockParent(src, w, base, r, k)
    {
      RestBlock(src, w1, w2, sp, parent, history, base, r1, r, k);
    }
  }

  lemma FirstBlock(src: seq<Node>, w1: seq<nat>, w2: seq<nat>, parent: Option<nat>, history: string, base: nat, r1: seq<Node>, r: seq<Node>, k: nat)
    requires TreeCopied(src, w1, parent, history, base, r1)
    requires |r| == |r1| + |w2| && r[..|r1|] == r1 && k < |w1|
    ensures (w1 + w2)[k] < |src| && CopyOf(src, w1 + w2, base, r, history, k)
    ensures k == 0 ==> r[base].parent == parent
    ensures k > 0 ==> InBlockParent(src, w1 + w2, base, r, k)
  {
    var w := w1 + w2;
    assert w[k] == w1[k] && r[base + k] == r1[base + k];
    assert CopyOf(src, w1, base, r1, history, k);
    if k > 0 {
      assert InBlockParent(src, w1, base, r1, k);
      var v := r1[base + k].parent.value;
      assert w[v - base] == w1[v - base];
    }
  }

  lemma RestBlock(src: seq<Node>, w1: seq<nat>, w2: seq<nat>, sp: Option<nat>, parent: Option<nat>, history: string, base: nat, r1: seq<Node>, r: seq<Node>, k: nat)
    requires |r1| == base + |w1|
    requires ForestCopied(src, w2, sp, parent, history, |r1|, r) && |w1| <= k < |w1| + |w2|
    ensures (w1 + w2)[k] < |src| && CopyOf(src, w1 + w2, base, r, history, k)
    ensures (src[(w1 + w2)[k]].parent == sp && r[base + k].parent == parent) || InBlockParent(src, w1 + w2, base, r, k)
  {
    var w := w1 + w2;
    var base2 := |r1|;
    var k2 := k - |w1|;
    assert w[k] == w2[k2] && base + k == base2 + k2;
    assert CopyOf(src, w2, base2, r, history, k2);
    if InBlockParent(src, w2, base2, r, k2) {
      var v := r[base2 + k2].parent.value;
      assert w[v - base] == w2[v - base2];
    }
  }

  /**
    Snapshotting a whole component: exactly one copy per source node that
    hangs from a root of the component, in pre-order, with the copies of
    roots under no parent and every other copy under the copy of its
    source parent, saved before it.
  */
  lemma SnapshotExact(src: seq<Node>, component: string, history: string, store: seq<Node>)
    requires WellFormed(src)
    ensures var walk := PreOrderForest(src, component, Kids(src, component, None), 0);
      && ForestCopied(src, walk, None, None, history, |store|, CopyForest(src, component, Kids(src, component, None), 0, None, history, store))
      && NoDup(walk)
      && forall j: nat :: j in walk <==> j < |src| && Rooted(src, component, j)
  {
    CopyForestShape(src, component, Kids(src, component, None), 0, None, None, history, store);
    RootsExact(src, component);
  }

  // ---------------------------------------------------------------------
  // Export
  // ---------------------------------------------------------------------

  /** One FileUtils.copyFile call: the file at `from` copied to `to`. */
  datatype FileCopy = FileCopy(from: string, to: string)

  /** Where the export of leaf j under `dir` goes: dir, the separator, then j's relative path. */
  function LeafCopy(nodes: seq<Node>, j: nat, dir: string, separator: string, relativePath: nat -> string): FileCopy
    requires j < |nodes|
  {
    FileCopy(nodes[j].props.localPath, dir + separator + relativePath(j))
  }

  /** The copies for the non-folder nodes of a walk, in walk order. */
  function LeafCopies(nodes: seq<Node>, walk: seq<nat>, dir: string, separator: string, relativePath: nat -> string): seq<FileCopy>
    requires forall x :: x in walk ==> x < |nodes|
  {
    if walk == [] then []
    else
      assert walk[0] in walk && forall x :: x in walk[1..] ==> x in walk;
      (if nodes[walk[0]].props.isFolder then [] else [LeafCopy(nodes, walk[0], dir, separator, relativePath)])
        + LeafCopies(nodes, walk[1..], dir, separator, relativePath)
  }

  /** Each non-folder node of the walk has its copy in LeafCopies, and every copy there is one of those. */
  lemma {:induction false} LeafCopiesMembers(nodes: seq<Node>, walk: seq<nat>, dir: string, separator: string, relativePath: nat -> string)
    requires forall x :: x in walk ==> x < |nodes|
    ensures var r := LeafCopies(nodes, walk, dir, separator, relativePath);
      && (forall j :: j in walk && !nodes[j].props.isFolder ==> LeafCopy(nodes, j, dir, separator, relativePath) in r)
      && (forall c :: c in r ==> exists j :: j in walk && !nodes[j].props.isFolder && c == LeafCopy(nodes, j, dir, separator, relativePath))
  {
    if walk != [] {
      assert walk[0] in walk && forall x :: x in walk[1..] ==> x in walk;
      assert forall j :: j in walk && j != walk[0] ==> j in walk[1..];
      LeafCopiesMembers(nodes, walk[1..], dir, separator, relativePath);
    }
  }

  lemma {:induction false} LeafCopiesAppend(nodes: seq<Node>, a: seq<nat>, b: seq<nat>, dir: string, separator: string, relativePath: nat -> string)
    requires (forall x :: x in a ==> x < |nodes|) && (forall x :: x in b ==> x < |nodes|)
    ensures LeafCopies(nodes, a + b, dir, separator, relativePath)
         == LeafCopies(nodes, a, dir, separator, relativePath) + LeafCopies(nodes, b, dir, separator, relativePath)
  {
    if a == [] {
      assert a + b == b;
    } else {
      var ab := a + b;
      assert ab[0] == a[0] && ab[1..] == a[1..] + b;
      assert a[0] in a && forall x :: x in a[1..] ==> x in a;
      var head := if nodes[a[0]].props.isFolder then [] else [LeafCopy(nodes, a[0], dir, separator, relativePath)];
      assert LeafCopies(nodes, a, dir, separator, relativePath) == head + LeafCopies(nodes, a[1..], dir, separator, relativePath);
      assert LeafCopies(nodes, ab, dir, separator, relativePath) == head + LeafCopies(nodes, ab[1..], dir, separator, relativePath);
      LeafCopiesAppend(nodes, a[1..], b, dir, separator, relativePath);
    }
  }

  /**
    exportComponentFileHistory: a folder exports its children's subtrees in
    turn; any other node is copied to dir + separator + its relative path.
  */
  function ExportTree(nodes: seq<Node>, k: nat, dir: string, separator: string, relativePath: nat -> string): seq<FileCopy>
    requires WellFormed(nodes) && k < |nodes|
    decreases |nodes| - k + 1, 0
  {
    if nodes[k].props.isFolder then
      ExportForest(nodes, nodes[k].owner, Kids(nodes, nodes[k].owner, Some(k)), k + 1, dir, separator, relativePath)
    else [LeafCopy(nodes, k, dir, separator, relativePath)]
  }

  function ExportForest(nodes: seq<Node>, owner: string, cs: seq<nat>, lo: nat, dir: string, separator: string, relativePath: nat -> string): seq<FileCopy>
    requires WellFormed(nodes) && forall c :: c in cs ==> lo <= c < |nodes|
    decreases |nodes| - lo + 1, |cs|
  {
    if cs == [] then []
    else
      assert cs[0] in cs && forall c :: c in cs[1..] ==> c in cs;
      ExportTree(nodes, cs[0], dir, separator, relativePath) + ExportForest(nodes, owner, cs[1..], lo, dir, separator, relativePath)
  }

  /** Only folders have children. */
  predicate FoldersOnlyParents(nodes: seq<Node>) {
    forall j :: 0 <= j < |nodes| && nodes[j].parent.Some? && nodes[j].parent.value < |nodes| ==>
      nodes[nodes[j].parent.value].props.isFolder
  }

  lemma {:induction false} ExportTreeWalk(nodes: seq<Node>, k: nat, dir: string, separator: string, relativePath: nat -> string)
    requires WellFormed(nodes) && FoldersOnlyParents(nodes) && k < |nodes|
    ensures ExportTree(nodes, k, dir, separator, relativePath)
         == LeafCopies(nodes, PreOrder(nodes, nodes[k].owner, k), dir, separator, relativePath)
    decreases |nodes| - k + 1, 0, 0
  {
    var owner := nodes[k].owner;
    var kids := Kids(nodes, owner, Some(k));
    var w := PreOrder(nodes, owner, k);
    var fw := PreOrderForest(nodes, owner, kids, k + 1);
    assert w == [k] + fw;
    LeafCopiesAppend(nodes, [k], fw, dir, separator, relativePath);
    assert LeafCopies(nodes, [k], dir, separator, relativePath)
        == (if nodes[k].props.isFolder then [] else [LeafCopy(nodes, k, dir, separator, relativePath)]);
    if nodes[k].props.isFolder {
      assert forall c :: c in kids ==> nodes[c].owner == owner;
      ExportForestWalk(nodes, owner, kids, k + 1, dir, separator, relativePath);
    }
  }

  lemma {:induction false} ExportForestWalk(nodes: seq<Node>, owner: string, cs: seq<nat>, lo: nat, dir: string, separator: string, relativePath: nat -> string)
    requires WellFormed(nodes) && FoldersOnlyParents(nodes)
    requires forall c :: c in cs ==> lo <= c < |nodes| && nodes[c].owner == owner
    ensures ExportForest(nodes, owner, cs, lo, dir, separator, relativePath)
         == LeafCopies(nodes, PreOrderForest(nodes, owner, cs, lo), dir, separator, relativePath)
    decreases |nodes| - lo + 1, |cs|, 1
  {
    if cs != [] {
      assert cs[0] in cs && forall c :: c in cs[1..] ==> c in cs;
      ExportTreeWalk(nodes, cs[0], dir, separator, relativePath);
      ExportForestWalk(nodes, owner, cs[1..], lo, dir, separator, relativePath);
      LeafCopiesAppend(nodes, PreOrder(nodes, owner, cs[0]), PreOrderForest(nodes, owner, cs[1..], lo), dir, separator, relativePath);
    }
  }

  /**
    Exporting node k copies, in pre-order, the non-folder nodes of a walk that
    visits each node of k's subtree exactly once, and nothing else.
  */
  lemma ExportExact(nodes: seq<Node>, k: nat, dir: string, separator: string, relativePath: nat -> string)
    requires WellFormed(nodes) && FoldersOnlyParents(nodes) && k < |nodes|
    ensures var walk := PreOrder(nodes, nodes[k].owner, k);
      && ExportTree(nodes, k, dir, separator, relativePath) == LeafCopies(nodes, walk, dir, separator, relativePath)
      && NoDup(walk)
      && forall j: nat :: j in walk <==> j < |nodes| && Below(nodes, nodes[k].owner, j, k)
  {
    ExportTreeWalk(nodes, k, dir, separator, relativePath);
    TreeExact(nodes, nodes[k].owner, k);
  }

  /** What exportComponentFileHistoryById hands back, with the copies it made. */
  datatype Exported =
    | Archive(dir: string, zip: string, copies: seq<FileCopy>)   // a folder: its export directory, compressed to `zip`
    | Single(file: string, copies: seq<FileCopy>)              // a file: copied into the temporary directory

  datatype HistoryError = FileHistoryIdNotFound(id: Option<nat>)

  // ---------------------------------------------------------------------
  // The service over the history repository
  // ---------------------------------------------------------------------

  class ComponentFileHistoryService {
    /** The component file history repository; an entity's id is its index. */
    var nodes: seq<Node>

    ghost predicate Valid()
      reads this
    {
      WellFormed(nodes)
    }

    constructor()
      ensures nodes == [] && Valid()
    {
      nodes := [];
    }

    /** hasComponentFileHistorysById: false for an empty (None) or unknown id. */
    function HasById(id: Option<nat>): (b: bool)
      reads this
      ensures b <==> id.Some? && id.value < |nodes|
    {
      match id
      case None => false
      case Some(n) => n < |nodes|
    }

    /** getComponentFileHistorysById: the entity, or the not-found error. */
    function GetById(id: Option<nat>): (r: Result<Node, HistoryError>)
      reads this
      ensures r.Success? <==> HasById(id)
      ensures r.Success? ==> r.value == nodes[id.value]
      ensures r.Failure? ==> r.error == FileHistoryIdNotFound(id)
    {
      if HasById(id) then Success(nodes[id.value]) else Failure(FileHistoryIdNotFound(id))
    }

    /** getComponentFileHistorysByParentNodeAndComponentHistory: an unknown or empty parent id means the roots. */
    function ByParent(parentId: Option<nat>, history: string): (r: seq<nat>)
      reads this
      ensures HasById(parentId) ==> r == Kids(nodes, history, parentId)
      ensures !HasById(parentId) ==> r == Kids(nodes, history, None)
    {
      var parent := if HasById(parentId) then parentId else None;
      Kids(nodes, history, parent)
    }

    /** saveComponentFileHistorysByComponentFile. */
    method SaveByComponentFile(src: seq<Node>, component: string, i: nat, parent: Option<nat>, history: string)
      requires WellFormed(src) && i < |src|
      requires Valid() && (parent.Some? ==> parent.value < |nodes|)
      modifies this
      ensures nodes == CopyTree(src, component, i, parent, history, old(nodes))
      ensures Valid()
      decreases |src| - i
    {
      ghost var target := CopyTree(src, component, i, parent, history, nodes);
      var id := |nodes|;
      var copy := Node(parent, history, src[i].props);
      WellFormedSnoc(nodes, copy);
      nodes := nodes + [copy];
      var kids := Kids(src, component, Some(i));
      KidsAbove(src, component, i);
      assert kids[0..] == kids;
      var k := 0;
      while k < |kids|
        invariant 0 <= k <= |kids|
        invariant Valid() && id < |nodes|
        invariant forall c :: c in kids[k..] ==> i + 1 <= c < |src|
        invariant CopyForest(src, component, kids[k..], i + 1, Some(id), history, nodes) == target
      {
        CopyForestUnfold(src, component, kids[k..], i + 1, Some(id), history, nodes);
        assert kids[k..][0] == kids[k] && kids[k..][1..] == kids[k + 1..];
        SaveByComponentFile(src, component, kids[k], Some(id), history);
        k := k + 1;
      }
      assert kids[k..] == [];
    }

    /** saveComponentFileHistorysByComponent: every root of the component, each under no parent. */
    method SaveByComponent(src: seq<Node>, component: string, history: string)
      requires WellFormed(src) && Valid()
      modifies this
      ensures nodes == CopyForest(src, component, Kids(src, component, None), 0, None, history, old(nodes))
      ensures Valid()
    {
      var roots := Kids(src, component, None);
      var k := 0;
      while k < |roots|
        invariant 0 <= k <= |roots|
        invariant Valid()
        invariant forall c :: c in roots[k..] ==> c < |src|
        invariant CopyForest(src, component, roots[k..], 0, None, history, nodes)
               == CopyForest(src, component, roots, 0, None, history, old(nodes))
      {
        CopyForestUnfold(src, component, roots[k..], 0, None, history, nodes);
        assert roots[k..][0] == roots[k] && roots[k..][1..] == roots[k + 1..];
        SaveByComponentFile(src, component, roots[k], None, history);
        k := k + 1;
      }
    }

    /** exportComponentFileHistory: the copies the export of entity k into `dir` makes. */
    function Export(k: nat, dir: string, separator: string, relativePath: nat -> string): (r: seq<FileCopy>)
      requires Valid() && k < |nodes|
      reads this
      ensures !nodes[k].props.isFolder ==> r == [LeafCopy(nodes, k, dir, separator, relativePath)]
      ensures FoldersOnlyParents(nodes) ==> r == LeafCopies(nodes, PreOrder(nodes, nodes[k].owner, k), dir, separator, relativePath)
    {
      if FoldersOnlyParents(nodes) then
        ExportExact(nodes, k, dir, separator, relativePath);
        ExportTree(nodes, k, dir, separator, relativePath)
      else ExportTree(nodes, k, dir, separator, relativePath)
    }

    /**
      exportComponentFileHistoryById. A folder is exported into
      temp + separator + token and compressed to temp + separator + stamp
      + ".zip"; a file is copied to temp + separator + name "." type.
    */
    function ExportById(id: Option<nat>, temp: string, separator: string, token: string, stamp: string, relativePath: nat -> string): (r: Result<Exported, HistoryError>)
      requires Valid()
      reads this
      ensures r.Failure? <==> !HasById(id)
      ensures r.Failure? ==> r.error == FileHistoryIdNotFound(id)
      ensures r.Success? && nodes[id.value].props.isFolder ==>
        r.value == Archive(temp + separator + token, temp + separator + stamp + ".zip",
                           Export(id.value, temp + separator + token, separator, relativePath))
      ensures r.Success? && !nodes[id.value].props.isFolder ==>
        var n := nodes[id.value].props;
        r.value == Single(temp + separator + n.name + "." + n.fileType, [FileCopy(n.localPath, temp + separator + n.name + "." + n.fileType)])
    {
      var n :- GetById(id);
      if n.props.isFolder then
        var dir := temp + separator + token;
        Success(Archive(dir, temp + separator + stamp + ".zip", Export(id.value, dir, separator, relativePath)))
      else
        var file := temp + separator + n.props.name + "." + n.props.fileType;
        Success(Single(file, [FileCopy(n.props.localPath, file)]))
    }
  }
}
