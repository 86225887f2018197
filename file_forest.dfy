/**
  A store of file nodes linked to their parents, as the component file and
  component file history repositories hold them: a node's id is its index,
  and `owner` is the component (or component snapshot) it belongs to.
  The by-parent query, the pre-order walk over it, and the proof that the
  walk from a node visits each node of its subtree exactly once.
*/
module FileForest {
  import opened Wrappers

  /** The properties a file node carries besides its id, parent and owner. */
  datatype FileProps = FileProps(name: string, isFolder: bool, localPath: string, fileType: string)

  datatype Node = Node(parent: Option<nat>, owner: string, props: FileProps)

  /** Parents are saved before their children: a parent's id is smaller than its child's. */
  predicate WellFormed(nodes: seq<Node>) {
    forall j :: 0 <= j < |nodes| && nodes[j].parent.Some? ==> nodes[j].parent.value < j
  }

  predicate Increasing(s: seq<nat>) {
    forall a, b :: 0 <= a < b < |s| ==> s[a] < s[b]
  }

  predicate NoDup(s: seq<nat>) {
    forall a, b :: 0 <= a < b < |s| ==> s[a] != s[b]
  }

  /** The ids from `from` on of the nodes of `owner` whose parent is `p`, in store order. */
  function KidsFrom(nodes: seq<Node>, owner: string, p: Option<nat>, from: nat): (r: seq<nat>)
    ensures forall x :: x in r <==> from <= x < |nodes| && nodes[x].parent == p && nodes[x].owner == owner
    ensures Increasing(r)
    decreases |nodes| - from
  {
    if from >= |nodes| then []
    else
      var rest := KidsFrom(nodes, owner, p, from + 1);
      var here: seq<nat> := if nodes[from].parent == p && nodes[from].owner == owner then [from] else [];
      assert forall k :: 0 <= k < |rest| ==> rest[k] in rest;
      here + rest
  }

  /** findByParentNodeAnd…: the nodes of `owner` whose parent is `p` (None: the roots). */
  function Kids(nodes: seq<Node>, owner: string, p: Option<nat>): (r: seq<nat>)
    ensures forall x :: x in r <==> 0 <= x < |nodes| && nodes[x].parent == p && nodes[x].owner == owner
    ensures Increasing(r)
  {
    KidsFrom(nodes, owner, p, 0)
  }

  /** Every child of node i comes after it. */
  lemma KidsAbove(nodes: seq<Node>, owner: string, i: nat)
    requires WellFormed(nodes)
    ensures forall c :: c in Kids(nodes, owner, Some(i)) ==> i < c < |nodes|
  {
  }

  /** Saving a node whose parent is already saved keeps the store well formed. */
  lemma WellFormedSnoc(nodes: seq<Node>, n: Node)
    requires WellFormed(nodes) && (n.parent.Some? ==> n.parent.value < |nodes|)
    ensures WellFormed(nodes + [n])
  {
  }

  /** The ids of the subtree of node i, the node first, then the subtrees of its children in order. */
  function PreOrder(nodes: seq<Node>, owner: string, i: nat): (r: seq<nat>)
    requires WellFormed(nodes) && i < |nodes|
    ensures |r| > 0 && r[0] == i
    ensures forall x :: x in r ==> i <= x < |nodes|
    decreases |nodes| - i + 1, 0
  {
    [i] + PreOrderForest(nodes, owner, Kids(nodes, owner, Some(i)), i + 1)
  }

  function PreOrderForest(nodes: seq<Node>, owner: string, cs: seq<nat>, lo: nat): (r: seq<nat>)
    requires WellFormed(nodes) && forall c :: c in cs ==> lo <= c < |nodes|
    ensures forall x :: x in r ==> lo <= x < |nodes|
    decreases |nodes| - lo + 1, |cs|
  {
    if cs == [] then []
    else
      assert cs[0] in cs && forall c :: c in cs[1..] ==> c in cs;
      PreOrder(nodes, owner, cs[0]) + PreOrderForest(nodes, owner, cs[1..], lo)
  }

  /**
    Node j lies in the subtree of node i, for a walk that only follows
    children of `owner`: j is i, or j belongs to `owner` and its parent
    lies in that subtree.
  */
  predicate Below(nodes: seq<Node>, owner: string, j: nat, i: nat)
    requires WellFormed(nodes) && j < |nodes|
    decreases j
  {
    j == i || (nodes[j].owner == owner && nodes[j].parent.Some? && Below(nodes, owner, nodes[j].parent.value, i))
  }

  /** Node j hangs, through nodes of `owner` only, from a root of `owner`. */
  predicate Rooted(nodes: seq<Node>, owner: string, j: nat)
    requires WellFormed(nodes) && j < |nodes|
    decreases j
  {
    nodes[j].owner == owner && (nodes[j].parent.None? || Rooted(nodes, owner, nodes[j].parent.value))
  }

  // ---------------------------------------------------------------------
  // Facts about the subtree relation
  // ---------------------------------------------------------------------

  lemma {:induction false} BelowAtLeast(nodes: seq<Node>, owner: string, j: nat, i: nat)
    requires WellFormed(nodes) && j < |nodes| && Below(nodes, owner, j, i)
    ensures i <= j
    decreases j
  {
    if j != i {
      BelowAtLeast(nodes, owner, nodes[j].parent.value, i);
    }
  }

  /** Two different children of one parent have disjoint subtrees. */
  lemma {:induction false} SiblingsDisjoint(nodes: seq<Node>, owner: string, j: nat, c1: nat, c2: nat)
    requires WellFormed(nodes) && j < |nodes| && c1 < |nodes| && c2 < |nodes| && c1 != c2
    requires nodes[c1].parent.Some? && nodes[c1].parent == nodes[c2].parent
    ensures !(Below(nodes, owner, j, c1) && Below(nodes, owner, j, c2))
    decreases j
  {
    if Below(nodes, owner, j, c1) && Below(nodes, owner, j, c2) {
      if j == c1 {
        BelowAtLeast(nodes, owner, nodes[c1].parent.value, c2);
      } else if j == c2 {
        BelowAtLeast(nodes, owner, nodes[c2].parent.value, c1);
      } else {
        SiblingsDisjoint(nodes, owner, nodes[j].parent.value, c1, c2);
      }
    }
  }

  /** A node below a child of i is below i. */
  lemma {:induction false} BelowChild(nodes: seq<Node>, owner: string, j: nat, c: nat, i: nat)
    requires WellFormed(nodes) && j < |nodes| && c < |nodes|
    requires nodes[c].owner == owner && nodes[c].parent == Some(i) && Below(nodes, owner, j, c)
    ensures Below(nodes, owner, j, i)
    decreases j
  {
    if j != c {
      BelowChild(nodes, owner, nodes[j].parent.value, c, i);
    }
  }

  /** A node below i other than i is below one of i's children. */
  lemma {:induction false} BelowSomeChild(nodes: seq<Node>, owner: string, j: nat, i: nat)
    requires WellFormed(nodes) && j < |nodes| && j != i && Below(nodes, owner, j, i)
    ensures exists c :: c in Kids(nodes, owner, Some(i)) && Below(nodes, owner, j, c)
    decreases j
  {
    var q := nodes[j].parent.value;
    if q == i {
      assert j in Kids(nodes, owner, Some(i));
    } else {
      BelowSomeChild(nodes, owner, q, i);
      var c :| c in Kids(nodes, owner, Some(i)) && Below(nodes, owner, q, c);
      assert Below(nodes, owner, j, c);
    }
  }

  /** A rooted node is below one of the roots; a node below a root is rooted. */
  lemma {:induction false} RootedBelowRoot(nodes: seq<Node>, owner: string, j: nat)
    requires WellFormed(nodes) && j < |nodes|
    ensures Rooted(nodes, owner, j) <==> exists r :: r in Kids(nodes, owner, None) && Below(nodes, owner, j, r)
    decreases j
  {
    if nodes[j].owner == owner && nodes[j].parent.None? {
      assert j in Kids(nodes, owner, None);
    } else if nodes[j].parent.Some? {
      var q := nodes[j].parent.value;
      RootedBelowRoot(nodes, owner, q);
      if exists r :: r in Kids(nodes, owner, None) && Below(nodes, owner, j, r) {
        var r :| r in Kids(nodes, owner, None) && Below(nodes, owner, j, r);
        assert j != r;
        assert Below(nodes, owner, q, r);
      }
      if Rooted(nodes, owner, j) {
        var r :| r in Kids(nodes, owner, None) && Below(nodes, owner, q, r);
        assert Below(nodes, owner, j, r);
      }
    } else {
      forall r | r in Kids(nodes, owner, None) ensures !Below(nodes, owner, j, r) {
        assert j != r;
      }
    }
  }

  // ---------------------------------------------------------------------
  // The walk visits each node of the subtree exactly once
  // ---------------------------------------------------------------------

  lemma NoDupAppend(a: seq<nat>, b: seq<nat>)
    requires NoDup(a) && NoDup(b) && forall x :: x in a ==> x !in b
    ensures NoDup(a + b)
  {
    var s := a + b;
    forall x, y | 0 <= x < y < |s| ensures s[x] != s[y] {
      if x < |a| && y >= |a| {
        assert s[x] in a && s[y] == b[y - |a|];
      }
    }
  }

  /** Node j lies in the subtree of one of `cs`. */
  predicate BelowSome(nodes: seq<Node>, owner: string, j: nat, cs: seq<nat>)
    requires WellFormed(nodes) && j < |nodes|
  {
    exists c :: c in cs && Below(nodes, owner, j, c)
  }

  /** The first subtree of a walk over siblings shares no node with the walk over the others. */
  lemma FirstApart(nodes: seq<Node>, owner: string, cs: seq<nat>, t: seq<nat>, f: seq<nat>)
    requires WellFormed(nodes) && |cs| > 0 && cs[0] < |nodes| && Increasing(cs)
    requires forall c :: c in cs ==> c < |nodes| && nodes[c].parent == nodes[cs[0]].parent
    requires nodes[cs[0]].parent.Some? || forall c :: c in cs ==> nodes[c].parent.None?
    requires forall x: nat :: x in t ==> x < |nodes| && Below(nodes, owner, x, cs[0])
    requires forall x: nat :: x in f ==> x < |nodes| && BelowSome(nodes, owner, x, cs[1..])
    ensures forall x :: x in t ==> x !in f
  {
    forall x: nat | x in t ensures x !in f {
      if x in f {
        var c :| c in cs[1..] && Below(nodes, owner, x, c);
        var k :| 0 <= k < |cs| - 1 && cs[1..][k] == c;
        assert cs[k + 1] == c && cs[0] < c && c in cs;
        if nodes[c].parent.Some? {
          SiblingsDisjoint(nodes, owner, x, cs[0], c);
        } else {
          RootsDisjoint(nodes, owner, x, cs[0], c);
        }
      }
    }
  }

  /** Two different roots have disjoint subtrees. */
  lemma {:induction false} RootsDisjoint(nodes: seq<Node>, owner: string, j: nat, c1: nat, c2: nat)
    requires WellFormed(nodes) && j < |nodes| && c1 < |nodes| && c2 < |nodes| && c1 != c2
    requires nodes[c1].parent.None? && nodes[c2].parent.None?
    ensures !(Below(nodes, owner, j, c1) && Below(nodes, owner, j, c2))
    decreases j
  {
    if j != c1 && j != c2 && nodes[j].parent.Some? {
      RootsDisjoint(nodes, owner, nodes[j].parent.value, c1, c2);
    }
  }

  /** A node below one of `cs` is below the first or below one of the others. */
  lemma BelowSomeSplit(nodes: seq<Node>, owner: string, j: nat, cs: seq<nat>)
    requires WellFormed(nodes) && j < |nodes| && |cs| > 0
    ensures BelowSome(nodes, owner, j, cs) <==> Below(nodes, owner, j, cs[0]) || BelowSome(nodes, owner, j, cs[1..])
  {
    if BelowSome(nodes, owner, j, cs) {
      var c :| c in cs && Below(nodes, owner, j, c);
      if c != cs[0] {
        var k :| 0 <= k < |cs| && cs[k] == c;
        assert cs[1..][k - 1] == c;
      }
    }
    if BelowSome(nodes, owner, j, cs[1..]) {
      var c :| c in cs[1..] && Below(nodes, owner, j, c);
      assert c in cs;
    }
    assert cs[0] in cs;
  }

  /**
    The walk over the subtrees of some children of one parent (or of some
    roots) visits exactly the nodes below one of them, each once.
  */
  lemma {:induction false} ForestExact(nodes: seq<Node>, owner: string, cs: seq<nat>, lo: nat, p: Option<nat>)
    requires WellFormed(nodes) && forall c :: c in cs ==> lo <= c < |nodes|
    requires Increasing(cs) && forall c :: c in cs ==> nodes[c].parent == p && nodes[c].owner == owner
    ensures var r := PreOrderForest(nodes, owner, cs, lo);
      && NoDup(r)
      && forall j: nat :: j in r <==> j < |nodes| && BelowSome(nodes, owner, j, cs)
    decreases |nodes| - lo + 1, |cs|, 1
  {
    if cs != [] {
      var c0 := cs[0];
      var rest := cs[1..];
      assert c0 in cs && forall c :: c in rest ==> c in cs;
      forall a, b | 0 <= a < b < |rest| ensures rest[a] < rest[b] {
        assert rest[a] == cs[a + 1] && rest[b] == cs[b + 1];
      }
      TreeExact(nodes, owner, c0);
      ForestExact(nodes, owner, rest, lo, p);
      var t := PreOrder(nodes, owner, c0);
      var f := PreOrderForest(nodes, owner, rest, lo);
      assert PreOrderForest(nodes, owner, cs, lo) == t + f;
      FirstApart(nodes, owner, cs, t, f);
      NoDupAppend(t, f);
      forall j: nat | j < |nodes| {
        BelowSomeSplit(nodes, owner, j, cs);
      }
    }
  }

  /** The walk from node i visits exactly the nodes below i, each once. */
  lemma {:induction false} TreeExact(nodes: seq<Node>, owner: string, i: nat)
    requires WellFormed(nodes) && i < |nodes|
    ensures var r := PreOrder(nodes, owner, i);
      && NoDup(r)
      && forall j: nat :: j in r <==> j < |nodes| && Below(nodes, owner, j, i)
    decreases |nodes| - i + 1, 0, 0
  {
    var kids := Kids(nodes, owner, Some(i));
    ForestExact(nodes, owner, kids, i + 1, Some(i));
    var f := PreOrderForest(nodes, owner, kids, i + 1);
    NoDupAppend([i], f);
    forall j: nat | j < |nodes| ensures j in [i] + f <==> Below(nodes, owner, j, i) {
      if j in f {
        var c :| c in kids && Below(nodes, owner, j, c);
        assert BelowSome(nodes, owner, j, kids);
        BelowChild(nodes, owner, j, c, i);
      }
      if j != i && Below(nodes, owner, j, i) {
        BelowSomeChild(nodes, owner, j, i);
      }
    }
  }

  /** The walk over the roots of `owner` visits exactly the rooted nodes of `owner`, each once. */
  lemma RootsExact(nodes: seq<Node>, owner: string)
    requires WellFormed(nodes)
    ensures var r := PreOrderForest(nodes, owner, Kids(nodes, owner, None), 0);
      && NoDup(r)
      && forall j: nat :: j in r <==> j < |nodes| && Rooted(nodes, owner, j)
  {
    ForestExact(nodes, owner, Kids(nodes, owner, None), 0, None);
    forall j: nat | j < |nodes| {
      RootedBelowRoot(nodes, owner, j);
    }
  }

  /** In a store where every parent belongs to its child's owner, the rooted nodes of `owner` are all its nodes. */
  lemma {:induction false} RootedWhenConsistent(nodes: seq<Node>, owner: string, j: nat)
    requires WellFormed(nodes) && j < |nodes|
    requires forall k :: 0 <= k < |nodes| && nodes[k].parent.Some? ==> nodes[nodes[k].parent.value].owner == nodes[k].owner
    ensures Rooted(nodes, owner, j) <==> nodes[j].owner == owner
    decreases j
  {
    if nodes[j].parent.Some? {
      RootedWhenConsistent(nodes, owner, nodes[j].parent.value);
    }
  }
}
