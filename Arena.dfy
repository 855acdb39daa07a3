/**
 * The nodes of a genetic-programming tree as mutable objects: an arena of
 * records addressed by index, in which a node's child slots and its parent
 * link are updated in place.  Every method keeps the forest invariant
 * `Valid()` and states its effect on the records; `Subtree` reads the tree
 * a node owns as a `Trees.Tree` value, so that the attach operations are
 * proved against `Trees.Attach` and `Replicate` against `Trees.Replicate`.
 */
module Arena {
  import opened Wrappers
  import opened NodeBasics
  import Trees
  import opened Links

  class NodeArena {
    /** The nodes, one record per node, addressed by index. */
    var nodes: seq<Rec>
    /** A rank per node that strictly decreases from parent to child. */
    ghost var rank: seq<nat>

    /** The links form a forest of owned subtrees. */
    ghost predicate Valid()
      reads this
    {
      Linked(nodes, rank)
    }

    /** Every child fits its parent's declared count and child type. */
    ghost predicate WellTyped()
      reads this
    {
      WellTypedRecs(nodes)
    }

    /** The tree node `i` owns, as a value. */
    ghost function Subtree(i: nat): Trees.Tree
      reads this
      requires Valid() && i < |nodes|
    {
      TreeAt(nodes, rank, i)
    }

    /** The nodes the subtree at `i` owns, `i` included. */
    ghost function Owned(i: nat): (r: set<nat>)
      reads this
      requires Valid() && i < |nodes|
      ensures i in r && forall y :: y in r ==> y < |nodes|
    {
      ReachBounded(nodes, rank, i);
      Reach(nodes, rank, i)
    }

    constructor ()
      ensures Valid() && WellTyped() && nodes == []
    {
      nodes := [];
      rank := [];
    }

    /**
     * The slot of its parent that holds node `i`, `None` exactly when `i`
     * has no parent.
     */
    function ParentSide(i: nat): (side: ParentLink)
      reads this
      requires Valid() && i < |nodes|
      ensures side == ParentLink.None <==> nodes[i].parent.None?
      ensures side != ParentLink.None ==>
        nodes[i].parent.value < |nodes| && nodes[nodes[i].parent.value].Slot(side) == Some(i)
    {
      ParentOf(nodes, rank, i);
      nodes[i].side
    }

    /** The parent of node `i`, which must have one; it holds `i` in the slot `i` records. */
    function Parent(i: nat): (p: nat)
      reads this
      requires Valid() && i < |nodes| && nodes[i].parent.Some?
      ensures p < |nodes| && nodes[p].Slot(ParentSide(i)) == Some(i)
    {
      ParentOf(nodes, rank, i);
      nodes[i].parent.value
    }

    /** The child in slot `s` of node `i`, which must be present; it names `i` and `s` back. */
    function Child(i: nat, s: ParentLink): (c: nat)
      reads this
      requires Valid() && i < |nodes| && nodes[i].Slot(s).Some?
      ensures c < |nodes| && nodes[c].parent == Some(i) && nodes[c].side == s
    {
      ChildOf(nodes, rank, i, s);
      nodes[i].Slot(s).value
    }

    /** The left child of node `i`, which must be present; its parent is `i` and its side `Left`. */
    function ChildLeft(i: nat): (c: nat)
      reads this
      requires Valid() && i < |nodes| && nodes[i].left.Some?
      ensures c < |nodes| && nodes[c].parent.Some? && Parent(c) == i && ParentSide(c) == Left
    {
      Child(i, Left)
    }

    /** The center child of node `i`, which must be present; its parent is `i` and its side `Center`. */
    function ChildCenter(i: nat): (c: nat)
      reads this
      requires Valid() && i < |nodes| && nodes[i].center.Some?
      ensures c < |nodes| && nodes[c].parent.Some? && Parent(c) == i && ParentSide(c) == Center
    {
      Child(i, Center)
    }

    /** The right child of node `i`, which must be present; its parent is `i` and its side `Right`. */
    function ChildRight(i: nat): (c: nat)
      reads this
      requires Valid() && i < |nodes| && nodes[i].right.Some?
      ensures c < |nodes| && nodes[c].parent.Some? && Parent(c) == i && ParentSide(c) == Right
    {
      Child(i, Right)
    }

    /**
     * Constructs a node of the given kind and scalar state: no parent, no
     * children.  Every existing subtree is unchanged.
     */
    method NewNode(b: Basics) returns (i: nat)
      requires Valid()
      modifies this
      ensures Valid() && (old(WellTyped()) ==> WellTyped())
      ensures i == old(|nodes|) && nodes == old(nodes) + [NewRec(b)]
      ensures Filled(nodes[i]) == 0 && nodes[i].basics.NodeCount() == b.cnt
      ensures Subtree(i) == Trees.Node(b, ParentLink.None, Option.None, Option.None, Option.None)
      ensures Owned(i) == {i}
      ensures forall x :: 0 <= x < old(|nodes|) ==> Subtree(x) == old(Subtree(x)) && Owned(x) == old(Owned(x))
    {
      AppendKeepsLinked(nodes, rank, b);
      AppendKeepsTrees(nodes, rank, b);
      i := |nodes|;
      nodes := nodes + [NewRec(b)];
      rank := rank + [0];
    }

    /** A new node of the same kind and scalar state as node `i`, with no links. */
    method CloneBasics(i: nat) returns (j: nat)
      requires Valid() && i < |nodes|
      modifies this
      ensures Valid() && (old(WellTyped()) ==> WellTyped())
      ensures j == old(|nodes|) && nodes == old(nodes) + [NewRec(old(nodes[i].basics))]
      ensures Subtree(j) == Trees.CloneBasics(old(Subtree(i)))
      ensures Owned(j) == {j}
      ensures forall x :: 0 <= x < old(|nodes|) ==> Subtree(x) == old(Subtree(x)) && Owned(x) == old(Owned(x))
    {
      j := NewNode(nodes[i].basics);
    }

    /**
     * The link update behind the attach operations: puts the standalone node
     * `c` in the free slot `s` of node `p`, which `c` must not own, and
     * records `p` and `s` in `c`, without looking at whether `c` fits.  The
     * subtree of `p` becomes `Trees.Attach` of the two old subtrees; every
     * subtree that owns neither node is unchanged; no node's scalar state
     * changes; the arena is well typed afterwards exactly when it was before
     * and `c` fits the slot.
     */
    method Link(p: nat, s: ParentLink, c: nat)
      requires Valid() && p < |nodes| && c < |nodes| && IsSlot(s)
      requires nodes[p].Slot(s).None? && nodes[c].parent.None?
      requires p !in Owned(c)
      modifies this
      ensures Valid()
      ensures WellTyped() <==> old(WellTyped()) && Compatible(old(nodes[p].basics), s, old(nodes[c].basics))
      ensures nodes == AttachRecs(old(nodes), p, s, c)
      ensures Parent(c) == p && ParentSide(c) == s
      ensures forall x :: 0 <= x < |nodes| ==> nodes[x].basics == old(nodes[x].basics)
      ensures Subtree(p) == Trees.Attach(old(Subtree(p)), s, old(Subtree(c)))
      ensures Owned(p) == old(Owned(p)) + old(Owned(c))
      ensures forall x :: 0 <= x < |nodes| && p !in old(Owned(x)) && c !in old(Owned(x)) ==>
        Subtree(x) == old(Subtree(x)) && Owned(x) == old(Owned(x))
    {
      AttachFrame(nodes, rank, p, s, c);
      AttachParentTree(nodes, rank, p, s, c);
      AttachTyping(nodes, p, s, c);
      rank := ShiftRanks(nodes, rank, c);
      nodes := AttachRecs(nodes, p, s, c);
    }

    /**
     * Attaching `c` in slot `s` of `p`: besides a free slot and a standalone
     * child outside whose subtree `p` lies, the slot must be one `p`'s
     * declared count uses and `c` must return `p`'s child type.  The
     * arena's typing is then unchanged.
     */
    method AddChild(p: nat, s: ParentLink, c: nat)
      requires Valid() && p < |nodes| && c < |nodes| && IsSlot(s)
      requires nodes[p].Slot(s).None? && nodes[c].parent.None?
      requires p !in Owned(c)
      requires Compatible(nodes[p].basics, s, nodes[c].basics)
      modifies this
      ensures Valid() && (WellTyped() <==> old(WellTyped()))
      ensures nodes == AttachRecs(old(nodes), p, s, c)
      ensures Parent(c) == p && ParentSide(c) == s
      ensures forall x :: 0 <= x < |nodes| ==> nodes[x].basics == old(nodes[x].basics)
      ensures Subtree(p) == Trees.Attach(old(Subtree(p)), s, old(Subtree(c)))
      ensures Owned(p) == old(Owned(p)) + old(Owned(c))
      ensures forall x :: 0 <= x < |nodes| && p !in old(Owned(x)) && c !in old(Owned(x)) ==>
        Subtree(x) == old(Subtree(x)) && Owned(x) == old(Owned(x))
    {
      Link(p, s, c);
    }

    /** `AddLeft`: `AddChild` in the left slot. */
    method AddLeft(p: nat, c: nat)
      requires Valid() && p < |nodes| && c < |nodes|
      requires nodes[p].left.None? && nodes[c].parent.None?
      requires p !in Owned(c)
      requires Compatible(nodes[p].basics, Left, nodes[c].basics)
      modifies this
      ensures Valid() && (WellTyped() <==> old(WellTyped()))
      ensures nodes == AttachRecs(old(nodes), p, Left, c)
      ensures Parent(c) == p && ParentSide(c) == Left
      ensures forall x :: 0 <= x < |nodes| ==> nodes[x].basics == old(nodes[x].basics)
      ensures Subtree(p) == Trees.Attach(old(Subtree(p)), Left, old(Subtree(c)))
      ensures Owned(p) == old(Owned(p)) + old(Owned(c))
      ensures forall x :: 0 <= x < |nodes| && p !in old(Owned(x)) && c !in old(Owned(x)) ==>
        Subtree(x) == old(Subtree(x)) && Owned(x) == old(Owned(x))
    {
      AddChild(p, Left, c);
    }

    /** `AddCenter`: `AddChild` in the center slot. */
    method AddCenter(p: nat, c: nat)
      requires Valid() && p < |nodes| && c < |nodes|
      requires nodes[p].center.None? && nodes[c].parent.None?
      requires p !in Owned(c)
      requires Compatible(nodes[p].basics, Center, nodes[c].basics)
      modifies this
      ensures Valid() && (WellTyped() <==> old(WellTyped()))
      ensures nodes == AttachRecs(old(nodes), p, Center, c)
      ensures Parent(c) == p && ParentSide(c) == Center
      ensures forall x :: 0 <= x < |nodes| ==> nodes[x].basics == old(nodes[x].basics)
      ensures Subtree(p) == Trees.Attach(old(Subtree(p)), Center, old(Subtree(c)))
      ensures Owned(p) == old(Owned(p)) + old(Owned(c))
      ensures forall x :: 0 <= x < |nodes| && p !in old(Owned(x)) && c !in old(Owned(x)) ==>
        Subtree(x) == old(Subtree(x)) && Owned(x) == old(Owned(x))
    {
      AddChild(p, Center, c);
    }

    /** `AddRight`: `AddChild` in the right slot. */
    method AddRight(p: nat, c: nat)
      requires Valid() && p < |nodes| && c < |nodes|
      requires nodes[p].right.None? && nodes[c].parent.None?
      requires p !in Owned(c)
      requires Compatible(nodes[p].basics, Right, nodes[c].basics)
      modifies this
      ensures Valid() && (WellTyped() <==> old(WellTyped()))
      ensures nodes == AttachRecs(old(nodes), p, Right, c)
      ensures Parent(c) == p && ParentSide(c) == Right
      ensures forall x :: 0 <= x < |nodes| ==> nodes[x].basics == old(nodes[x].basics)
      ensures Subtree(p) == Trees.Attach(old(Subtree(p)), Right, old(Subtree(c)))
      ensures Owned(p) == old(Owned(p)) + old(Owned(c))
      ensures forall x :: 0 <= x < |nodes| && p !in old(Owned(x)) && c !in old(Owned(x)) ==>
        Subtree(x) == old(Subtree(x)) && Owned(x) == old(Owned(x))
    {
      AddChild(p, Right, c);
    }

    /** The records of the first `|ns0|` nodes are those of `ns0`. */
    ghost predicate Extends(ns0: seq<Rec>)
      reads this
    {
      |ns0| <= |nodes| && forall x :: 0 <= x < |ns0| ==> nodes[x] == ns0[x]
    }

    /**
     * `Replicate`: a node made by `CloneBasics(i)` with, in each slot where
     * `i` has a child, the replica of that child attached.  The copy is
     * built from new nodes only, has no parent and reads as
     * `Trees.Replicate` of the original, whose records are all untouched.
     */
    method Replicate(i: nat) returns (j: nat)
      requires Valid() && i < |nodes|
      modifies this
      ensures Valid() && (old(WellTyped()) ==> WellTyped())
      ensures old(|nodes|) <= j < |nodes| && nodes[j].parent.None?
      ensures forall y :: y in Owned(j) ==> old(|nodes|) <= y
      ensures forall y :: old(|nodes|) <= y < |nodes| ==> y in Owned(j)
      ensures Subtree(j) == Trees.Replicate(old(Subtree(i)))
      ensures forall x :: 0 <= x < old(|nodes|) ==> nodes[x] == old(nodes[x])
      ensures forall x :: 0 <= x < old(|nodes|) ==> Subtree(x) == old(Subtree(x)) && Owned(x) == old(Owned(x))
      decreases Subtree(i), 1
    {
      ghost var ns0, rk0 := nodes, rank;
      j := CloneBasics(i);
      ReplicateSlot(i, j, Left, ns0, rk0);
      ReplicateSlot(i, j, Center, ns0, rk0);
      ReplicateSlot(i, j, Right, ns0, rk0);
      PrefixFrame(ns0, rk0, nodes, rank);
      Trees.ReplicateBySlots(TreeAt(ns0, rk0, i));
    }

    /**
     * One step of `Replicate(i)` on the copy `j` under construction: if node
     * `i` of the original records `ns0` has a child in slot `s`, its
     * replica is attached in that slot of `j`.  The original records stay
     * as they were and the copy keeps owning new nodes only.
     */
    method ReplicateSlot(i: nat, j: nat, s: ParentLink, ghost ns0: seq<Rec>, ghost rk0: seq<nat>)
      requires Valid() && Linked(ns0, rk0) && i < |ns0| <= j < |nodes| && IsSlot(s)
      requires Extends(ns0)
      requires nodes[j].Slot(s).None?
      requires forall y :: y in Owned(j) ==> |ns0| <= y
      requires forall y :: j <= y < |nodes| ==> y in Owned(j)
      modifies this
      ensures Valid() && Extends(ns0) && old(|nodes|) <= |nodes|
      ensures forall y :: y in Owned(j) ==> |ns0| <= y
      ensures forall y :: j <= y < |nodes| ==> y in Owned(j)
      ensures nodes[j].basics == old(nodes[j].basics) && nodes[j].parent == old(nodes[j].parent)
      ensures forall s' :: s' != s ==> nodes[j].Slot(s') == old(nodes[j].Slot(s'))
      ensures Subtree(j) == Trees.ReplicaStep(old(Subtree(j)), s, TreeAt(ns0, rk0, i))
      ensures old(WellTyped()) && WellTypedRecs(ns0) && nodes[j].basics == ns0[i].basics ==> WellTyped()
      decreases TreeAt(ns0, rk0, i), 0
    {
      ChildTree(ns0, rk0, i, s);
      if nodes[i].Slot(s).Some? {
        var d := nodes[i].Slot(s).value;
        var k := ReplicateChild(j, s, d, ns0, rk0);
      }
    }

    /**
     * Attaches in the free slot `s` of the copy `j` under construction the
     * replica of node `d` of the original records `ns0`.
     */
    method ReplicateChild(j: nat, s: ParentLink, d: nat, ghost ns0: seq<Rec>, ghost rk0: seq<nat>) returns (k: nat)
      requires Valid() && Linked(ns0, rk0) && d < |ns0| <= j < |nodes| && IsSlot(s)
      requires Extends(ns0)
      requires nodes[j].Slot(s).None?
      requires forall y :: y in Owned(j) ==> |ns0| <= y
      requires forall y :: j <= y < |nodes| ==> y in Owned(j)
      modifies this
      ensures Valid() && Extends(ns0) && old(|nodes|) <= |nodes|
      ensures forall y :: y in Owned(j) ==> |ns0| <= y
      ensures forall y :: j <= y < |nodes| ==> y in Owned(j)
      ensures nodes[j] == old(nodes[j]).WithSlot(s, k)
      ensures Subtree(j) == Trees.Attach(old(Subtree(j)), s, Trees.Replicate(TreeAt(ns0, rk0, d)))
      ensures old(WellTyped()) && Compatible(old(nodes[j].basics), s, ns0[d].basics) ==> WellTyped()
      decreases TreeAt(ns0, rk0, d), 2
    {
      ReachBounded(ns0, rk0, d);
      TreeAtFrame(ns0, rk0, nodes, rank, d);
      ghost var tj, td := Subtree(j), Subtree(d);
      ghost var oj := Owned(j);
      k := Replicate(d);
      assert Subtree(j) == tj;
      assert Owned(j) == oj;
      assert nodes[k].basics == Subtree(k).basics == td.basics == ns0[d].basics;
      Graft(j, s, k, ns0);
    }

    /**
     * `Link(j, s, k)` for two nodes `j` and `k` past the records `ns0`:
     * those records stay as they were and `j` keeps owning new nodes only.
     */
    method Graft(j: nat, s: ParentLink, k: nat, ghost ns0: seq<Rec>)
      requires Valid() && Extends(ns0) && |ns0| <= j < |nodes| && |ns0| <= k < |nodes| && IsSlot(s)
      requires nodes[j].Slot(s).None? && nodes[k].parent.None? && j !in Owned(k)
      requires forall y :: y in Owned(j) ==> |ns0| <= y
      requires forall y :: y in Owned(k) ==> |ns0| <= y
      modifies this
      ensures Valid() && Extends(ns0) && |nodes| == old(|nodes|)
      ensures old(WellTyped()) && Compatible(old(nodes[j].basics), s, old(nodes[k].basics)) ==> WellTyped()
      ensures nodes[j] == old(nodes[j]).WithSlot(s, k)
      ensures Subtree(j) == Trees.Attach(old(Subtree(j)), s, old(Subtree(k)))
      ensures Owned(j) == old(Owned(j)) + old(Owned(k))
      ensures forall y :: y in Owned(j) ==> |ns0| <= y
    {
      Link(j, s, k);
    }

    /**
     * `operator=` between two nodes of the same kind, which therefore have
     * the same type tags and declared count: unless they are the same node,
     * `dst` takes `src`'s scalar state; links are untouched, the target's
     * types stay as they were and so does the arena's typing.
     */
    method Assign(dst: nat, src: nat)
      requires Valid() && dst < |nodes| && src < |nodes|
      requires nodes[dst].basics.kind == nodes[src].basics.kind
      requires SameSignature(nodes[dst].basics, nodes[src].basics)
      modifies this
      ensures Valid()
      ensures nodes == old(nodes)[dst := old(nodes[dst]).(basics := old(nodes[src].basics))]
      ensures nodes[dst].basics.ReturnType() == old(nodes[dst].basics.ReturnType())
      ensures nodes[dst].basics.ChildType() == old(nodes[dst].basics.ChildType())
      ensures WellTyped() <==> old(WellTyped())
    {
      if dst != src {
        ghost var ns := nodes;
        nodes := nodes[dst := nodes[dst].(basics := nodes[src].basics)];
        forall i, s | 0 <= i < |nodes| ensures ChildLinked(nodes, rank, i, s) {
          if ns[i].Slot(s).Some? {
            ChildOf(ns, rank, i, s);
          }
        }
        forall i | 0 <= i < |nodes| ensures ParentLinked(nodes, i) {
          ParentOf(ns, rank, i);
        }
        if WellTypedRecs(ns) {
          forall i, s | 0 <= i < |nodes| && nodes[i].Slot(s).Some?
            ensures nodes[i].Slot(s).value < |nodes| && Compatible(nodes[i].basics, s, nodes[nodes[i].Slot(s).value].basics)
          {
            assert nodes[i].Slot(s) == ns[i].Slot(s);
          }
        }
        if WellTypedRecs(nodes) {
          forall i, s | 0 <= i < |ns| && ns[i].Slot(s).Some?
            ensures ns[i].Slot(s).value < |ns| && Compatible(ns[i].basics, s, ns[ns[i].Slot(s).value].basics)
          {
            assert nodes[i].Slot(s) == ns[i].Slot(s);
          }
        }
      }
    }
  }
}
