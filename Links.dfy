/**
 * Nodes kept in a sequence and linked by index: each record holds the index
 * of its parent, the slot it occupies there and the indices of its children.
 * `Linked` is the invariant that these links describe a forest of owned
 * subtrees, `TreeAt` reads the subtree at an index as a value and `Reach`
 * collects the indices that subtree owns.  Attaching a standalone root under
 * a node outside its own subtree keeps the invariant, and only the subtrees
 * containing the two nodes involved change.
 *
 * `ChildrenLinked`, `ChildOf` and `ParentOf` only unpack `Linked` for one
 * node.  The inductive arguments are in `ReachBounded`, `ReachTransitive`,
 * `ReachParent` and `TreeAtFrame` (ownership and framing, by induction on
 * the rank) and in `AttachKeepsLinked` and `AttachParentTree` (the attach).
 */
module Links {
  import opened Wrappers
  import opened NodeBasics
  import opened Trees

  /** One node: its scalar state, its parent and the slot it has there, and its three children. */
  datatype Rec = Rec(
    basics: Basics,
    parent: Option<nat>,
    side: ParentLink,
    left: Option<nat>,
    center: Option<nat>,
    right: Option<nat>)
  {
    /** The child in slot `s`. */
    function Slot(s: ParentLink): Option<nat> {
      match s
      case None => Option.None
      case Left => left
      case Center => center
      case Right => right
    }

    /** The record with `c` in slot `s`. */
    function WithSlot(s: ParentLink, c: nat): Rec
      requires IsSlot(s)
    {
      match s
      case Left => this.(left := Some(c))
      case Center => this.(center := Some(c))
      case Right => this.(right := Some(c))
    }
  }

  /** A node as constructed: no parent, no children. */
  function NewRec(b: Basics): Rec {
    Rec(b, Option.None, ParentLink.None, Option.None, Option.None, Option.None)
  }

  /** How many slots hold a child. */
  function Filled(r: Rec): nat {
    (if r.left.Some? then 1 else 0) + (if r.center.Some? then 1 else 0) + (if r.right.Some? then 1 else 0)
  }

  /**
   * The child in slot `s` of node `i`, if any, names `i` as its parent and
   * `s` as its slot, and has a lower rank.
   */
  ghost predicate ChildLinked(ns: seq<Rec>, rank: seq<nat>, i: nat, s: ParentLink)
    requires |rank| == |ns| && i < |ns|
  {
    ns[i].Slot(s).Some? ==>
      var c := ns[i].Slot(s).value;
      c < |ns| && rank[c] < rank[i] && ns[c].parent == Some(i) && ns[c].side == s
  }

  /** The parent of node `i`, if any, holds `i` in the slot `i` records; a node without a parent records no slot. */
  ghost predicate ParentLinked(ns: seq<Rec>, i: nat)
    requires i < |ns|
  {
    if ns[i].parent.Some? then
      ns[i].parent.value < |ns| && ns[ns[i].parent.value].Slot(ns[i].side) == Some(i)
    else
      ns[i].side == ParentLink.None
  }

  /**
   * The links form a forest: every child names its parent and its slot
   * back, every parent link is matched by that slot, and `rank` strictly
   * decreases from parent to child, so that no node owns itself.
   */
  ghost predicate Linked(ns: seq<Rec>, rank: seq<nat>) {
    && |rank| == |ns|
    && (forall i, s :: 0 <= i < |ns| ==> ChildLinked(ns, rank, i, s))
    && (forall i :: 0 <= i < |ns| ==> ParentLinked(ns, i))
  }

  /** The links of node `i`'s three slots. */
  lemma ChildrenLinked(ns: seq<Rec>, rank: seq<nat>, i: nat)
    requires Linked(ns, rank) && i < |ns|
    ensures ChildLinked(ns, rank, i, Left) && ChildLinked(ns, rank, i, Center) && ChildLinked(ns, rank, i, Right)
  {
  }

  /** The child in slot `s` of node `i` names `i` and `s` back and has a lower rank. */
  lemma ChildOf(ns: seq<Rec>, rank: seq<nat>, i: nat, s: ParentLink)
    requires Linked(ns, rank) && i < |ns| && ns[i].Slot(s).Some?
    ensures var c := ns[i].Slot(s).value;
      c < |ns| && rank[c] < rank[i] && ns[c].parent == Some(i) && ns[c].side == s
  {
    assert ChildLinked(ns, rank, i, s);
  }

  /** The parent link of node `i`. */
  lemma ParentOf(ns: seq<Rec>, rank: seq<nat>, i: nat)
    requires Linked(ns, rank) && i < |ns|
    ensures ParentLinked(ns, i)
  {
  }

  /** Every child fits its parent's declared count and child type. */
  ghost predicate WellTypedRecs(ns: seq<Rec>) {
    forall i, s :: 0 <= i < |ns| && ns[i].Slot(s).Some? ==>
      ns[i].Slot(s).value < |ns| && Compatible(ns[i].basics, s, ns[ns[i].Slot(s).value].basics)
  }

  /** The subtree at `i`, as a value. */
  ghost function TreeAt(ns: seq<Rec>, rank: seq<nat>, i: nat): Tree
    requires Linked(ns, rank) && i < |ns|
    decreases rank[i]
  {
    ChildrenLinked(ns, rank, i);
    var l, c, r := ns[i].Slot(Left), ns[i].Slot(Center), ns[i].Slot(Right);
    Node(ns[i].basics, ns[i].side,
      if l.Some? then Some(TreeAt(ns, rank, l.value)) else Option.None,
      if c.Some? then Some(TreeAt(ns, rank, c.value)) else Option.None,
      if r.Some? then Some(TreeAt(ns, rank, r.value)) else Option.None)
  }

  /** Slot `s` of the tree at `i` holds the tree at the child recorded there, if any. */
  lemma ChildTree(ns: seq<Rec>, rank: seq<nat>, i: nat, s: ParentLink)
    requires Linked(ns, rank) && i < |ns| && IsSlot(s)
    ensures ns[i].Slot(s).None? ==> TreeAt(ns, rank, i).Child(s).None?
    ensures ns[i].Slot(s).Some? ==>
      ns[i].Slot(s).value < |ns| && TreeAt(ns, rank, i).Child(s) == Some(TreeAt(ns, rank, ns[i].Slot(s).value))
  {
    ChildrenLinked(ns, rank, i);
  }

  /** The indices the subtree at `i` owns, `i` included. */
  ghost function Reach(ns: seq<Rec>, rank: seq<nat>, i: nat): set<nat>
    requires Linked(ns, rank) && i < |ns|
    decreases rank[i]
  {
    ChildrenLinked(ns, rank, i);
    var l, c, r := ns[i].Slot(Left), ns[i].Slot(Center), ns[i].Slot(Right);
    {i}
    + (if l.Some? then Reach(ns, rank, l.value) else {})
    + (if c.Some? then Reach(ns, rank, c.value) else {})
    + (if r.Some? then Reach(ns, rank, r.value) else {})
  }

  /** The records after `c` was put in slot `s` of `p`. */
  function AttachRecs(ns: seq<Rec>, p: nat, s: ParentLink, c: nat): seq<Rec>
    requires p < |ns| && c < |ns| && IsSlot(s)
  {
    ns[p := ns[p].WithSlot(s, c)][c := ns[c].(parent := Some(p), side := s)]
  }

  /** Ranks after attaching `c`: everything outside `c`'s subtree moves above it. */
  ghost function ShiftRanks(ns: seq<Rec>, rank: seq<nat>, c: nat): (r: seq<nat>)
    requires Linked(ns, rank) && c < |ns|
    ensures |r| == |rank|
  {
    var owned := Reach(ns, rank, c);
    seq(|rank|, y requires 0 <= y < |rank| => if y in owned then rank[y] else rank[y] + rank[c] + 1)
  }

  /** Every owned index is in range and, except the root itself, of lower rank. */
  lemma {:induction false} ReachBounded(ns: seq<Rec>, rank: seq<nat>, x: nat)
    requires Linked(ns, rank) && x < |ns|
    ensures x in Reach(ns, rank, x)
    ensures forall y :: y in Reach(ns, rank, x) ==> y < |ns| && (y == x || rank[y] < rank[x])
    decreases rank[x]
  {
    ChildrenLinked(ns, rank, x);
    var l, c, r := ns[x].Slot(Left), ns[x].Slot(Center), ns[x].Slot(Right);
    if l.Some? { ReachBounded(ns, rank, l.value); }
    if c.Some? { ReachBounded(ns, rank, c.value); }
    if r.Some? { ReachBounded(ns, rank, r.value); }
  }

  /** An owned index other than the root is owned through one of the root's children. */
  lemma ReachStep(ns: seq<Rec>, rank: seq<nat>, x: nat, y: nat) returns (s: ParentLink)
    requires Linked(ns, rank) && x < |ns| && y in Reach(ns, rank, x) && y != x
    ensures IsSlot(s) && ns[x].Slot(s).Some? && ns[x].Slot(s).value < |ns|
    ensures y in Reach(ns, rank, ns[x].Slot(s).value)
  {
    ChildrenLinked(ns, rank, x);
    var l, c := ns[x].Slot(Left), ns[x].Slot(Center);
    if l.Some? && y in Reach(ns, rank, l.value) {
      s := Left;
    } else if c.Some? && y in Reach(ns, rank, c.value) {
      s := Center;
    } else {
      s := Right;
    }
  }

  /** Ownership is transitive. */
  lemma {:induction false} ReachTransitive(ns: seq<Rec>, rank: seq<nat>, x: nat, y: nat)
    requires Linked(ns, rank) && x < |ns| && y in Reach(ns, rank, x)
    ensures y < |ns| && Reach(ns, rank, y) <= Reach(ns, rank, x)
    decreases rank[x]
  {
    ReachBounded(ns, rank, x);
    if y != x {
      var s := ReachStep(ns, rank, x, y);
      ChildOf(ns, rank, x, s);
      ReachTransitive(ns, rank, ns[x].Slot(s).value, y);
    }
  }

  /** Whatever a subtree owns besides its root has its parent inside that subtree. */
  lemma {:induction false} ReachParent(ns: seq<Rec>, rank: seq<nat>, x: nat, y: nat)
    requires Linked(ns, rank) && x < |ns| && y in Reach(ns, rank, x) && y != x
    ensures y < |ns| && ns[y].parent.Some? && ns[y].parent.value in Reach(ns, rank, x)
    decreases rank[x]
  {
    ReachBounded(ns, rank, x);
    var s := ReachStep(ns, rank, x, y);
    ChildOf(ns, rank, x, s);
    var d := ns[x].Slot(s).value;
    ReachTransitive(ns, rank, x, d);
    if y != d {
      ReachParent(ns, rank, d, y);
    }
  }

  /** A parentless node is owned by no subtree but its own. */
  lemma RootOwnedOnlyByItself(ns: seq<Rec>, rank: seq<nat>, x: nat, c: nat)
    requires Linked(ns, rank) && x < |ns| && c < |ns| && ns[c].parent.None?
    ensures c in Reach(ns, rank, x) ==> c == x
  {
    if c in Reach(ns, rank, x) && c != x {
      ReachParent(ns, rank, x, c);
    }
  }

  /** A subtree whose owned records are unchanged reads the same and owns the same. */
  lemma {:induction false} TreeAtFrame(ns: seq<Rec>, rank: seq<nat>, ns': seq<Rec>, rank': seq<nat>, x: nat)
    requires Linked(ns, rank) && Linked(ns', rank') && x < |ns|
    requires forall y :: y in Reach(ns, rank, x) ==> y < |ns| && y < |ns'| && ns'[y] == ns[y]
    ensures x < |ns'| && TreeAt(ns', rank', x) == TreeAt(ns, rank, x)
    ensures Reach(ns', rank', x) == Reach(ns, rank, x)
    decreases rank[x]
  {
    ReachBounded(ns, rank, x);
    ChildrenLinked(ns, rank, x);
    ChildrenLinked(ns', rank', x);
    var l, c, r := ns[x].Slot(Left), ns[x].Slot(Center), ns[x].Slot(Right);
    if l.Some? {
      ReachTransitive(ns, rank, x, l.value);
      TreeAtFrame(ns, rank, ns', rank', l.value);
    }
    if c.Some? {
      ReachTransitive(ns, rank, x, c.value);
      TreeAtFrame(ns, rank, ns', rank', c.value);
    }
    if r.Some? {
      ReachTransitive(ns, rank, x, r.value);
      TreeAtFrame(ns, rank, ns', rank', r.value);
    }
  }

  /**
   * When the records of the first `|ns|` nodes are unchanged, every subtree
   * rooted among them reads and owns as before, whatever was added after.
   */
  lemma PrefixFrame(ns: seq<Rec>, rank: seq<nat>, ns': seq<Rec>, rank': seq<nat>)
    requires Linked(ns, rank) && Linked(ns', rank') && |ns| <= |ns'|
    requires forall x :: 0 <= x < |ns| ==> ns'[x] == ns[x]
    ensures forall x :: 0 <= x < |ns| ==>
      TreeAt(ns', rank', x) == TreeAt(ns, rank, x) && Reach(ns', rank', x) == Reach(ns, rank, x)
  {
    forall x | 0 <= x < |ns|
      ensures TreeAt(ns', rank', x) == TreeAt(ns, rank, x) && Reach(ns', rank', x) == Reach(ns, rank, x)
    {
      ReachBounded(ns, rank, x);
      TreeAtFrame(ns, rank, ns', rank', x);
    }
  }

  /** Appending a new standalone node keeps the forest. */
  lemma AppendKeepsLinked(ns: seq<Rec>, rank: seq<nat>, b: Basics)
    requires Linked(ns, rank)
    ensures Linked(ns + [NewRec(b)], rank + [0])
    ensures WellTypedRecs(ns) ==> WellTypedRecs(ns + [NewRec(b)])
  {
    var ns', rank' := ns + [NewRec(b)], rank + [0];
    forall i, s | 0 <= i < |ns'| ensures ChildLinked(ns', rank', i, s) {
      if i < |ns| && ns[i].Slot(s).Some? {
        ChildOf(ns, rank, i, s);
      }
    }
    forall i | 0 <= i < |ns'| ensures ParentLinked(ns', i) {
      if i < |ns| {
        ParentOf(ns, rank, i);
      }
    }
  }

  /** Appending a new standalone node keeps every existing subtree, and the new one stands alone. */
  lemma AppendKeepsTrees(ns: seq<Rec>, rank: seq<nat>, b: Basics)
    requires Linked(ns, rank)
    ensures Linked(ns + [NewRec(b)], rank + [0])
    ensures forall x :: 0 <= x < |ns| ==>
      TreeAt(ns + [NewRec(b)], rank + [0], x) == TreeAt(ns, rank, x)
      && Reach(ns + [NewRec(b)], rank + [0], x) == Reach(ns, rank, x)
    ensures TreeAt(ns + [NewRec(b)], rank + [0], |ns|) == Node(b, ParentLink.None, Option.None, Option.None, Option.None)
    ensures Reach(ns + [NewRec(b)], rank + [0], |ns|) == {|ns|}
  {
    AppendKeepsLinked(ns, rank, b);
    PrefixFrame(ns, rank, ns + [NewRec(b)], rank + [0]);
  }

  /**
   * Attaching a standalone root `c` in the free slot `s` of a node `p` that
   * `c` does not own keeps the forest.
   */
  lemma AttachKeepsLinked(ns: seq<Rec>, rank: seq<nat>, p: nat, s: ParentLink, c: nat)
    requires Linked(ns, rank) && p < |ns| && c < |ns| && IsSlot(s)
    requires ns[p].Slot(s).None? && ns[c].parent.None?
    requires p !in Reach(ns, rank, c)
    ensures Linked(AttachRecs(ns, p, s, c), ShiftRanks(ns, rank, c))
  {
    var ns', rank' := AttachRecs(ns, p, s, c), ShiftRanks(ns, rank, c);
    var owned := Reach(ns, rank, c);
    ReachBounded(ns, rank, c);
    assert p != c;
    forall i, s' | 0 <= i < |ns'| ensures ChildLinked(ns', rank', i, s') {
      if ns'[i].Slot(s').Some? && !(i == p && s' == s) {
        assert ns'[i].Slot(s') == ns[i].Slot(s');
        ChildOf(ns, rank, i, s');
        var d := ns[i].Slot(s').value;
        assert d != c;
        if i in owned {
          ReachTransitive(ns, rank, c, i);
          ReachBounded(ns, rank, i);
        } else if d in owned {
          ReachParent(ns, rank, c, d);
        }
      }
    }
    forall i | 0 <= i < |ns'| ensures ParentLinked(ns', i) {
      ParentOf(ns, rank, i);
      if i != c && ns[i].parent.Some? {
        var q := ns[i].parent.value;
        assert ns[q].Slot(ns[i].side) == Some(i);
      }
    }
  }

  /** After the attach every subtree owning neither `p` nor `c` reads and owns as before. */
  lemma AttachFrame(ns: seq<Rec>, rank: seq<nat>, p: nat, s: ParentLink, c: nat)
    requires Linked(ns, rank) && p < |ns| && c < |ns| && IsSlot(s)
    requires ns[p].Slot(s).None? && ns[c].parent.None?
    requires p !in Reach(ns, rank, c)
    ensures Linked(AttachRecs(ns, p, s, c), ShiftRanks(ns, rank, c))
    ensures forall x :: 0 <= x < |ns| && p !in Reach(ns, rank, x) && c !in Reach(ns, rank, x) ==>
      TreeAt(AttachRecs(ns, p, s, c), ShiftRanks(ns, rank, c), x) == TreeAt(ns, rank, x)
      && Reach(AttachRecs(ns, p, s, c), ShiftRanks(ns, rank, c), x) == Reach(ns, rank, x)
  {
    AttachKeepsLinked(ns, rank, p, s, c);
    var ns', rank' := AttachRecs(ns, p, s, c), ShiftRanks(ns, rank, c);
    forall x | 0 <= x < |ns| && p !in Reach(ns, rank, x) && c !in Reach(ns, rank, x)
      ensures TreeAt(ns', rank', x) == TreeAt(ns, rank, x) && Reach(ns', rank', x) == Reach(ns, rank, x)
    {
      ReachBounded(ns, rank, x);
      TreeAtFrame(ns, rank, ns', rank', x);
    }
  }

  /** After the attach `c`'s subtree reads as before except for the slot it now records. */
  lemma AttachRootTree(ns: seq<Rec>, rank: seq<nat>, p: nat, s: ParentLink, c: nat)
    requires Linked(ns, rank) && p < |ns| && c < |ns| && IsSlot(s)
    requires ns[p].Slot(s).None? && ns[c].parent.None?
    requires p !in Reach(ns, rank, c)
    ensures Linked(AttachRecs(ns, p, s, c), ShiftRanks(ns, rank, c))
    ensures TreeAt(AttachRecs(ns, p, s, c), ShiftRanks(ns, rank, c), c) == TreeAt(ns, rank, c).(side := s)
    ensures Reach(AttachRecs(ns, p, s, c), ShiftRanks(ns, rank, c), c) == Reach(ns, rank, c)
  {
    AttachChildOfRoot(ns, rank, p, s, c);
    var ns', rank' := AttachRecs(ns, p, s, c), ShiftRanks(ns, rank, c);
    ReachBounded(ns, rank, c);
    assert p != c;
    assert ns'[c] == ns[c].(parent := Some(p), side := s);
    ChildrenLinked(ns, rank, c);
    ChildrenLinked(ns', rank', c);
  }

  /**
   * After the attach `p`'s subtree reads as `p`'s with `c`'s attached in
   * slot `s`, and owns what both owned.
   */
  lemma AttachParentTree(ns: seq<Rec>, rank: seq<nat>, p: nat, s: ParentLink, c: nat)
    requires Linked(ns, rank) && p < |ns| && c < |ns| && IsSlot(s)
    requires ns[p].Slot(s).None? && ns[c].parent.None?
    requires p !in Reach(ns, rank, c)
    ensures Linked(AttachRecs(ns, p, s, c), ShiftRanks(ns, rank, c))
    ensures TreeAt(AttachRecs(ns, p, s, c), ShiftRanks(ns, rank, c), p)
         == Attach(TreeAt(ns, rank, p), s, TreeAt(ns, rank, c))
    ensures Reach(AttachRecs(ns, p, s, c), ShiftRanks(ns, rank, c), p)
         == Reach(ns, rank, p) + Reach(ns, rank, c)
  {
    AttachRootTree(ns, rank, p, s, c);
    AttachChildOfParent(ns, rank, p, s, c);
    var ns', rank' := AttachRecs(ns, p, s, c), ShiftRanks(ns, rank, c);
    ReachBounded(ns, rank, c);
    assert p != c;
    assert ns'[p] == ns[p].WithSlot(s, c);
    ChildrenLinked(ns, rank, p);
    ChildrenLinked(ns', rank', p);
    var t, t' := TreeAt(ns, rank, p), TreeAt(ns', rank', p);
    var a := Attach(t, s, TreeAt(ns, rank, c));
    assert t'.Child(s) == a.Child(s);
    forall s' | s' != s ensures t'.Child(s') == a.Child(s') {
      assert ns'[p].Slot(s') == ns[p].Slot(s');
    }
    assert t'.Child(Left) == a.Child(Left) && t'.Child(Center) == a.Child(Center) && t'.Child(Right) == a.Child(Right);
  }

  /** The subtrees below the attached root are unchanged. */
  lemma AttachChildOfRoot(ns: seq<Rec>, rank: seq<nat>, p: nat, s: ParentLink, c: nat)
    requires Linked(ns, rank) && p < |ns| && c < |ns| && IsSlot(s)
    requires ns[p].Slot(s).None? && ns[c].parent.None?
    requires p !in Reach(ns, rank, c)
    ensures Linked(AttachRecs(ns, p, s, c), ShiftRanks(ns, rank, c))
    ensures forall s' :: ns[c].Slot(s').Some? ==> var d := ns[c].Slot(s').value;
      d < |ns| &&
      TreeAt(AttachRecs(ns, p, s, c), ShiftRanks(ns, rank, c), d) == TreeAt(ns, rank, d) &&
      Reach(AttachRecs(ns, p, s, c), ShiftRanks(ns, rank, c), d) == Reach(ns, rank, d)
  {
    AttachKeepsLinked(ns, rank, p, s, c);
    var ns', rank' := AttachRecs(ns, p, s, c), ShiftRanks(ns, rank, c);
    ReachBounded(ns, rank, c);
    forall s' | ns[c].Slot(s').Some?
      ensures var d := ns[c].Slot(s').value;
        d < |ns| && TreeAt(ns', rank', d) == TreeAt(ns, rank, d) && Reach(ns', rank', d) == Reach(ns, rank, d)
    {
      ChildOf(ns, rank, c, s');
      var d := ns[c].Slot(s').value;
      assert d in Reach(ns, rank, c) by { ChildrenLinked(ns, rank, c); }
      ReachTransitive(ns, rank, c, d);
      ReachBounded(ns, rank, d);
      TreeAtFrame(ns, rank, ns', rank', d);
    }
  }

  /** The other subtrees below the parent are unchanged. */
  lemma AttachChildOfParent(ns: seq<Rec>, rank: seq<nat>, p: nat, s: ParentLink, c: nat)
    requires Linked(ns, rank) && p < |ns| && c < |ns| && IsSlot(s)
    requires ns[p].Slot(s).None? && ns[c].parent.None?
    requires p !in Reach(ns, rank, c)
    ensures Linked(AttachRecs(ns, p, s, c), ShiftRanks(ns, rank, c))
    ensures forall s' :: s' != s && ns[p].Slot(s').Some? ==> var d := ns[p].Slot(s').value;
      d < |ns| &&
      TreeAt(AttachRecs(ns, p, s, c), ShiftRanks(ns, rank, c), d) == TreeAt(ns, rank, d) &&
      Reach(AttachRecs(ns, p, s, c), ShiftRanks(ns, rank, c), d) == Reach(ns, rank, d)
  {
    AttachKeepsLinked(ns, rank, p, s, c);
    var ns', rank' := AttachRecs(ns, p, s, c), ShiftRanks(ns, rank, c);
    forall s' | s' != s && ns[p].Slot(s').Some?
      ensures var d := ns[p].Slot(s').value;
        d < |ns| && TreeAt(ns', rank', d) == TreeAt(ns, rank, d) && Reach(ns', rank', d) == Reach(ns, rank, d)
    {
      ChildOf(ns, rank, p, s');
      var d := ns[p].Slot(s').value;
      ReachBounded(ns, rank, d);
      RootOwnedOnlyByItself(ns, rank, d, c);
      TreeAtFrame(ns, rank, ns', rank', d);
    }
  }

  /** Attaching a compatible child keeps every child fitting its parent. */
  lemma AttachKeepsTyped(ns: seq<Rec>, p: nat, s: ParentLink, c: nat)
    requires p < |ns| && c < |ns| && IsSlot(s) && p != c
    requires WellTypedRecs(ns) && Compatible(ns[p].basics, s, ns[c].basics)
    ensures WellTypedRecs(AttachRecs(ns, p, s, c))
  {
    var ns' := AttachRecs(ns, p, s, c);
    forall i, s' | 0 <= i < |ns'| && ns'[i].Slot(s').Some?
      ensures ns'[i].Slot(s').value < |ns'| && Compatible(ns'[i].basics, s', ns'[ns'[i].Slot(s').value].basics)
    {
      if !(i == p && s' == s) {
        assert ns'[i].Slot(s') == ns[i].Slot(s');
      }
    }
  }

  /**
   * Conversely, the arena after an attach into a free slot is well typed
   * only if it was before and the child fits the slot: the attach neither
   * repairs a mismatch elsewhere nor makes an unfitting child fit.
   */
  lemma AttachTypedOnlyIfCompatible(ns: seq<Rec>, p: nat, s: ParentLink, c: nat)
    requires p < |ns| && c < |ns| && IsSlot(s) && p != c && ns[p].Slot(s).None?
    requires WellTypedRecs(AttachRecs(ns, p, s, c))
    ensures WellTypedRecs(ns) && Compatible(ns[p].basics, s, ns[c].basics)
  {
    var ns' := AttachRecs(ns, p, s, c);
    assert ns'[p].Slot(s) == Some(c);
    forall i, s' | 0 <= i < |ns| && ns[i].Slot(s').Some?
      ensures ns[i].Slot(s').value < |ns| && Compatible(ns[i].basics, s', ns[ns[i].Slot(s').value].basics)
    {
      assert ns'[i].Slot(s') == ns[i].Slot(s');
    }
  }

  /** Both directions: after an attach into a free slot the arena is well typed exactly when it was and the child fits. */
  lemma AttachTyping(ns: seq<Rec>, p: nat, s: ParentLink, c: nat)
    requires p < |ns| && c < |ns| && IsSlot(s) && p != c && ns[p].Slot(s).None?
    ensures WellTypedRecs(AttachRecs(ns, p, s, c)) <==> WellTypedRecs(ns) && Compatible(ns[p].basics, s, ns[c].basics)
  {
    if WellTypedRecs(ns) && Compatible(ns[p].basics, s, ns[c].basics) {
      AttachKeepsTyped(ns, p, s, c);
    }
    if WellTypedRecs(AttachRecs(ns, p, s, c)) {
      AttachTypedOnlyIfCompatible(ns, p, s, c);
    }
  }

  /** In a well-typed arena every subtree is well typed. */
  lemma {:induction false} TypedArenaTypedTrees(ns: seq<Rec>, rank: seq<nat>, x: nat)
    requires Linked(ns, rank) && WellTypedRecs(ns) && x < |ns|
    ensures WellTyped(TreeAt(ns, rank, x))
    decreases rank[x]
  {
    ChildrenLinked(ns, rank, x);
    var l, c, r := ns[x].Slot(Left), ns[x].Slot(Center), ns[x].Slot(Right);
    if l.Some? { TypedArenaTypedTrees(ns, rank, l.value); }
    if c.Some? { TypedArenaTypedTrees(ns, rank, c.value); }
    if r.Some? { TypedArenaTypedTrees(ns, rank, r.value); }
  }

  /**
   * In a well-typed arena a node never holds more children than it
   * declares, and a terminal node holds none: `NodeCount` is the declared
   * count, an upper bound on the filled slots, not their number.
   */
  lemma FilledWithinNodeCount(ns: seq<Rec>, i: nat)
    requires WellTypedRecs(ns) && i < |ns|
    ensures Filled(ns[i]) <= ns[i].basics.NodeCount()
    ensures ns[i].basics.IsTerminal() ==> Filled(ns[i]) == 0
  {
    var l, c, r := ns[i].Slot(Left), ns[i].Slot(Center), ns[i].Slot(Right);
    assert l.Some? ==> SlotPermitted(ns[i].basics.cnt, Left);
    assert c.Some? ==> SlotPermitted(ns[i].basics.cnt, Center);
    assert r.Some? ==> SlotPermitted(ns[i].basics.cnt, Right);
  }
}
