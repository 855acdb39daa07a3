/**
 * A node together with the subtree it owns, as a value: what `Replicate`
 * copies and `TreeToString` writes.  The arena in Arena.dfy stores the same
 * trees with parent links and maps each of its nodes to one of these values.
 */
module Trees {
  import opened Wrappers
  import opened NodeBasics

  /** A node, the slot it occupies in its parent, and its three owned children. */
  datatype Tree = Node(basics: Basics, side: ParentLink, left: Option<Tree>, center: Option<Tree>, right: Option<Tree>)
  {
    /** The child in slot `s`. */
    function Child(s: ParentLink): Option<Tree> {
      match s
      case None => Option.None
      case Left => left
      case Center => center
      case Right => right
    }
  }

  /** A node as constructed: no parent and no children. */
  predicate Standalone(t: Tree) {
    t.side == ParentLink.None && t.left == t.center == t.right == Option.None
  }

  /** Every child records the slot it occupies, all the way down. */
  predicate WellLinked(t: Tree) {
    && (t.left.Some? ==> t.left.value.side == Left && WellLinked(t.left.value))
    && (t.center.Some? ==> t.center.value.side == Center && WellLinked(t.center.value))
    && (t.right.Some? ==> t.right.value.side == Right && WellLinked(t.right.value))
  }

  /** Every child fits its parent's declared count and child type, all the way down. */
  predicate WellTyped(t: Tree) {
    && (t.left.Some? ==> Compatible(t.basics, Left, t.left.value.basics) && WellTyped(t.left.value))
    && (t.center.Some? ==> Compatible(t.basics, Center, t.center.value.basics) && WellTyped(t.center.value))
    && (t.right.Some? ==> Compatible(t.basics, Right, t.right.value.basics) && WellTyped(t.right.value))
  }

  /** The tree with every parent-side tag cleared: the shape and the nodes' scalar state only. */
  function Erase(t: Tree): Tree {
    Node(t.basics, ParentLink.None,
      if t.left.Some? then Some(Erase(t.left.value)) else Option.None,
      if t.center.Some? then Some(Erase(t.center.value)) else Option.None,
      if t.right.Some? then Some(Erase(t.right.value)) else Option.None)
  }

  /** The fresh node `CloneBasics` makes: same kind and scalar state, no links. */
  function CloneBasics(t: Tree): (r: Tree)
    ensures r.basics == t.basics && Standalone(r)
  {
    Node(t.basics, ParentLink.None, Option.None, Option.None, Option.None)
  }

  /**
   * `t` after `AddLeft`, `AddCenter` or `AddRight` put `c` in slot `s`: the
   * slot holds `c`, which now records that slot; nothing else of `t` changes.
   */
  function Attach(t: Tree, s: ParentLink, c: Tree): (r: Tree)
    requires IsSlot(s)
    ensures r.Child(s) == Some(c.(side := s))
    ensures forall s' :: s' != s ==> r.Child(s') == t.Child(s')
    ensures r.basics == t.basics && r.side == t.side
  {
    match s
    case Left => t.(left := Some(c.(side := Left)))
    case Center => t.(center := Some(c.(side := Center)))
    case Right => t.(right := Some(c.(side := Right)))
  }

  /**
   * A copy of this node plus recursively replicated children: a clone of
   * the node's basics, with the replica of each present child attached in
   * the same slot.  The copy has no parent and every node in it records
   * its slot; `ReplicateMatchesOriginal` shows that apart from those tags
   * it equals the original.
   */
  function Replicate(t: Tree): (r: Tree)
    ensures r.basics == t.basics && r.side == ParentLink.None
    ensures WellLinked(r)
  {
    var n0 := CloneBasics(t);
    var n1 := if t.left.Some? then Attach(n0, Left, Replicate(t.left.value)) else n0;
    var n2 := if t.center.Some? then Attach(n1, Center, Replicate(t.center.value)) else n1;
    if t.right.Some? then Attach(n2, Right, Replicate(t.right.value)) else n2
  }

  /** Apart from the parent-side tags, the replica is the original. */
  lemma {:induction false} ReplicateMatchesOriginal(t: Tree)
    ensures Erase(Replicate(t)) == Erase(t)
  {
    if t.left.Some? { ReplicateMatchesOriginal(t.left.value); }
    if t.center.Some? { ReplicateMatchesOriginal(t.center.value); }
    if t.right.Some? { ReplicateMatchesOriginal(t.right.value); }
  }

  /** `acc` with the replica of `t`'s child in slot `s` attached in that slot, if `t` has such a child. */
  function ReplicaStep(acc: Tree, s: ParentLink, t: Tree): Tree
    requires IsSlot(s)
  {
    if t.Child(s).Some? then Attach(acc, s, Replicate(t.Child(s).value)) else acc
  }

  /** `Replicate` fills the clone's slots one at a time, left, center, right. */
  lemma ReplicateBySlots(t: Tree)
    ensures Replicate(t) == ReplicaStep(ReplicaStep(ReplicaStep(CloneBasics(t), Left, t), Center, t), Right, t)
  {
  }

  /** Writes the node's own text, then the left, center and right subtrees, skipping absent slots. */
  function TreeToString(t: Tree): (r: string)
    ensures t.basics.ToString() <= r
  {
    t.basics.ToString()
    + (if t.left.Some? then TreeToString(t.left.value) else "")
    + (if t.center.Some? then TreeToString(t.center.value) else "")
    + (if t.right.Some? then TreeToString(t.right.value) else "")
  }

  /** Every node of the tree overrides the evaluator of its own return type. */
  predicate OwnEvaluators(t: Tree) {
    && OverridesOwnEvaluator(t.basics)
    && (t.left.Some? ==> OwnEvaluators(t.left.value))
    && (t.center.Some? ==> OwnEvaluators(t.center.value))
    && (t.right.Some? ==> OwnEvaluators(t.right.value))
  }

  /** Evaluating each child at its parent's child type reaches an evaluator, all the way down. */
  predicate ChildrenEvaluate(t: Tree) {
    && (t.left.Some? ==> Evaluate(t.left.value.basics, t.basics.ChildType()).Ok? && ChildrenEvaluate(t.left.value))
    && (t.center.Some? ==> Evaluate(t.center.value.basics, t.basics.ChildType()).Ok? && ChildrenEvaluate(t.center.value))
    && (t.right.Some? ==> Evaluate(t.right.value.basics, t.basics.ChildType()).Ok? && ChildrenEvaluate(t.right.value))
  }

  /**
   * In a well-typed tree whose kinds override the evaluator of their own
   * return type, the root evaluates at its return type and no parent ever
   * asks a child for a value the child cannot produce: the "no override"
   * error never arises.
   */
  lemma {:induction false} TypedTreeEvaluates(t: Tree)
    requires WellTyped(t) && OwnEvaluators(t)
    ensures Evaluate(t.basics, t.basics.ReturnType()).Ok?
    ensures ChildrenEvaluate(t)
  {
    EvaluateFailsUnlessOverridden(t.basics, t.basics.ReturnType());
    if t.left.Some? { TypedTreeEvaluates(t.left.value); }
    if t.center.Some? { TypedTreeEvaluates(t.center.value); }
    if t.right.Some? { TypedTreeEvaluates(t.right.value); }
  }

  /** The nodes of the tree in pre-order: self, then left, center and right. */
  function PreOrder(t: Tree): (r: seq<Basics>)
    ensures |r| >= 1 && r[0] == t.basics
  {
    [t.basics]
    + (if t.left.Some? then PreOrder(t.left.value) else [])
    + (if t.center.Some? then PreOrder(t.center.value) else [])
    + (if t.right.Some? then PreOrder(t.right.value) else [])
  }

  /** The texts of a sequence of nodes, one after the other. */
  function Texts(s: seq<Basics>): string {
    if s == [] then "" else s[0].ToString() + Texts(s[1..])
  }

  lemma {:induction false} TextsAppend(a: seq<Basics>, b: seq<Basics>)
    ensures Texts(a + b) == Texts(a) + Texts(b)
  {
    if a == [] {
      assert a + b == b;
    } else {
      assert (a + b)[1..] == a[1..] + b;
      TextsAppend(a[1..], b);
    }
  }

  /** The dump is the nodes' own texts in pre-order, with nothing in between. */
  lemma {:induction false} TreeToStringIsPreOrderTexts(t: Tree)
    ensures TreeToString(t) == Texts(PreOrder(t))
  {
    var l := if t.left.Some? then PreOrder(t.left.value) else [];
    var c := if t.center.Some? then PreOrder(t.center.value) else [];
    var r := if t.right.Some? then PreOrder(t.right.value) else [];
    if t.left.Some? { TreeToStringIsPreOrderTexts(t.left.value); }
    if t.center.Some? { TreeToStringIsPreOrderTexts(t.center.value); }
    if t.right.Some? { TreeToStringIsPreOrderTexts(t.right.value); }
    assert PreOrder(t) == [t.basics] + l + c + r;
    TextsAppend([t.basics] + l + c, r);
    TextsAppend([t.basics] + l, c);
    TextsAppend([t.basics], l);
    assert Texts([t.basics]) == t.basics.ToString() + Texts([]);
  }

  /** The pre-order sequence does not look at parent-side tags. */
  lemma {:induction false} PreOrderIgnoresSides(t: Tree)
    ensures PreOrder(Erase(t)) == PreOrder(t)
  {
    if t.left.Some? { PreOrderIgnoresSides(t.left.value); }
    if t.center.Some? { PreOrderIgnoresSides(t.center.value); }
    if t.right.Some? { PreOrderIgnoresSides(t.right.value); }
  }

  /** Nor does well-typedness. */
  lemma {:induction false} WellTypedIgnoresSides(t: Tree)
    ensures WellTyped(Erase(t)) == WellTyped(t)
  {
    if t.left.Some? { WellTypedIgnoresSides(t.left.value); }
    if t.center.Some? { WellTypedIgnoresSides(t.center.value); }
    if t.right.Some? { WellTypedIgnoresSides(t.right.value); }
  }

  /**
   * Two well-linked trees with the same root tag are equal as soon as they
   * agree with their tags cleared: the tags carry nothing the slots do not.
   */
  lemma {:induction false} WellLinkedDeterminedByErase(a: Tree, b: Tree)
    requires WellLinked(a) && WellLinked(b) && a.side == b.side
    requires Erase(a) == Erase(b)
    ensures a == b
  {
    if a.left.Some? { WellLinkedDeterminedByErase(a.left.value, b.left.value); }
    if a.center.Some? { WellLinkedDeterminedByErase(a.center.value, b.center.value); }
    if a.right.Some? { WellLinkedDeterminedByErase(a.right.value, b.right.value); }
  }

  /** The replica has the same pre-order nodes and the same dump as the original. */
  lemma {:induction false} ReplicatePreservesDump(t: Tree)
    ensures PreOrder(Replicate(t)) == PreOrder(t)
    ensures TreeToString(Replicate(t)) == TreeToString(t)
  {
    ReplicateMatchesOriginal(t);
    PreOrderIgnoresSides(t);
    PreOrderIgnoresSides(Replicate(t));
    TreeToStringIsPreOrderTexts(t);
    TreeToStringIsPreOrderTexts(Replicate(t));
  }

  /** Replicating keeps the tree well typed. */
  lemma {:induction false} ReplicatePreservesTyping(t: Tree)
    ensures WellTyped(Replicate(t)) == WellTyped(t)
  {
    ReplicateMatchesOriginal(t);
    WellTypedIgnoresSides(t);
    WellTypedIgnoresSides(Replicate(t));
  }

  /**
   * The replica of a well-linked tree is the tree itself, detached from its
   * parent; replicating a replica gives the same replica again.
   */
  lemma {:induction false} ReplicateOfWellLinked(t: Tree)
    ensures WellLinked(t) ==> Replicate(t) == t.(side := ParentLink.None)
    ensures Replicate(Replicate(t)) == Replicate(t)
  {
    var d := t.(side := ParentLink.None);
    assert Erase(d) == Erase(t);
    ReplicateMatchesOriginal(t);
    if WellLinked(t) {
      assert WellLinked(d);
      WellLinkedDeterminedByErase(Replicate(t), d);
    }
    var r := Replicate(t);
    ReplicateMatchesOriginal(r);
    WellLinkedDeterminedByErase(Replicate(r), r.(side := ParentLink.None));
  }
}
