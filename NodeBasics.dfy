/**
 * The scalar state of a genetic-programming tree node: its two type tags,
 * the number of children it is declared to take, the time-series flag and
 * its concrete kind, together with the accessors, the default evaluators,
 * the two homogeneous convenience kinds and the slot discipline of attaching.
 */
module NodeBasics {
  import opened Wrappers

  /** The two value types a node yields or expects (`Count` in the enum is only a table size). */
  datatype NodeType = Bool | Double

  /** Which slot of its parent a node occupies; `None` for a node without a parent. */
  datatype ParentLink = None | Left | Center | Right

  /** The three child slots, every `ParentLink` except `None`. */
  predicate IsSlot(s: ParentLink) {
    s != ParentLink.None
  }

  /** `unsigned int` */
  type uint32 = x: nat | x < 0x1_0000_0000

  /**
   * A concrete node kind (the class `N` of `NodeProxy<N>`), identified by its
   * name, together with the evaluators that class overrides.
   */
  datatype Kind = Kind(name: string, overrides: set<NodeType>)

  /**
   * What one node holds besides its links.  `text` is the text the kind's
   * `ToString` hook writes for this node.
   */
  datatype Basics = Basics(
    kind: Kind,
    returnType: NodeType,
    childType: NodeType,
    cnt: uint32,
    isTimeSeries: bool,
    text: string)
  {
    /** A terminal node is one declared to take no children. */
    predicate IsTerminal()
      ensures IsTerminal() <==> NodeCount() == 0
    {
      cnt == 0
    }

    /** The declared number of children, not the number of slots in use. */
    function NodeCount(): uint32 { cnt }

    function ReturnType(): NodeType { returnType }

    function ChildType(): NodeType { childType }

    predicate IsTimeSeries() { isTimeSeries }

    /** The per-node `ToString` hook. */
    function ToString(): string { text }
  }

  /** The error an evaluator throws when the concrete kind did not override it. */
  datatype LogicError = LogicError(what: string)

  /**
   * A call that reached the concrete kind's own evaluator.  What that
   * evaluator computes belongs to the kind and is outside this model.
   */
  datatype Dispatch = Dispatch(kind: Kind, evaluator: NodeType)

  /** Reaches the kind's own boolean evaluator, or fails when the kind has none. */
  function EvaluateBoolean(b: Basics): (r: Result<Dispatch, LogicError>)
    ensures r.Ok? <==> Bool in b.kind.overrides
    ensures r.Ok? ==> r.value.kind == b.kind && r.value.evaluator == Bool
    ensures r.Err? ==> r.error.what == "EvaluateBoolean no override"
  {
    if Bool in b.kind.overrides then Ok(Dispatch(b.kind, Bool))
    else Err(LogicError("EvaluateBoolean no override"))
  }

  /** Reaches the kind's own numeric evaluator, or fails when the kind has none. */
  function EvaluateDouble(b: Basics): (r: Result<Dispatch, LogicError>)
    ensures r.Ok? <==> Double in b.kind.overrides
    ensures r.Ok? ==> r.value.kind == b.kind && r.value.evaluator == Double
    ensures r.Err? ==> r.error.what == "EvaluateDouble no override"
  {
    if Double in b.kind.overrides then Ok(Dispatch(b.kind, Double))
    else Err(LogicError("EvaluateDouble no override"))
  }

  /** The evaluator for values of type `t`. */
  function Evaluate(b: Basics, t: NodeType): Result<Dispatch, LogicError> {
    match t
    case Bool => EvaluateBoolean(b)
    case Double => EvaluateDouble(b)
  }

  /** The convention every concrete kind follows: it overrides exactly the evaluator of its return type. */
  predicate OverridesOwnEvaluator(b: Basics) {
    b.kind.overrides == {b.returnType}
  }

  /**
   * An evaluator succeeds exactly when the kind overrides it; otherwise the
   * call fails with the "no override" error and never yields a value.  For a
   * kind that follows the convention, the evaluator of its return type
   * dispatches and the other one fails.
   */
  lemma EvaluateFailsUnlessOverridden(b: Basics, t: NodeType)
    ensures Evaluate(b, t).Ok? <==> t in b.kind.overrides
    ensures Evaluate(b, t).Ok? ==> Evaluate(b, t).value == Dispatch(b.kind, t)
    ensures Evaluate(b, t).Err? ==>
      Evaluate(b, t).error.what == (if t == Bool then "EvaluateBoolean no override" else "EvaluateDouble no override")
    ensures OverridesOwnEvaluator(b) ==> (Evaluate(b, t).Ok? <==> t == b.returnType)
  {
  }

  /** The node a `NodeDouble<N>` constructor builds: both type tags `Double`. */
  function NodeDouble(kind: Kind, cnt: uint32, isTimeSeries: bool, text: string): (b: Basics)
    ensures b.ReturnType() == b.ChildType() == Double
    ensures b.kind == kind && b.NodeCount() == cnt && b.IsTimeSeries() == isTimeSeries && b.ToString() == text
  {
    Basics(kind, Double, Double, cnt, isTimeSeries, text)
  }

  /** The node a `NodeBoolean<N>` constructor builds: both type tags `Bool`. */
  function NodeBoolean(kind: Kind, cnt: uint32, isTimeSeries: bool, text: string): (b: Basics)
    ensures b.ReturnType() == b.ChildType() == Bool
    ensures b.kind == kind && b.NodeCount() == cnt && b.IsTimeSeries() == isTimeSeries && b.ToString() == text
  {
    Basics(kind, Bool, Bool, cnt, isTimeSeries, text)
  }

  /**
   * The slots a node with declared child count `cnt` takes children in:
   * a single-operand node uses the center slot, a two-operand node the left
   * and right slots, and a three-operand node all three.
   */
  predicate SlotPermitted(cnt: nat, s: ParentLink)
    ensures SlotPermitted(cnt, s) ==> IsSlot(s) && cnt > 0
  {
    match s
    case None => false
    case Left => cnt >= 2
    case Right => cnt >= 2
    case Center => cnt == 1 || cnt >= 3
  }

  function PermittedSlots(cnt: nat): set<ParentLink> {
    set s | s in {Left, Center, Right} && SlotPermitted(cnt, s)
  }

  /** Two nodes with the same type tags and declared count fit the same places in a tree. */
  predicate SameSignature(a: Basics, b: Basics) {
    a.returnType == b.returnType && a.childType == b.childType && a.cnt == b.cnt
  }

  /** Attaching `child` in slot `s` of `parent` keeps the tree well typed. */
  predicate Compatible(parent: Basics, s: ParentLink, child: Basics) {
    SlotPermitted(parent.cnt, s) && child.returnType == parent.childType
  }

  /**
   * A node permits as many slots as it declares children, up to the three
   * slots there are; in particular a terminal node permits none.
   */
  lemma PermittedSlotsMatchCount(cnt: nat)
    ensures |PermittedSlots(cnt)| == if cnt <= 3 then cnt else 3
  {
    if cnt == 0 {
      assert PermittedSlots(cnt) == {};
    } else if cnt == 1 {
      assert PermittedSlots(cnt) == {Center};
    } else if cnt == 2 {
      assert PermittedSlots(cnt) == {Left, Right};
    } else {
      assert PermittedSlots(cnt) == {Left, Center, Right};
    }
  }

  /**
   * A node is terminal exactly when no child fits it in any slot; a
   * non-terminal node accepts a child of its child type in some slot.  The
   * attach operations in Arena.dfy require the child to fit, so none of
   * them can be applied to a terminal parent.
   */
  lemma TerminalRejectsEveryAttach(b: Basics)
    ensures b.IsTerminal() <==> forall s, c: Basics :: !Compatible(b, s, c)
  {
    if !b.IsTerminal() {
      var s := if b.cnt == 1 then Center else Left;
      var c := b.(returnType := b.childType);
      assert Compatible(b, s, c);
    }
  }
}
