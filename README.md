# Genetic-programming tree nodes, modelled in Dafny

This project models the typed expression-tree node of the One Unified
genetic-programming engine (`ou::gp::Node` in `lib/OUGP/Node.h`). Every node
has the following state:

- a return type and a child type, each `Bool` or `Double`;
- a declared child count, where 0 means a terminal node;
- a time-series flag;
- a concrete kind, the class `N` of `NodeProxy<N>`;
- three owned child slots: Left, Center and Right;
- a non-owning parent pointer, plus the `ParentLink` tag that names the parent's slot holding the node.

Four modules make up the model:

- `Wrappers.dfy`: `Option` and `Result`.
- `NodeBasics.dfy`: a node's scalar state (`Basics`) and its accessors. It also holds the default evaluators, which fail with a `logic_error` unless the kind overrides them, the `NodeDouble` and `NodeBoolean` kinds, and the rule for which slots a node of a given child count fills.
- `Trees.dfy`: a node and the subtree it owns, as a value. `CloneBasics`, `Attach` (the effect of `AddLeft`, `AddCenter` and `AddRight`), the deep copy `Replicate` and the pre-order dump `TreeToString` are functions on these values. Lemmas prove that the copy has the original's shape, kinds, typing and dump.
- `Links.dfy` and `Arena.dfy`: the nodes as mutable objects.
  - A `NodeArena` holds one record per node. Each record has its parent index, its `ParentLink` tag and its three child indices.
  - The attach operations update the parent's slot and the child's parent link in place, and `Replicate` appends new nodes.
  - A ghost rank that strictly decreases from parent to child keeps the links acyclic.
  - `Subtree(i)` reads the tree a node owns as a `Trees.Tree`. Through it, `AddChild`, `AddLeft`, `AddCenter` and `AddRight` are proved against `Trees.Attach`, `CloneBasics` against `Trees.CloneBasics` and `Replicate` against `Trees.Replicate`.
  - `NewNode` and `Assign` are specified by the records they leave behind: `NewNode` appends a record with no links, and `Assign` replaces one record's scalar state. `NewNode` also states the new node's subtree value.

The header declares `AddLeft`/`AddCenter`/`AddRight`, `Replicate`, `TreeToString`, the copy constructor and `Node::operator=` but does not define them. Their contracts here come from the declarations, the fields and the comments next to them. Anything the header does not settle is marked **assumption** below.

## Model

| member | source | states |
|---|---|---|
| NodeBasics.EvaluateBoolean | lib/OUGP/Node.h:62 | Returns a `Dispatch` to the kind's own boolean evaluator exactly when the kind overrides it. Otherwise it returns the error "EvaluateBoolean no override". |
| NodeBasics.EvaluateDouble | lib/OUGP/Node.h:63 | Returns a `Dispatch` to the kind's own numeric evaluator exactly when the kind overrides it. Otherwise it returns the error "EvaluateDouble no override". |
| NodeBasics.EvaluateFailsUnlessOverridden | lib/OUGP/Node.h:62-63 | An evaluator yields a value only when the concrete kind overrides it. Otherwise it fails with the error text "EvaluateBoolean no override" or "EvaluateDouble no override" and never yields a value. For a kind that overrides exactly the evaluator of its return type, that evaluator is the only one that succeeds. |
| Trees.TypedTreeEvaluates | lib/OUGP/Node.h:62-63 | Take a well-typed tree in which every kind overrides the evaluator of its own return type. Its root evaluates at its return type, and every child evaluates at its parent's child type. The "no override" error never arises in it. |
| NodeBasics.Basics.IsTerminal | lib/OUGP/Node.h:50 | True exactly when `NodeCount()` is 0. |
| NodeBasics.Basics.NodeCount | lib/OUGP/Node.h:51 | Returns the declared child count (`m_cntNodes`), not the number of filled slots. `Links.FilledWithinNodeCount` states the difference. |
| NodeBasics.Basics.ReturnType | lib/OUGP/Node.h:52 | Returns the node's return type. No modelled operation changes it: see the `basics` frames of the arena methods and the type clauses of `Assign`. |
| NodeBasics.Basics.ChildType | lib/OUGP/Node.h:53 | Returns the type the node expects of its children. No modelled operation changes it. |
| NodeBasics.Basics.IsTimeSeries | lib/OUGP/Node.h:55 | Returns the time-series flag. |
| NodeBasics.Basics.ToString | lib/OUGP/Node.h:60 | Returns the text the kind's `ToString` hook writes for this node. |
| NodeBasics.SlotPermitted | lib/OUGP/Node.h:91 | True when a node with the given count takes a child in slot `s`. It holds only for a real slot and a non-terminal count. **Assumption**: the slot rule (see Left out). |
| NodeBasics.NodeDouble | lib/OUGP/Node.h:124-131 | A `NodeDouble` node has return type and child type both `Double`. It keeps the kind, count, flag and text it was built with. |
| NodeBasics.NodeBoolean | lib/OUGP/Node.h:133-140 | A `NodeBoolean` node has return type and child type both `Bool`. It keeps the kind, count, flag and text it was built with. |
| NodeBasics.TerminalRejectsEveryAttach | lib/OUGP/Node.h:50 | `IsTerminal()` holds exactly when no child fits in any slot. A node with a non-zero count accepts a child of its child type in some slot. |
| NodeBasics.PermittedSlotsMatchCount | lib/OUGP/Node.h:91 | A node with child count n uses min(n, 3) of the three slots. A terminal node uses none. **Assumption**: the slot rule (see Left out). |
| Links.FilledWithinNodeCount | lib/OUGP/Node.h:50-51 | In a well-typed arena, `NodeCount()` bounds the number of filled slots; it is not that number. A terminal node holds no child. |
| Trees.CloneBasics | lib/OUGP/Node.h:116-119 | The clone has the original's kind and scalar state. It has no parent tag and no children. |
| Trees.Attach | lib/OUGP/Node.h:68-70 | After an attach, slot `s` holds the child, now tagged with `s`. The other two slots, the node's scalar state and its own tag are unchanged. |
| Trees.Replicate | lib/OUGP/Node.h:76 | The copy has the original's basics at the root and no parent tag. Every child in it is tagged with the slot that holds it. |
| Trees.ReplicateMatchesOriginal | lib/OUGP/Node.h:76 | With the parent-side tags cleared, the copy equals the original: same shape, kinds and scalar state everywhere. |
| Trees.PreOrder | lib/OUGP/Node.h:59 | The pre-order node sequence is non-empty and starts with the node itself. |
| Trees.TreeToString | lib/OUGP/Node.h:59 | The dump starts with the node's own `ToString` text. `Trees.TreeToStringIsPreOrderTexts` states the rest. |
| Trees.TreeToStringIsPreOrderTexts | lib/OUGP/Node.h:59-60 | `TreeToString` writes each node's `ToString` text in pre-order (self, left, center, right) with nothing in between. **Assumption**: this format (see Left out). |
| Trees.WellLinkedDeterminedByErase | lib/OUGP/Node.h:94 | When every node's tag names its slot, the tags carry no information: two such trees with the same root tag and the same untagged shape are equal. |
| Trees.ReplicatePreservesDump | lib/OUGP/Node.h:59 | The copy has the same pre-order node sequence and the same `TreeToString` output as the original. |
| Trees.ReplicatePreservesTyping | lib/OUGP/Node.h:82-83 | The copy is well typed exactly when the original is. |
| Trees.ReplicateOfWellLinked | lib/OUGP/Node.h:76 | Replicating a tree whose tags are consistent gives the tree itself, detached from its parent. Replicating a copy gives the same copy again. |
| Links.ChildOf | lib/OUGP/Node.h:85-89 | The child in a slot names its parent and the slot back, and sits lower in the tree. |
| Links.ParentOf | lib/OUGP/Node.h:85 | A node with a parent is held in the slot its tag names. A parentless node has tag `None`. |
| Links.ChildTree | lib/OUGP/Node.h:87-89 | Each slot of a node's subtree value is the subtree of the child recorded in that slot, or empty when the slot is empty. |
| Links.RootOwnedOnlyByItself | lib/OUGP/Node.h:85 | A parentless node belongs to no subtree except its own. |
| Links.AttachKeepsLinked | lib/OUGP/Node.h:68-70 | Putting a parentless node into a free slot of a node outside its own subtree keeps parent and child links consistent and acyclic. |
| Links.AttachParentTree | lib/OUGP/Node.h:68-70 | After the attach, the parent's subtree is `Trees.Attach` of the two old subtrees and owns the nodes of both. |
| Links.AttachRootTree | lib/OUGP/Node.h:68-70 | After the attach, the attached subtree is unchanged except for the slot tag it now records. |
| Links.AttachFrame | lib/OUGP/Node.h:68-70 | Every subtree that contains neither the parent nor the child is unchanged by the attach. |
| Links.AttachTypedOnlyIfCompatible | lib/OUGP/Node.h:68-70 | Conversely, the arena after an attach into a free slot is well typed only if it was before and the child fits the slot. |
| Links.AttachTyping | lib/OUGP/Node.h:68-70 | Both directions together: after an attach into a free slot the arena is well typed exactly when it was before and the child fits. |
| Links.AttachKeepsTyped | lib/OUGP/Node.h:68-70 | Attaching a child that fits the parent's slot and child type keeps every parent-child pair well typed. |
| Links.TypedArenaTypedTrees | lib/OUGP/Node.h:82-83 | When every parent-child pair in the arena is well typed, so is every subtree. |
| Arena.NodeArena.ParentSide | lib/OUGP/Node.h:57 | `ParentSide()` returns `None` exactly when the node has no parent. Otherwise it names the slot of the parent that holds the node. |
| Arena.NodeArena.Parent | lib/OUGP/Node.h:65 | Defined only when the node has a parent. The parent holds the node in the slot `ParentSide()` names. |
| Arena.NodeArena.ChildLeft | lib/OUGP/Node.h:72 | Defined only when the left slot is filled. The child's parent is this node and its side is `Left`. |
| Arena.NodeArena.ChildCenter | lib/OUGP/Node.h:73 | Defined only when the center slot is filled. The child's parent is this node and its side is `Center`. |
| Arena.NodeArena.ChildRight | lib/OUGP/Node.h:74 | Defined only when the right slot is filled. The child's parent is this node and its side is `Right`. |
| Arena.NodeArena.NewNode | lib/OUGP/Node.h:44 | A new node has the given scalar state, no parent and no children. No existing subtree changes. |
| Arena.NodeArena.CloneBasics | lib/OUGP/Node.h:96 | Adds a node with the original's scalar state and no links. Its subtree is `Trees.CloneBasics` of the original's. No existing subtree changes. |
| Arena.NodeArena.Link | lib/OUGP/Node.h:85-94 | The link update itself, which does not check the child's fit. It puts `c` in the free slot `s` of `p` and records `p` and `s` in `c`. `p`'s subtree becomes `Trees.Attach` of the old subtrees, and the links stay a forest. The arena is well typed afterwards exactly when it was before and `c` fits the slot. No node's scalar state changes, and every subtree containing neither node is unchanged. |
| Arena.NodeArena.AddChild | lib/OUGP/Node.h:68-70 | Attaching requires a free slot that `p`'s count uses, a parentless child outside whose subtree `p` lies, and a child whose return type is `p`'s child type. Otherwise the precondition fails. The effect is `Link`'s, and the arena's typing is unchanged. |
| Arena.NodeArena.AddLeft | lib/OUGP/Node.h:68 | `AddChild` in the left slot, with the same preconditions and guarantees. |
| Arena.NodeArena.AddCenter | lib/OUGP/Node.h:69 | `AddChild` in the center slot, with the same preconditions and guarantees. |
| Arena.NodeArena.AddRight | lib/OUGP/Node.h:70 | `AddChild` in the right slot, with the same preconditions and guarantees. |
| Arena.NodeArena.Replicate | lib/OUGP/Node.h:76 | Returns a new parentless node whose subtree is `Trees.Replicate` of the original's. The appended records are exactly the copy's nodes: the copy owns every new index and no old one. The copy keeps types. Every existing record and subtree is unchanged. |
| Arena.NodeArena.ReplicateSlot | lib/OUGP/Node.h:76 | One slot of the copy under construction: it receives the replica of the original's child in that slot, if there is one. The other slots and the original nodes are unchanged, and every index from the copy's root on stays owned by the copy. |
| Arena.NodeArena.ReplicateChild | lib/OUGP/Node.h:76 | Attaches the replica of one original child in a free slot of the copy. Every index from the copy's root on stays owned by the copy. |
| Arena.NodeArena.Assign | lib/OUGP/Node.h:108-113 | Copy assignment between two nodes of the same kind `N`: `NodeProxy::operator=`, then the copy of `N`'s own members. The target gets the source's scalar state, including the `ToString` text that `N`'s members determine. Every link and every other node stays as it was, and so do the target's return and child types. Assigning a node to itself changes nothing. The arena is well typed afterwards exactly when it was before. **Assumption**: `Node::operator=` copies the scalar state only, and a kind fixes its types and count. |

## Left out

- The `boost::shared_ptr` typedef `pNode_t` is not modelled: the node does not use it for ownership.
- The `FactoryType` enum is not modelled: the node factories are not part of this model.
- `PreProcess` is not modelled: it is an empty hook whose behaviour belongs to the GP module and its time-series data.
- The `std::stringstream` plumbing and `operator<<` are not modelled: text output is a returned `string`.
- `ToString` is modelled as the per-node `text` field of `Basics`. The concrete kinds that override it are not part of this model. The model does not tie the text to whether the kind overrides the hook. The default hook writes nothing, but the model does not promise an empty text for a kind that keeps it.
- Evaluation is not modelled: the double and boolean arithmetic of the concrete kinds is floating point and those kinds are not shown. An overridden evaluator returns a `Dispatch` value naming the kind and the evaluator reached.
- The destructor and memory reclamation are not modelled: the arena never frees nodes.
- `dynamic_cast` and the CRTP mechanics are not modelled: a `Kind` tag in the scalar state stands in for them.
- Pointer aliasing is not modelled: nodes are arena indices, and a parent pointer is an index.
- Arena.NodeArena.NewNode: the constructor `Node(ReturnType, ChildType)` does not say how the count, flag and kind are initialised, so the new node takes the whole scalar state as a parameter.
- Trees.CloneBasics and Arena.NodeArena.CloneBasics: **assumption**. The copy constructor behind `NodeProxy::CloneBasics` copies the scalar state and clears the parent, the slots and the tag. Its body is not in the header.
- Arena.NodeArena.AddChild, AddLeft, AddCenter, AddRight: **assumption**. The header checks none of the preconditions; the model makes every one a precondition, as an attach body that asserts them would. They are a free slot, a slot that the parent's declared count uses (`SlotPermitted`), a child return type equal to the parent's child type, a parentless child, and a parent outside the child's subtree.
- Arena.NodeArena.Replicate: links the copies with `Link`, which does not check the fit. A copy of a well-typed subtree fits everywhere; copying an ill-typed subtree, which the checked attach operations cannot build, is not refused.
- NodeBasics.SlotPermitted: **assumption**. The rule for count 2 (Left and Right) follows the "used with two node" comment on `AddLeft` and `AddRight`. The comment on `AddCenter` says "used with terminal node"; the model reads it as a single-operand node (count 1, the "single" of the `m_cntNodes` comment) whose operand is often a terminal, since under the count rule a terminal node takes no child at all. No comment covers counts of 3 or more; the model lets them use all three slots.
- Trees.TreeToString: **assumption**. The body is not in the header. It is modelled as a plain pre-order concatenation of each node's text, with no separators.
- Arena.NodeArena.Assign: **assumption**. The model copies the scalar state, including the return and child types and the `ToString` text, and leaves the links untouched. `Node::operator=`'s body is not in the header. The modelled operation is the implicit copy assignment of the kind `N`. It runs `NodeProxy::operator=` and then copies `N`'s own members, which determine the text. It also requires the two nodes to have the same signature: same return type, child type and declared count. That follows from `NodeProxy<N>::operator=` accepting only another `N`, because the constructor of `N` fixes these. For `NodeDouble<N>` and `NodeBoolean<N>` the constructor fixes both types, and the count is taken to be fixed the same way.
- Arena.NodeArena.Assign: a direct `Node::operator=` between nodes of different kinds is not modelled. Under the scalar-copy assumption it would change the target's return and child types.
- `NodeType::Count` is not modelled: it is the number of types, used only as a table size, and is not a type a node can have.
- `Parent()`, `ChildLeft()`, `ChildCenter()` and `ChildRight()` assert that the link is present. The model turns each assertion into a precondition.
