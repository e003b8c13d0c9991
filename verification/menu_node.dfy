/** The menu tree: nodes built from AD_Menu entries, their id scheme, the
    children ordering of the builder, equality by id, the filter-driven deep
    copy and the pre-order traversal. The parent back-pointer is not part of
    the value model. */
module MenuNodes {
  import opened Wrappers
  import opened JavaLang
  import opened DocumentIds
  import opened Seqs

  datatype MenuNodeType = Group | Window | NewRecord | Process | Report | Board

  datatype Resolution = Accept | Reject | AcceptIfHasChildren | AcceptIfParentIsAccepted

  type Filter = MenuNode -> Resolution

  datatype MenuNode = MenuNode(
    id: string,
    adMenuId: Int32,
    caption: Option<string>,
    captionBreadcrumb: Option<string>,
    nodeType: Option<MenuNodeType>,
    elementId: Option<DocumentId>,
    mainTableName: Option<string>,
    children: seq<MenuNode>,
    matchedByFilter: bool)

  datatype MenuError =
    | MenuIdNotSet             // AdempiereException "AD_Menu_ID not set"
    | OnlyGroupsHaveChildren   // IllegalArgumentException
    | NullChild                // NullPointerException from checkNotNull

  const NEW_RECORD_SUFFIX: string := "-new"

  // ---------------------------------------------------------------------------
  // Builder

  datatype Builder = Builder(
    adMenuId: Int32,
    caption: Option<string>,
    captionBreadcrumb: Option<string>,
    nodeType: Option<MenuNodeType>,
    elementId: Option<DocumentId>,
    mainTableName: Option<string>,
    childrenFirst: seq<MenuNode>,
    childrenRest: seq<MenuNode>)

  /** `MenuNode.builder()`: AD_Menu_ID starts unset (-1). */
  const NEW_BUILDER: Builder := Builder(-1, None, None, None, None, None, [], [])

  /** `getId()`: the menu id in decimal, with "-new" appended for a NewRecord
      node; an unset (negative) menu id fails, 0 is accepted. */
  function NodeId(adMenuId: Int32, nodeType: Option<MenuNodeType>): (r: Result<string, MenuError>)
    ensures adMenuId < 0 <==> r == Err(MenuIdNotSet)
    ensures r.Ok? && nodeType != Some(NewRecord) ==> AllDigits(r.value) && ParseInt(r.value) == Some(adMenuId)
    ensures r.Ok? && nodeType == Some(NewRecord) ==>
              |r.value| > |NEW_RECORD_SUFFIX| &&
              r.value[|r.value| - |NEW_RECORD_SUFFIX|..] == NEW_RECORD_SUFFIX &&
              ParseInt(r.value[..|r.value| - |NEW_RECORD_SUFFIX|]) == Some(adMenuId)
  {
    if adMenuId < 0 then Err(MenuIdNotSet)
    else
      var digits := IntToString(adMenuId);
      ParseIntOfIntToString(adMenuId);
      if nodeType == Some(NewRecord) then
        var id := digits + NEW_RECORD_SUFFIX;
        assert id[..|id| - |NEW_RECORD_SUFFIX|] == digits;
        assert id[|id| - |NEW_RECORD_SUFFIX|..] == NEW_RECORD_SUFFIX;
        Ok(id)
      else Ok(digits)
  }

  /** Two nodes get the same id exactly when they have the same menu id and are
      both NewRecord nodes or both not. */
  lemma NodeIdIsInjective(m1: Int32, t1: Option<MenuNodeType>, m2: Int32, t2: Option<MenuNodeType>)
    requires NodeId(m1, t1).Ok? && NodeId(m2, t2).Ok?
    ensures NodeId(m1, t1) == NodeId(m2, t2) <==> m1 == m2 && (t1 == Some(NewRecord) <==> t2 == Some(NewRecord))
  {
    var s1 := NodeId(m1, t1).value;
    var s2 := NodeId(m2, t2).value;
    if s1 == s2 && t1 == Some(NewRecord) && t2 == Some(NewRecord) {
      assert s1[..|s1| - 4] == s2[..|s2| - 4];
    }
  }

  function SetAdMenuId(b: Builder, adMenuId: Int32): (r: Builder)
    ensures r.adMenuId == adMenuId
  {
    b.(adMenuId := adMenuId)
  }

  /** `setTypeGroup()`: a Group node has no element id. */
  function SetTypeGroup(b: Builder): (r: Builder)
    ensures r.nodeType == Some(Group) && r.elementId.None?
  {
    b.(nodeType := Some(Group), elementId := None)
  }

  /** `addChildToFirstsList(child)`. */
  function AddChildToFirstsList(b: Builder, child: Option<MenuNode>): (r: Result<Builder, MenuError>)
    ensures child.None? <==> r == Err(NullChild)
    ensures r.Ok? ==> r.value == b.(childrenFirst := b.childrenFirst + [child.value])
  {
    match child
    case None => Err(NullChild)
    case Some(c) => Ok(b.(childrenFirst := b.childrenFirst + [c]))
  }

  /** `addChild(child)`. */
  function AddChild(b: Builder, child: Option<MenuNode>): (r: Result<Builder, MenuError>)
    ensures child.None? <==> r == Err(NullChild)
    ensures r.Ok? ==> r.value == b.(childrenRest := b.childrenRest + [child.value])
  {
    match child
    case None => Err(NullChild)
    case Some(c) => Ok(b.(childrenRest := b.childrenRest + [c]))
  }

  /** `addChildren(children)`: null or empty changes nothing. */
  function AddChildren(b: Builder, children: Option<seq<MenuNode>>): (r: Builder)
    ensures children.None? ==> r == b
    ensures children.Some? ==> r == b.(childrenRest := b.childrenRest + children.value)
  {
    match children
    case None => b
    case Some(cs) => if |cs| == 0 then b else b.(childrenRest := b.childrenRest + cs)
  }

  /** `build()`: the id is computed first, then the children are the firsts
      list followed by the rest, and only a Group may have any. */
  function Build(b: Builder): (r: Result<MenuNode, MenuError>)
    ensures b.adMenuId < 0 ==> r == Err(MenuIdNotSet)
    ensures b.adMenuId >= 0 && b.nodeType != Some(Group) && |b.childrenFirst + b.childrenRest| > 0 ==>
              r == Err(OnlyGroupsHaveChildren)
    ensures r.Ok? <==> b.adMenuId >= 0 && (b.nodeType == Some(Group) || |b.childrenFirst + b.childrenRest| == 0)
    ensures r.Ok? ==> Ok(r.value.id) == NodeId(b.adMenuId, b.nodeType) && r.value.adMenuId == b.adMenuId
    ensures r.Ok? ==> r.value.children == b.childrenFirst + b.childrenRest && !r.value.matchedByFilter
    ensures r.Ok? ==> r.value.nodeType == b.nodeType && r.value.caption == b.caption && r.value.elementId == b.elementId
  {
    var id :- NodeId(b.adMenuId, b.nodeType);
    var children := b.childrenFirst + b.childrenRest;
    if b.nodeType != Some(Group) && |children| > 0 then Err(OnlyGroupsHaveChildren)
    else Ok(MenuNode(id, b.adMenuId, b.caption, b.captionBreadcrumb, b.nodeType, b.elementId,
                     b.mainTableName, children, false))
  }

  /** Children added to the firsts list come before all others, whatever the
      order of the calls. */
  lemma FirstsListComesFirst(b: Builder, x: MenuNode, y: MenuNode)
    requires b.nodeType == Some(Group) && b.adMenuId >= 0
    ensures var b1 := AddChild(b, Some(y)).value;
            var b2 := AddChildToFirstsList(b1, Some(x)).value;
            Build(b2).Ok? && Build(b2).value.children == b.childrenFirst + [x] + b.childrenRest + [y]
  {
  }

  /** `isEffectiveLeafNode()`. */
  predicate IsEffectiveLeafNode(n: MenuNode) {
    |n.children| == 0
  }

  /** A built node other than a Group is always a leaf; a Group may be one too. */
  lemma BuiltNonGroupIsLeaf(b: Builder)
    requires Build(b).Ok? && b.nodeType != Some(Group)
    ensures IsEffectiveLeafNode(Build(b).value)
  {
  }

  // ---------------------------------------------------------------------------
  // Equality

  /** `equals`: by id. */
  predicate Equals(a: MenuNode, b: MenuNode) {
    a.id == b.id
  }

  /** `hashCode()`: `Objects.hash(id)`, that is 31 + the id's hash, in 32 bits. */
  function HashCode(n: MenuNode): Int32 {
    Wrap32(31 + StringHash(n.id))
  }

  lemma EqualNodesHashAlike(a: MenuNode, b: MenuNode)
    requires Equals(a, b)
    ensures HashCode(a) == HashCode(b)
  {
  }

  // ---------------------------------------------------------------------------
  // Deep copy

  function Ids(ns: seq<MenuNode>): (r: seq<string>)
    ensures |r| == |ns|
    ensures forall i :: 0 <= i < |ns| ==> r[i] == ns[i].id
  {
    Map(ns, (n: MenuNode) => n.id)
  }

  function Copies(kept: seq<(MenuNode, Resolution)>): (r: seq<MenuNode>)
    ensures |r| == |kept|
    ensures forall i :: 0 <= i < |kept| ==> r[i] == kept[i].0
  {
    Map(kept, (p: (MenuNode, Resolution)) => p.0)
  }

  predicate CountsAsAccepted(r: Resolution) {
    r == Accept || r == AcceptIfHasChildren
  }

  /** `countAcceptedChildren`. */
  function CountAccepted(kept: seq<(MenuNode, Resolution)>): (c: nat)
    ensures c == 0 <==> forall i :: 0 <= i < |kept| ==> !CountsAsAccepted(kept[i].1)
  {
    if |kept| == 0 then 0
    else
      var rest := CountAccepted(kept[1..]);
      assert forall i :: 1 <= i < |kept| ==> kept[i] == kept[1..][i - 1];
      (if CountsAsAccepted(kept[0].1) then 1 else 0) + rest
  }

  /** `deepCopy0(filter)`: the copy and the node's resolution, or `None` when
      the node is dropped. */
  function DeepCopy0(n: MenuNode, filter: Filter): (r: Option<(MenuNode, Resolution)>)
    ensures filter(n) == Reject ==> r.None?
    ensures filter(n) == Accept || filter(n) == AcceptIfParentIsAccepted ==> r.Some?
    ensures filter(n) == AcceptIfHasChildren ==> (r.Some? <==> CountAccepted(CopyChildren(n, 0, filter)) > 0)
    ensures r.Some? ==> r.value.1 == filter(n)
    ensures r.Some? ==> r.value.0 == n.(children := Copies(CopyChildren(n, 0, filter)), matchedByFilter := filter(n) == Accept)
    decreases n, |n.children| + 1
  {
    var resolution := filter(n);
    if resolution == Reject then None
    else
      var kept := CopyChildren(n, 0, filter);
      if resolution == AcceptIfHasChildren && CountAccepted(kept) == 0 then None
      else Some((n.(children := Copies(kept), matchedByFilter := resolution == Accept), resolution))
  }

  /** The copies of `n.children[i..]` that were not dropped, with their resolutions. */
  function CopyChildren(n: MenuNode, i: nat, filter: Filter): (kept: seq<(MenuNode, Resolution)>)
    requires i <= |n.children|
    ensures |kept| <= |n.children| - i
    ensures forall k :: 0 <= k < |kept| ==> kept[k].1 != Reject
    decreases n, |n.children| - i
  {
    if i == |n.children| then []
    else
      var rest := CopyChildren(n, i + 1, filter);
      match DeepCopy0(n.children[i], filter)
      case None => rest
      case Some(p) => [p] + rest
  }

  /** `deepCopy(filter)`. */
  function DeepCopy(n: MenuNode, filter: Filter): (r: Option<MenuNode>)
    ensures filter(n) == Reject ==> r.None?
    ensures r.Some? ==> Equals(r.value, n) && r.value.nodeType == n.nodeType && r.value.caption == n.caption
    ensures r.Some? ==> (r.value.matchedByFilter <==> filter(n) == Accept)
  {
    match DeepCopy0(n, filter)
    case None => None
    case Some(p) => Some(p.0)
  }

  /** The kept copies of `n.children[i..]` keep their ids and their order. */
  lemma {:induction false} CopyChildrenIsSubsequence(n: MenuNode, i: nat, filter: Filter)
    requires i <= |n.children|
    ensures IsSubsequence(Ids(Copies(CopyChildren(n, i, filter))), Ids(n.children[i..]))
    decreases |n.children| - i
  {
    var kept := CopyChildren(n, i, filter);
    if i < |n.children| {
      CopyChildrenIsSubsequence(n, i + 1, filter);
      var restIds := Ids(Copies(CopyChildren(n, i + 1, filter)));
      var tailIds := Ids(n.children[i + 1..]);
      assert Ids(n.children[i..]) == [n.children[i].id] + tailIds;
      match DeepCopy0(n.children[i], filter)
      case None =>
        assert Ids(n.children[i..])[1..] == tailIds;
        SubsequenceOfTail(restIds, Ids(n.children[i..]));
      case Some(p) =>
        assert Ids(Copies(kept)) == [p.0.id] + restIds;
        assert p.0.id == n.children[i].id;
    }
  }

  /** The children of a copy are copies of some of the node's children, in
      their original order. */
  lemma CopiedChildrenAreSubsequence(n: MenuNode, filter: Filter)
    requires DeepCopy(n, filter).Some?
    ensures IsSubsequence(Ids(DeepCopy(n, filter).value.children), Ids(n.children))
  {
    CopyChildrenIsSubsequence(n, 0, filter);
    assert n.children[0..] == n.children;
  }

  /** When every child is rejected or only accepted along with its parent,
      none of the kept children counts. */
  lemma {:induction false} NoAcceptedChildren(n: MenuNode, i: nat, filter: Filter)
    requires i <= |n.children|
    requires forall k :: i <= k < |n.children| ==> filter(n.children[k]) == Reject || filter(n.children[k]) == AcceptIfParentIsAccepted
    ensures CountAccepted(CopyChildren(n, i, filter)) == 0
    decreases |n.children| - i
  {
    if i < |n.children| {
      NoAcceptedChildren(n, i + 1, filter);
      var rest := CopyChildren(n, i + 1, filter);
      match DeepCopy0(n.children[i], filter)
      case None =>
      case Some(p) =>
        assert ([p] + rest)[1..] == rest;
    }
  }

  /** An AcceptIfHasChildren node whose children are all rejected or all only
      accepted along with their parent is dropped. */
  lemma AcceptIfHasChildrenNeedsAcceptedChild(n: MenuNode, filter: Filter)
    requires filter(n) == AcceptIfHasChildren
    requires forall c :: c in n.children ==> filter(c) == Reject || filter(c) == AcceptIfParentIsAccepted
    ensures DeepCopy(n, filter).None?
  {
    NoAcceptedChildren(n, 0, filter);
  }

  /** A leaf survives exactly unless it is rejected or waits for children it
      does not have, and its copy is a leaf. */
  lemma LeafCopy(n: MenuNode, filter: Filter)
    requires IsEffectiveLeafNode(n)
    ensures DeepCopy(n, filter).Some? <==> filter(n) == Accept || filter(n) == AcceptIfParentIsAccepted
    ensures DeepCopy(n, filter).Some? ==> IsEffectiveLeafNode(DeepCopy(n, filter).value)
  {
    assert CopyChildren(n, 0, filter) == [];
  }

  // ---------------------------------------------------------------------------
  // Traversal

  /** `iterate(consumer)`: the nodes in the order the consumer sees them. */
  function Iterate(n: MenuNode): (r: seq<MenuNode>)
    ensures |r| >= 1 && r[0] == n
    decreases n, |n.children| + 1
  {
    [n] + IterateFrom(n, 0)
  }

  /** The traversals of `n.children[i..]`, one after the other. */
  function IterateFrom(n: MenuNode, i: nat): (r: seq<MenuNode>)
    requires i <= |n.children|
    decreases n, |n.children| - i
  {
    if i == |n.children| then [] else Iterate(n.children[i]) + IterateFrom(n, i + 1)
  }

  /** How many nodes the traversal of `n.children[..i]` visits. */
  function VisitedBefore(n: MenuNode, i: nat): nat
    requires i <= |n.children|
  {
    if i == 0 then 0 else VisitedBefore(n, i - 1) + |Iterate(n.children[i - 1])|
  }

  lemma {:induction false} IterateFromSplits(n: MenuNode, i: nat)
    requires i <= |n.children|
    ensures |IterateFrom(n, 0)| == VisitedBefore(n, i) + |IterateFrom(n, i)|
    ensures IterateFrom(n, 0)[VisitedBefore(n, i)..] == IterateFrom(n, i)
    decreases i
  {
    if i > 0 {
      IterateFromSplits(n, i - 1);
      var before := VisitedBefore(n, i - 1);
      var block := Iterate(n.children[i - 1]);
      assert IterateFrom(n, i - 1) == block + IterateFrom(n, i);
      assert IterateFrom(n, 0)[before + |block|..] == IterateFrom(n, i - 1)[|block|..];
    }
  }

  /** Pre-order: the node comes first, then each child's whole traversal as one
      block, the blocks in the children's order. */
  lemma IterateIsPreOrder(n: MenuNode, i: nat)
    requires i < |n.children|
    ensures 1 + VisitedBefore(n, i) + |Iterate(n.children[i])| <= |Iterate(n)|
    ensures Iterate(n)[1 + VisitedBefore(n, i)..1 + VisitedBefore(n, i) + |Iterate(n.children[i])|] == Iterate(n.children[i])
  {
    IterateFromSplits(n, i);
    var start := VisitedBefore(n, i);
    var block := Iterate(n.children[i]);
    assert IterateFrom(n, i) == block + IterateFrom(n, i + 1);
    assert Iterate(n)[1..] == IterateFrom(n, 0);
    assert Iterate(n)[1 + start..] == IterateFrom(n, i);
  }

  /** A leaf's traversal is the leaf alone. */
  lemma IterateLeaf(n: MenuNode)
    ensures IsEffectiveLeafNode(n) <==> Iterate(n) == [n]
  {
    if !IsEffectiveLeafNode(n) {
      assert |Iterate(n.children[0])| >= 1;
      assert |IterateFrom(n, 0)| >= 1;
    }
  }
}
