/** The collection tree of controller/CollectionTreeManager.java: a node per collection under a
    "Collections" root, built from the batch load of its items, the depth-first folder search,
    and the in-place edits made when a collection is (re)loaded or a request is added from the
    context menu. */
module CollectionTree {
  import opened Wrappers
  import opened JavaText
  import opened Objects
  import opened Sorting
  import opened Store
  import opened CollectionWrites
  import opened CollectionWriteProperties
  import opened CollectionItems

  /** A node's user object: a plain string (the "Collections" root, a request added from the
      menu), a `CollectionRootData` or a `TreeNodeData`. */
  datatype NodeData =
    | Label(text: string)
    | CollectionRoot(collectionId: int, collectionName: string)
    | ItemNode(itemId: int, itemName: string, itemType: string, displayName: string)

  datatype Node = Node(data: NodeData, children: seq<Node>)

  /** `toString` of the user object: the text the tree shows for the node. */
  function NodeText(data: NodeData): string {
    match data
    case Label(t) => t
    case CollectionRoot(_, name) => name
    case ItemNode(_, _, _, shown) => shown
  }

  // ---------------------------------------------------------------- building from memory

  /** The label of an item: a request with a method in the loaded map shows it in brackets. */
  function DisplayName(d: ItemsData, info: ItemInfo): (r: string)
    ensures StartsWith(r, info.name)
    ensures r != info.name <==> info.itemType == "request" && info.id in d.methods && d.methods[info.id] != ""
  {
    if info.itemType == "request" && info.id in d.methods && d.methods[info.id] != "" then
      info.name + " [" + d.methods[info.id] + "]"
    else info.name
  }

  /** The loaded ids above `id`. A child's id is above its parent's, so this set shrinks on
      every step down the tree. */
  function ItemsAbove(d: ItemsData, id: int): set<int> {
    set k | k in d.items && k > id
  }

  lemma AboveShrinks(d: ItemsData, p: int, c: int)
    requires p < c && c in d.items
    ensures |ItemsAbove(d, c)| < |ItemsAbove(d, p)|
  {
    var a, b := ItemsAbove(d, c), ItemsAbove(d, p);
    assert a <= b && c in b - a;
    assert b == a + (b - a);
  }

  /** `buildNodeFromMemory`: the item's node with its label, then a child node per entry of
      `getChildItems`. */
  function BuildNode(d: ItemsData, info: ItemInfo): Node
    requires WellFormed(d)
    decreases |ItemsAbove(d, info.id)|, 1, 0
  {
    ChildItemsExact(d, info.id);
    Node(ItemNode(info.id, info.name, info.itemType, DisplayName(d, info)),
         BuildChildren(d, info.id, ChildItems(d, info.id)))
  }

  /** The loop of `buildNodeFromMemory` over the child items, in list order. */
  function BuildChildren(d: ItemsData, parentId: int, cs: seq<ItemInfo>): seq<Node>
    requires WellFormed(d) && forall x :: x in cs ==> parentId < x.id && x.id in d.items
    decreases |ItemsAbove(d, parentId)|, 0, |cs|
  {
    if cs == [] then []
    else
      AboveShrinks(d, parentId, cs[0].id);
      [BuildNode(d, cs[0])] + BuildChildren(d, parentId, cs[1..])
  }

  /** One child node per child item, in the same order. */
  lemma {:induction false} BuildChildrenFollow(d: ItemsData, parentId: int, cs: seq<ItemInfo>)
    requires WellFormed(d) && forall x :: x in cs ==> parentId < x.id && x.id in d.items
    ensures |BuildChildren(d, parentId, cs)| == |cs|
    ensures forall i :: 0 <= i < |cs| ==> BuildChildren(d, parentId, cs)[i] == BuildNode(d, cs[i])
    decreases |cs|
  {
    if cs != [] {
      BuildChildrenFollow(d, parentId, cs[1..]);
      assert forall i :: 1 <= i < |cs| ==> cs[1..][i - 1] == cs[i];
    }
  }

  /** A built node carries the item's id, name, type and label, and its children are the nodes
      built for `getChildItems`, in that order: ascending ids, the item's listed children. */
  lemma BuildNodeFollows(d: ItemsData, info: ItemInfo)
    requires WellFormed(d)
    ensures BuildNode(d, info).data == ItemNode(info.id, info.name, info.itemType, DisplayName(d, info))
    ensures |BuildNode(d, info).children| == |ChildItems(d, info.id)|
    ensures forall i :: 0 <= i < |ChildItems(d, info.id)| ==>
              BuildNode(d, info).children[i] == BuildNode(d, ChildItems(d, info.id)[i])
    ensures StrictlySortedBy(ChildItems(d, info.id), InfoId)
  {
    ChildItemsExact(d, info.id);
    BuildChildrenFollow(d, info.id, ChildItems(d, info.id));
  }

  /** The node `buildTreeFromDatabase` returns for the root list `roots`. */
  function CollectionTreeOf(d: ItemsData, collectionId: int, collectionName: string, roots: seq<ItemInfo>): Node
    requires WellFormed(d)
  {
    Node(CollectionRoot(collectionId, collectionName), seq(|roots|, i requires 0 <= i < |roots| => BuildNode(d, roots[i])))
  }

  /** `n` is the tree built from `d` for some iteration order of `itemsMap`. */
  ghost predicate BuiltFrom(n: Node, d: ItemsData, collectionId: int, collectionName: string) {
    WellFormed(d)
    && exists order :: ListsIds(order, d.items.Keys) && n == CollectionTreeOf(d, collectionId, collectionName, RootItems(d, order))
  }

  /** The built tree does not depend on the iteration order: its top-level nodes are those of
      `getRootItems` under any order, the items outside the child set by ascending id. */
  lemma BuiltFromAnyOrder(n: Node, d: ItemsData, collectionId: int, collectionName: string, order: seq<int>)
    requires BuiltFrom(n, d, collectionId, collectionName) && ListsIds(order, d.items.Keys)
    ensures n == CollectionTreeOf(d, collectionId, collectionName, RootItems(d, order))
    ensures n.data == CollectionRoot(collectionId, collectionName) && |n.children| == |RootItems(d, order)|
    ensures forall i :: 0 <= i < |n.children| ==> n.children[i] == BuildNode(d, RootItems(d, order)[i])
    ensures StrictlySortedBy(RootItems(d, order), InfoId)
    ensures forall x :: x in RootItems(d, order) <==> x.id in d.items && d.items[x.id] == x && x.id !in d.childIds
  {
    var o :| ListsIds(o, d.items.Keys) && n == CollectionTreeOf(d, collectionId, collectionName, RootItems(d, o));
    RootItemsOrderFree(d, o, order);
    RootItemsExact(d, order);
  }

  /** An iteration order of a HashMap's key set: every key once, in an order left open. */
  method HashMapOrder(keys: set<int>) returns (order: seq<int>)
    ensures ListsIds(order, keys)
  {
    order := [];
    var rest := keys;
    while rest != {}
      invariant rest <= keys
      invariant forall i :: 0 <= i < |order| ==> order[i] in keys && order[i] !in rest
      invariant forall k :: k in keys <==> k in rest || k in order
      invariant forall a, b :: 0 <= a < b < |order| ==> order[a] != order[b]
      decreases |rest|
    {
      Member(rest);
      var k :| k in rest;
      order := order + [k];
      rest := rest - {k};
    }
  }

  lemma Member(s: set<int>)
    requires s != {}
    ensures exists k :: k in s
  {
    if forall k :: k !in s {
      assert false;
    }
  }

  /** `buildTreeFromDatabase`: a collection root node holding a node per root item, built from
      the items loaded in one query. */
  method BuildTreeFromDatabase(db: Db, collectionId: int, collectionName: string) returns (n: Node)
    requires Valid(db)
    ensures BuiltFrom(n, Loaded(ItemQueryRows(db, collectionId)), collectionId, collectionName)
  {
    var data := GetAllItemsForCollection(db, collectionId);
    LoadedWellFormed(db, collectionId);
    var order := HashMapOrder(data.items.Keys);
    var roots := GetRootItems(data, order);
    n := CollectionTreeOf(data, collectionId, collectionName, roots);
  }

  // ---------------------------------------------------------------- positions and the search

  /** `p` leads from `n` to a node, one child index per step. */
  predicate ValidPath(n: Node, p: seq<nat>)
    decreases p
  {
    p == [] || (p[0] < |n.children| && ValidPath(n.children[p[0]], p[1..]))
  }

  function NodeAt(n: Node, p: seq<nat>): Node
    requires ValidPath(n, p)
    decreases p
  {
    if p == [] then n else NodeAt(n.children[p[0]], p[1..])
  }

  lemma StepPath(n: Node, i: nat, p: seq<nat>)
    requires i < |n.children| && ValidPath(n.children[i], p)
    ensures ValidPath(n, [i] + p) && NodeAt(n, [i] + p) == NodeAt(n.children[i], p)
  {
    assert ([i] + p)[1..] == p;
  }

  /** `findNodeDepthFirst`: the start node when it matches, else the first match found under its
      children in index order; the node is given by its position under `start`. */
  function FindNodeDepthFirst(start: Node, test: NodeData -> bool): (r: Option<seq<nat>>)
    ensures r.Some? ==> ValidPath(start, r.value) && test(NodeAt(start, r.value).data)
    decreases start, 1, 0
  {
    if test(start.data) then Some([]) else FindFrom(start, test, 0)
  }

  /** The loop of `findNodeDepthFirst` from child `i` on. */
  function FindFrom(start: Node, test: NodeData -> bool, i: nat): (r: Option<seq<nat>>)
    requires i <= |start.children|
    ensures r.Some? ==> ValidPath(start, r.value) && test(NodeAt(start, r.value).data)
    decreases start, 0, |start.children| - i
  {
    if i == |start.children| then None
    else
      match FindNodeDepthFirst(start.children[i], test)
      case Some(p) =>
        StepPath(start, i, p);
        Some([i] + p)
      case None => FindFrom(start, test, i + 1)
  }

  /** The nodes in pre-order: a node, then each child's subtree in index order. */
  function Preorder(n: Node): seq<Node>
    decreases n, 1
  {
    [n] + PreorderAll(n.children)
  }

  function PreorderAll(ns: seq<Node>): seq<Node>
    decreases ns, 0
  {
    if ns == [] then [] else Preorder(ns[0]) + PreorderAll(ns[1..])
  }

  /** The first node of `ns` whose user object matches. */
  function FirstMatch(ns: seq<Node>, test: NodeData -> bool): Option<Node> {
    if ns == [] then None
    else if test(ns[0].data) then Some(ns[0])
    else FirstMatch(ns[1..], test)
  }

  lemma {:induction false} FirstMatchAppend(a: seq<Node>, b: seq<Node>, test: NodeData -> bool)
    ensures FirstMatch(a + b, test) == if FirstMatch(a, test).Some? then FirstMatch(a, test) else FirstMatch(b, test)
  {
    if a != [] {
      assert (a + b)[0] == a[0] && (a + b)[1..] == a[1..] + b;
      FirstMatchAppend(a[1..], b, test);
    } else {
      assert a + b == b;
    }
  }

  function Located(n: Node, r: Option<seq<nat>>): Option<Node>
    requires r.Some? ==> ValidPath(n, r.value)
  {
    if r.Some? then Some(NodeAt(n, r.value)) else None
  }

  /** The node `findNodeDepthFirst` finds is the first pre-order match, and it finds none
      exactly when no node of the subtree matches. */
  lemma {:induction false} FindIsFirstInPreorder(start: Node, test: NodeData -> bool)
    ensures Located(start, FindNodeDepthFirst(start, test)) == FirstMatch(Preorder(start), test)
    decreases start, 1, 0
  {
    var pre := Preorder(start);
    assert pre[0] == start && pre[1..] == PreorderAll(start.children);
    if !test(start.data) {
      FindFromIsFirst(start, test, 0);
      assert start.children[0..] == start.children;
    }
  }

  lemma {:induction false} FindFromIsFirst(start: Node, test: NodeData -> bool, i: nat)
    requires i <= |start.children|
    ensures Located(start, FindFrom(start, test, i)) == FirstMatch(PreorderAll(start.children[i..]), test)
    decreases start, 0, |start.children| - i
  {
    var ns := start.children[i..];
    if i < |start.children| {
      var c := start.children[i];
      assert ns[0] == c && ns[1..] == start.children[i + 1..];
      FirstMatchAppend(Preorder(c), PreorderAll(ns[1..]), test);
      FindIsFirstInPreorder(c, test);
      match FindNodeDepthFirst(c, test)
      case Some(p) =>
        StepPath(start, i, p);
      case None =>
        FindFromIsFirst(start, test, i + 1);
    }
  }

  // ---------------------------------------------------------------- editing the tree

  predicate IsCollectionNode(n: Node, collectionId: int) {
    n.data.CollectionRoot? && n.data.collectionId == collectionId
  }

  /** The index of the first top-level node of the collection, |cs| when there is none: the
      loop of `findCollectionNode` and of `addCollectionToTree`. */
  function CollectionIndex(cs: seq<Node>, collectionId: int): (i: nat)
    ensures i <= |cs| && (i < |cs| ==> IsCollectionNode(cs[i], collectionId))
    ensures forall j :: 0 <= j < i ==> !IsCollectionNode(cs[j], collectionId)
  {
    if cs == [] || IsCollectionNode(cs[0], collectionId) then 0
    else 1 + CollectionIndex(cs[1..], collectionId)
  }

  /** The top-level nodes once the first node of the collection, if any, is removed. */
  function WithoutCollection(cs: seq<Node>, collectionId: int): seq<Node> {
    var i := CollectionIndex(cs, collectionId);
    if i < |cs| then cs[..i] + cs[i + 1..] else cs
  }

  /** At most one top-level node per collection. */
  predicate DistinctCollections(cs: seq<Node>) {
    forall a, b :: 0 <= a < b < |cs| && cs[a].data.CollectionRoot? && cs[b].data.CollectionRoot? ==>
      cs[a].data.collectionId != cs[b].data.collectionId
  }

  /** Removing the collection's node and putting a node of the same collection first keeps at
      most one node per collection, and then that collection's node is the first. */
  lemma AddCollectionKeepsDistinct(cs: seq<Node>, t: Node, collectionId: int)
    requires DistinctCollections(cs) && IsCollectionNode(t, collectionId)
    ensures DistinctCollections([t] + WithoutCollection(cs, collectionId))
    ensures CollectionIndex([t] + WithoutCollection(cs, collectionId), collectionId) == 0
    ensures forall j :: 0 < j < |[t] + WithoutCollection(cs, collectionId)| ==>
              !IsCollectionNode(([t] + WithoutCollection(cs, collectionId))[j], collectionId)
  {
    var w := WithoutCollection(cs, collectionId);
    var r := [t] + w;
    WithoutHasNoCollection(cs, collectionId);
    WithoutDistinct(cs, collectionId);
    forall a, b | 0 <= a < b < |r| && r[a].data.CollectionRoot? && r[b].data.CollectionRoot?
      ensures r[a].data.collectionId != r[b].data.collectionId
    {
      assert r[b] == w[b - 1];
      if a > 0 {
        assert r[a] == w[a - 1];
      }
    }
  }

  /** Position `j` of the nodes without the collection's first node. */
  lemma WithoutAt(cs: seq<Node>, collectionId: int, j: nat)
    requires j < |WithoutCollection(cs, collectionId)|
    ensures var i := CollectionIndex(cs, collectionId);
            WithoutCollection(cs, collectionId)[j] == if j < i then cs[j] else cs[j + 1]
  {
  }

  /** With at most one node per collection, removing the collection's first node leaves none. */
  lemma WithoutHasNoCollection(cs: seq<Node>, collectionId: int)
    requires DistinctCollections(cs)
    ensures var w := WithoutCollection(cs, collectionId);
            forall j :: 0 <= j < |w| ==> !IsCollectionNode(w[j], collectionId)
  {
    var i := CollectionIndex(cs, collectionId);
    var w := WithoutCollection(cs, collectionId);
    forall j | 0 <= j < |w| ensures !IsCollectionNode(w[j], collectionId) {
      WithoutAt(cs, collectionId, j);
      if i <= j {
        assert IsCollectionNode(cs[i], collectionId) && i < j + 1;
      }
    }
  }

  /** Removing a node keeps at most one node per collection. */
  lemma WithoutDistinct(cs: seq<Node>, collectionId: int)
    requires DistinctCollections(cs)
    ensures DistinctCollections(WithoutCollection(cs, collectionId))
  {
    var i := CollectionIndex(cs, collectionId);
    var w := WithoutCollection(cs, collectionId);
    forall a, b | 0 <= a < b < |w| && w[a].data.CollectionRoot? && w[b].data.CollectionRoot?
      ensures w[a].data.collectionId != w[b].data.collectionId
    {
      WithoutAt(cs, collectionId, a);
      WithoutAt(cs, collectionId, b);
      var a', b' := if a < i then a else a + 1, if b < i then b else b + 1;
      assert w[a] == cs[a'] && w[b] == cs[b'] && a' < b';
    }
  }

  /** The nodes kept by `addCollectionToTree` are the old ones but the first of the collection,
      in their old order. */
  lemma WithoutCollectionKeeps(cs: seq<Node>, collectionId: int)
    ensures var i := CollectionIndex(cs, collectionId);
            var w := WithoutCollection(cs, collectionId);
            (i == |cs| ==> w == cs)
            && (i < |cs| ==> |w| == |cs| - 1 && (forall j :: 0 <= j < i ==> w[j] == cs[j])
                             && forall j :: i < j < |cs| ==> w[j - 1] == cs[j])
  {
  }

  /** The request node appended under `n` at position `p`, as the last child there. */
  function AppendChildAt(n: Node, p: seq<nat>, c: Node): Node
    requires ValidPath(n, p)
    decreases p
  {
    if p == [] then n.(children := n.children + [c])
    else n.(children := n.children[p[0] := AppendChildAt(n.children[p[0]], p[1..], c)])
  }

  /** The number of nodes of a tree. */
  function Size(n: Node): nat
    decreases n, 1
  {
    1 + SizeAll(n.children)
  }

  function SizeAll(ns: seq<Node>): nat
    decreases ns, 0
  {
    if ns == [] then 0 else Size(ns[0]) + SizeAll(ns[1..])
  }

  lemma {:induction false} SizeAllAppend(a: seq<Node>, b: seq<Node>)
    ensures SizeAll(a + b) == SizeAll(a) + SizeAll(b)
    decreases |a|
  {
    if a == [] {
      assert a + b == b;
    } else {
      assert (a + b)[0] == a[0] && (a + b)[1..] == a[1..] + b;
      SizeAllAppend(a[1..], b);
    }
  }

  lemma SizeAllUpdate(ns: seq<Node>, k: nat, x: Node)
    requires k < |ns|
    ensures SizeAll(ns[k := x]) + Size(ns[k]) == SizeAll(ns) + Size(x)
  {
    assert ns == ns[..k] + ([ns[k]] + ns[k + 1..]);
    assert ns[k := x] == ns[..k] + ([x] + ns[k + 1..]);
    SizeAllAppend(ns[..k], [ns[k]] + ns[k + 1..]);
    SizeAllAppend(ns[..k], [x] + ns[k + 1..]);
    SizeAllAppend([ns[k]], ns[k + 1..]);
    SizeAllAppend([x], ns[k + 1..]);
    assert SizeAll([ns[k]]) == Size(ns[k]) && SizeAll([x]) == Size(x) by {
      assert [ns[k]][1..] == [] && [x][1..] == [];
    }
  }

  /** Appending at a position adds exactly the new subtree, keeps the path valid, and makes the
      new node the last child of the node there, after its old children. */
  lemma {:induction false} AppendChildAtExact(n: Node, p: seq<nat>, c: Node)
    requires ValidPath(n, p)
    ensures Size(AppendChildAt(n, p, c)) == Size(n) + Size(c)
    ensures ValidPath(AppendChildAt(n, p, c), p)
    ensures NodeAt(AppendChildAt(n, p, c), p) == NodeAt(n, p).(children := NodeAt(n, p).children + [c])
    ensures AppendChildAt(n, p, c).data == n.data
    decreases p
  {
    if p == [] {
      SizeAllAppend(n.children, [c]);
      assert [c][1..] == [];
    } else {
      var k := p[0];
      AppendChildAtExact(n.children[k], p[1..], c);
      SizeAllUpdate(n.children, k, AppendChildAt(n.children[k], p[1..], c));
    }
  }

  /** `uo instanceof TreeNodeData nd && "folder".equals(nd.itemType) && nd.itemId == id`. */
  function FolderMatch(id: int): NodeData -> bool {
    (data: NodeData) => data.ItemNode? && data.itemType == "folder" && data.itemId == id
  }

  /** Where `addRequestNode` inserts under the collection node: at the first folder with the
      parent id, at the collection node itself for a root-level request or a folder not found. */
  function InsertPosition(collectionNode: Node, parentFolderId: Option<int>): (p: seq<nat>)
    ensures ValidPath(collectionNode, p)
  {
    if parentFolderId.None? then []
    else
      match FindNodeDepthFirst(collectionNode, FolderMatch(parentFolderId.value))
      case Some(p) => p
      case None => []
  }

  /** `addRequestNode`: nothing without the collection's node; otherwise a node labelled with
      the request name becomes the last child at the insert position. */
  function RequestNodeAdded(root: Node, collectionId: int, parentFolderId: Option<int>, name: string): Node {
    var i := CollectionIndex(root.children, collectionId);
    if i == |root.children| then root
    else
      var c := root.children[i];
      root.(children := root.children[i := AppendChildAt(c, InsertPosition(c, parentFolderId), Node(Label(name), []))])
  }

  /** What `addRequestNode` does: with no node for the collection the tree is unchanged.
      Otherwise exactly one node, labelled with the name, is added, as the last child of the
      first folder with the parent id met depth-first under the collection node (the collection
      node itself when there is no such folder or no parent id), and every other top-level node
      is kept. */
  lemma RequestNodeAddedExact(root: Node, collectionId: int, parentFolderId: Option<int>, name: string)
    ensures var i := CollectionIndex(root.children, collectionId);
            i == |root.children| ==> RequestNodeAdded(root, collectionId, parentFolderId, name) == root
    ensures var r := RequestNodeAdded(root, collectionId, parentFolderId, name);
            r.data == root.data && |r.children| == |root.children|
            && forall j :: 0 <= j < |root.children| && j != CollectionIndex(root.children, collectionId) ==> r.children[j] == root.children[j]
    ensures var i := CollectionIndex(root.children, collectionId);
            var r := RequestNodeAdded(root, collectionId, parentFolderId, name);
            i < |root.children| ==>
              var c := root.children[i];
              var p := InsertPosition(c, parentFolderId);
              Size(r) == Size(root) + 1
              && r.children[i].data == c.data
              && ValidPath(r.children[i], p)
              && NodeAt(r.children[i], p) == NodeAt(c, p).(children := NodeAt(c, p).children + [Node(Label(name), [])])
              && (p != [] ==> parentFolderId.Some? && Some(NodeAt(c, p)) == FirstMatch(Preorder(c), FolderMatch(parentFolderId.value)))
              && (p == [] && parentFolderId.Some? ==> FirstMatch(Preorder(c), FolderMatch(parentFolderId.value)).None?)
  {
    var i := CollectionIndex(root.children, collectionId);
    if i < |root.children| {
      var c := root.children[i];
      var p := InsertPosition(c, parentFolderId);
      var leaf := Node(Label(name), []);
      AppendChildAtExact(c, p, leaf);
      SizeAllUpdate(root.children, i, AppendChildAt(c, p, leaf));
      assert SizeAll(leaf.children) == 0;
      if parentFolderId.Some? {
        FindIsFirstInPreorder(c, FolderMatch(parentFolderId.value));
        assert !FolderMatch(parentFolderId.value)(c.data);
      }
    }
  }

  /** `handleAddRequest` goes on only with a positive collection id and a name that is not
      null or blank. */
  predicate AddRequestAccepted(contextCollectionId: Option<int>, input: Option<string>) {
    contextCollectionId.Some? && contextCollectionId.value > 0 && input.Some? && Trim(input.value) != ""
  }

  /** The `CollectionTreeManager`: the tree's root node and the id of the last loaded file's
      collection. The database is the connection passed to the methods that use it. */
  class CollectionTreeManager {
    var root: Node
    var currentCollectionId: int

    constructor ()
      ensures root == Node(Label("Collections"), []) && currentCollectionId == -1
    {
      root := Node(Label("Collections"), []);
      currentCollectionId := -1;
    }

    /** `addCollectionToTree`: the first top-level node of the collection is removed, and the
        node rebuilt from the database is inserted at index 0. */
    method AddCollectionToTree(conn: Connection, collectionId: int, collectionName: string)
      requires Valid(conn.db)
      modifies this`root
      ensures root.data == old(root.data) && root.children != []
      ensures root.children[1..] == WithoutCollection(old(root.children), collectionId)
      ensures BuiltFrom(root.children[0], Loaded(ItemQueryRows(conn.db, collectionId)), collectionId, collectionName)
    {
      var cs := root.children;
      var i := 0;
      while i < |cs| && !IsCollectionNode(cs[i], collectionId)
        invariant 0 <= i <= |cs|
        invariant forall j :: 0 <= j < i ==> !IsCollectionNode(cs[j], collectionId)
      {
        i := i + 1;
      }
      assert i == CollectionIndex(cs, collectionId) by {
        var c := CollectionIndex(cs, collectionId);
        assert c <= i && i <= c;
      }
      var rest := if i < |cs| then cs[..i] + cs[i + 1..] else cs;
      var t := BuildTreeFromDatabase(conn.db, collectionId, collectionName);
      root := root.(children := [t] + rest);
    }

    /** `loadCollectionFile` with the file already parsed: `None` stands for a missing file or
        one that does not parse, which changes nothing. Otherwise the collection is saved, its
        id (-1 when the save is rejected) becomes the current one, and a node for it, named
        after the file, is put first in the tree. */
    method LoadCollectionFile(conn: Connection, parsed: Option<PostmanCollection>, fileName: string)
      requires Valid(conn.db) && (parsed.Some? ==> CollectionNoNulls(parsed.value))
      modifies this`root, this`currentCollectionId, conn
      ensures parsed.None? ==> root == old(root) && currentCollectionId == old(currentCollectionId) && conn.db == old(conn.db)
      ensures parsed.Some? ==>
                (conn.db, currentCollectionId) == CollectionSaved(old(conn.db), parsed.value, Some(fileName))
                && Valid(conn.db)
                && root.data == old(root.data) && root.children != []
                && root.children[1..] == WithoutCollection(old(root.children), currentCollectionId)
                && BuiltFrom(root.children[0], Loaded(ItemQueryRows(conn.db, currentCollectionId)), currentCollectionId, fileName)
    {
      if parsed.None? {
        return;
      }
      CollectionSavedResult(conn.db, parsed.value, Some(fileName));
      currentCollectionId := SaveCollection(conn, parsed.value, Some(fileName));
      AddCollectionToTree(conn, currentCollectionId, fileName);
    }

    /** `addRequestNode`. */
    method AddRequestNode(collectionId: int, parentFolderId: Option<int>, name: string)
      modifies this`root
      ensures root == RequestNodeAdded(old(root), collectionId, parentFolderId, name)
    {
      var cs := root.children;
      var i := 0;
      while i < |cs| && !IsCollectionNode(cs[i], collectionId)
        invariant 0 <= i <= |cs|
        invariant forall j :: 0 <= j < i ==> !IsCollectionNode(cs[j], collectionId)
      {
        i := i + 1;
      }
      assert i == CollectionIndex(cs, collectionId) by {
        var c := CollectionIndex(cs, collectionId);
        assert c <= i && i <= c;
      }
      if i == |cs| {
        return;
      }
      var collectionNode := cs[i];
      var position: seq<nat> := [];
      if parentFolderId.Some? {
        var found := FindNodeDepthFirst(collectionNode, FolderMatch(parentFolderId.value));
        if found.Some? {
          position := found.value;
        }
      }
      root := root.(children := cs[i := AppendChildAt(collectionNode, position, Node(Label(name), []))]);
    }

    /** `handleAddRequest` with the context menu's stored ids and the dialog's input: nothing
        happens unless the guard accepts; then the trimmed name is saved as a new request, and
        its node is added only when the new id is positive. */
    method HandleAddRequest(conn: Connection, contextCollectionId: Option<int>, contextParentId: Option<int>, input: Option<string>)
      modifies this`root, conn
      ensures !AddRequestAccepted(contextCollectionId, input) ==> root == old(root) && unchanged(conn)
      ensures AddRequestAccepted(contextCollectionId, input) ==>
                var name := Trim(input.value);
                var r := NewRequestCreated(old(conn.db), contextCollectionId.value, contextParentId, Some(name));
                conn.db == r.0
                && root == if r.1 > 0 then RequestNodeAdded(old(root), contextCollectionId.value, contextParentId, name) else old(root)
    {
      if contextCollectionId.None? || contextCollectionId.value <= 0 {
        return;
      }
      var collectionId := contextCollectionId.value;
      if input.None? || Trim(input.value) == "" {
        return;
      }
      var name := Trim(input.value);
      var newItemId := CreateNewRequest(conn, collectionId, contextParentId, Some(name));
      if newItemId > 0 {
        AddRequestNode(collectionId, contextParentId, name);
      }
    }
  }

  /** A request added from the menu to a valid database is saved under a new positive id
      exactly when the collection exists (and so does the parent folder, when one is given):
      the trimmed name is never null, and a created item's id is above every earlier one. */
  lemma AddedRequestSaved(db: Db, collectionId: int, parentId: Option<int>, name: string)
    requires Valid(db) && Items in db.present
    ensures var r := NewRequestCreated(db, collectionId, parentId, Some(name));
            Valid(r.0)
            && (r.1 > 0 <==> collectionId in db.collections.rows && (parentId.Some? ==> parentId.value in db.items.rows))
  {
    NewRequestCreatedResult(db, collectionId, parentId, Some(name));
    var ins := InsertItem(db, collectionId, parentId, Some(name), "request");
    if ins.Inserted? {
      assert ins.id == db.items.last + 1;
    }
  }
}
