/** The batch load behind the collection tree (db/CollectionDao.java): `getAllItemsForCollection`
    reads every item of a collection with the method of its request in one query and files the
    rows into three maps and a set, and `CollectionItemsData` answers the root and child lists
    from them. */
module CollectionItems {
  import opened Wrappers
  import opened JavaText
  import opened Store
  import opened StoreRows
  import opened Sorting

  /** `ItemInfo`. */
  datatype ItemInfo = ItemInfo(id: int, name: string, itemType: string)

  function InfoId(x: ItemInfo): int {
    x.id
  }

  // ---------------------------------------------------------------- the query

  /** One row of the query: the item's columns and, through the LEFT JOIN, its request's method
      (NULL for an item without a request). */
  datatype ItemQueryRow = ItemQueryRow(id: int, name: string, itemType: string, parentId: Option<int>,
                                       httpMethod: Option<string>)

  function InfoOf(row: ItemQueryRow): ItemInfo {
    ItemInfo(row.id, row.name, row.itemType)
  }

  /** `WHERE i.collection_id = ?`. */
  function ItemsOfCollection(collectionId: int): ItemRow -> bool {
    (r: ItemRow) => r.collectionId == collectionId
  }

  /** The method joined to an item: that of its request, NULL when it has none. */
  function JoinedMethod(db: Db, itemId: int): Option<string> {
    var r := RequestOfItem(db, itemId);
    if r.Some? then Some(db.requests.rows[r.value].httpMethod) else None
  }

  function QueryRowOf(db: Db, e: (int, ItemRow)): ItemQueryRow {
    ItemQueryRow(e.0, e.1.name, e.1.itemType, e.1.parentId, JoinedMethod(db, e.0))
  }

  /** The result of the query, `ORDER BY i.id`. The query fails on a missing table; the
      SQLException is caught and the maps stay empty. */
  function ItemQueryRows(db: Db, collectionId: int): (r: seq<ItemQueryRow>)
    ensures Items !in db.present || Requests !in db.present ==> r == []
  {
    if Items in db.present && Requests in db.present then
      var rows := Rows(db.items, ItemsOfCollection(collectionId));
      seq(|rows|, k requires 0 <= k < |rows| => QueryRowOf(db, rows[k]))
    else []
  }

  // ---------------------------------------------------------------- filing the rows

  /** `CollectionItemsData`: every item by id, the child ids of each parent in the order met,
      the upper-cased method of each request item, and the ids of all items with a parent. */
  datatype ItemsData = ItemsData(items: map<int, ItemInfo>, children: map<int, seq<int>>,
                                 methods: map<int, string>, childIds: set<int>)

  const NoItems := ItemsData(map[], map[], map[], {})

  /** `childrenMap.get(p)`, with a missing list read as empty. */
  function ChildrenOf(d: ItemsData, p: int): seq<int> {
    if p in d.children then d.children[p] else []
  }

  predicate HasParent(row: ItemQueryRow) {
    row.parentId.Some?
  }

  /** `method != null && !method.isEmpty()`. */
  predicate HasMethod(row: ItemQueryRow) {
    row.httpMethod.Some? && row.httpMethod.value != ""
  }

  /** One pass of the loop: the item is put in `itemsMap`, a non-empty method upper-cased in
      `requestMethodsMap`, and an item with a parent appended to its parent's list
      (`computeIfAbsent`) and added to the child set. */
  function LoadRow(d: ItemsData, row: ItemQueryRow): ItemsData {
    ItemsData(d.items[row.id := InfoOf(row)],
              if HasParent(row) then d.children[row.parentId.value := ChildrenOf(d, row.parentId.value) + [row.id]]
              else d.children,
              if HasMethod(row) then d.methods[row.id := ToUpper(row.httpMethod.value)] else d.methods,
              if HasParent(row) then d.childIds + {row.id} else d.childIds)
  }

  /** The maps after the loop over `rows`. */
  function Loaded(rows: seq<ItemQueryRow>): ItemsData
    decreases |rows|
  {
    if rows == [] then NoItems else LoadRow(Loaded(rows[..|rows| - 1]), rows[|rows| - 1])
  }

  /** `getAllItemsForCollection`. */
  method GetAllItemsForCollection(db: Db, collectionId: int) returns (data: ItemsData)
    ensures data == Loaded(ItemQueryRows(db, collectionId))
  {
    var rows := ItemQueryRows(db, collectionId);
    var items: map<int, ItemInfo> := map[];
    var children: map<int, seq<int>> := map[];
    var methods: map<int, string> := map[];
    var childIds: set<int> := {};
    var i := 0;
    while i < |rows|
      invariant 0 <= i <= |rows|
      invariant ItemsData(items, children, methods, childIds) == Loaded(rows[..i])
    {
      assert rows[..i + 1][..i] == rows[..i];
      var row := rows[i];
      items := items[row.id := ItemInfo(row.id, row.name, row.itemType)];
      if row.httpMethod.Some? && row.httpMethod.value != "" {
        methods := methods[row.id := ToUpper(row.httpMethod.value)];
      }
      if row.parentId.Some? {
        var p := row.parentId.value;
        var list := if p in children then children[p] else [];
        children := children[p := list + [row.id]];
        childIds := childIds + {row.id};
      }
      i := i + 1;
    }
    assert rows[..i] == rows;
    data := ItemsData(items, children, methods, childIds);
  }

  // ---------------------------------------------------------------- what the maps hold

  predicate IdsAscending(rows: seq<ItemQueryRow>) {
    forall a, b :: 0 <= a < b < |rows| ==> rows[a].id < rows[b].id
  }

  predicate StrictlyAscending(s: seq<int>) {
    forall a, b :: 0 <= a < b < |s| ==> s[a] < s[b]
  }

  /** The ids of the rows satisfying `p`. */
  function IdsWhere(rows: seq<ItemQueryRow>, p: ItemQueryRow -> bool): set<int> {
    set i | 0 <= i < |rows| && p(rows[i]) :: rows[i].id
  }

  lemma IdsWhereSnoc(rows: seq<ItemQueryRow>, row: ItemQueryRow, p: ItemQueryRow -> bool)
    ensures IdsWhere(rows + [row], p) == IdsWhere(rows, p) + (if p(row) then {row.id} else {})
  {
    var r := rows + [row];
    forall k | k in IdsWhere(r, p) ensures k in IdsWhere(rows, p) + (if p(row) then {row.id} else {}) {
      var i :| 0 <= i < |r| && p(r[i]) && r[i].id == k;
      if i < |rows| {
        assert r[i] == rows[i];
      }
    }
    forall k | k in IdsWhere(rows, p) ensures k in IdsWhere(r, p) {
      var i :| 0 <= i < |rows| && p(rows[i]) && rows[i].id == k;
      assert r[i] == rows[i];
    }
    if p(row) {
      assert r[|rows|] == row;
    }
  }

  lemma IdsWhereLast(rows: seq<ItemQueryRow>, p: ItemQueryRow -> bool)
    requires rows != []
    ensures var last := rows[|rows| - 1];
            IdsWhere(rows, p) == IdsWhere(rows[..|rows| - 1], p) + (if p(last) then {last.id} else {})
  {
    IdsWhereSnoc(rows[..|rows| - 1], rows[|rows| - 1], p);
    assert rows == rows[..|rows| - 1] + [rows[|rows| - 1]];
  }

  /** The ids of all the rows. */
  function RowIds(rows: seq<ItemQueryRow>): set<int> {
    set i | 0 <= i < |rows| :: rows[i].id
  }

  lemma RowIdsLast(rows: seq<ItemQueryRow>)
    requires rows != []
    ensures RowIds(rows) == RowIds(rows[..|rows| - 1]) + {rows[|rows| - 1].id}
  {
    var init := rows[..|rows| - 1];
    forall k | k in RowIds(rows) ensures k in RowIds(init) + {rows[|rows| - 1].id} {
      var i :| 0 <= i < |rows| && rows[i].id == k;
      if i < |init| {
        assert init[i] == rows[i];
      }
    }
    forall k | k in RowIds(init) ensures k in RowIds(rows) {
      var i :| 0 <= i < |init| && init[i].id == k;
      assert rows[i] == init[i];
    }
  }

  /** The loop's prefix keeps ascending ids, and the last row's id exceeds every other. */
  lemma InitAscending(rows: seq<ItemQueryRow>)
    requires IdsAscending(rows) && rows != []
    ensures IdsAscending(rows[..|rows| - 1])
    ensures forall i :: 0 <= i < |rows| - 1 ==> rows[i].id < rows[|rows| - 1].id
    ensures rows == rows[..|rows| - 1] + [rows[|rows| - 1]]
  {
    var init := rows[..|rows| - 1];
    forall a, b | 0 <= a < b < |init| ensures init[a].id < init[b].id {
      assert init[a] == rows[a] && init[b] == rows[b];
    }
  }

  /** `itemsMap` holds exactly the rows' items, each under its own id. */
  lemma {:induction false} LoadedItems(rows: seq<ItemQueryRow>)
    requires IdsAscending(rows)
    ensures Loaded(rows).items.Keys == RowIds(rows)
    ensures forall i :: 0 <= i < |rows| ==> rows[i].id in Loaded(rows).items && Loaded(rows).items[rows[i].id] == InfoOf(rows[i])
    decreases |rows|
  {
    LoadedItemKeys(rows);
    LoadedItemsAt(rows);
  }

  lemma {:induction false} LoadedItemKeys(rows: seq<ItemQueryRow>)
    ensures Loaded(rows).items.Keys == RowIds(rows)
    decreases |rows|
  {
    if rows != [] {
      LoadedItemKeys(rows[..|rows| - 1]);
      RowIdsLast(rows);
    }
  }

  lemma {:induction false} LoadedItemsAt(rows: seq<ItemQueryRow>)
    requires IdsAscending(rows)
    ensures forall i :: 0 <= i < |rows| ==> rows[i].id in Loaded(rows).items && Loaded(rows).items[rows[i].id] == InfoOf(rows[i])
    decreases |rows|
  {
    if rows != [] {
      var init := rows[..|rows| - 1];
      InitAscending(rows);
      LoadedItemsAt(init);
      forall i | 0 <= i < |rows| - 1 ensures rows[i].id in Loaded(rows).items && Loaded(rows).items[rows[i].id] == InfoOf(rows[i]) {
        assert rows[i] == init[i];
      }
    }
  }

  /** The child set holds exactly the ids of the rows with a parent. */
  lemma {:induction false} LoadedChildIds(rows: seq<ItemQueryRow>)
    ensures Loaded(rows).childIds == IdsWhere(rows, HasParent)
    decreases |rows|
  {
    if rows != [] {
      var init := rows[..|rows| - 1];
      var last := rows[|rows| - 1];
      LoadedChildIds(init);
      IdsWhereLast(rows, HasParent);
    }
  }

  /** `requestMethodsMap` holds the upper-cased method of exactly the rows with a non-empty one. */
  lemma {:induction false} LoadedMethods(rows: seq<ItemQueryRow>)
    requires IdsAscending(rows)
    ensures Loaded(rows).methods.Keys == IdsWhere(rows, HasMethod)
    ensures forall i :: 0 <= i < |rows| && HasMethod(rows[i]) ==>
              rows[i].id in Loaded(rows).methods && Loaded(rows).methods[rows[i].id] == ToUpper(rows[i].httpMethod.value)
    decreases |rows|
  {
    LoadedMethodKeys(rows);
    LoadedMethodsAt(rows);
  }

  lemma {:induction false} LoadedMethodKeys(rows: seq<ItemQueryRow>)
    ensures Loaded(rows).methods.Keys == IdsWhere(rows, HasMethod)
    decreases |rows|
  {
    if rows != [] {
      LoadedMethodKeys(rows[..|rows| - 1]);
      IdsWhereLast(rows, HasMethod);
    }
  }

  lemma {:induction false} LoadedMethodsAt(rows: seq<ItemQueryRow>)
    requires IdsAscending(rows)
    ensures forall i :: 0 <= i < |rows| && HasMethod(rows[i]) ==>
              rows[i].id in Loaded(rows).methods && Loaded(rows).methods[rows[i].id] == ToUpper(rows[i].httpMethod.value)
    decreases |rows|
  {
    if rows != [] {
      var init := rows[..|rows| - 1];
      InitAscending(rows);
      LoadedMethodsAt(init);
      forall i | 0 <= i < |rows| - 1 && HasMethod(rows[i])
        ensures rows[i].id in Loaded(rows).methods && Loaded(rows).methods[rows[i].id] == ToUpper(rows[i].httpMethod.value)
      {
        assert rows[i] == init[i];
      }
    }
  }

  /** Some row has id `c` and parent `p`. */
  predicate ParentIs(rows: seq<ItemQueryRow>, c: int, p: int) {
    exists i :: 0 <= i < |rows| && rows[i].id == c && rows[i].parentId == Some(p)
  }

  /** Every row with a parent is listed under it in `childrenMap`. */
  lemma {:induction false} LoadedChildrenListed(rows: seq<ItemQueryRow>)
    ensures forall i :: 0 <= i < |rows| && HasParent(rows[i]) ==>
              rows[i].parentId.value in Loaded(rows).children && rows[i].id in Loaded(rows).children[rows[i].parentId.value]
    decreases |rows|
  {
    if rows != [] {
      var init := rows[..|rows| - 1];
      LoadedChildrenListed(init);
      var l := Loaded(rows);
      forall i | 0 <= i < |rows| - 1 && HasParent(rows[i])
        ensures rows[i].parentId.value in l.children && rows[i].id in l.children[rows[i].parentId.value]
      {
        assert rows[i] == init[i];
      }
    }
  }

  /** Every id listed under a parent in `childrenMap` is a row with that parent. */
  lemma {:induction false} LoadedChildrenParents(rows: seq<ItemQueryRow>)
    ensures forall p, c :: p in Loaded(rows).children && c in Loaded(rows).children[p] ==> ParentIs(rows, c, p)
    decreases |rows|
  {
    if rows != [] {
      var init := rows[..|rows| - 1];
      var last := rows[|rows| - 1];
      var d := Loaded(init);
      var l := Loaded(rows);
      LoadedChildrenParents(init);
      forall p, c | p in l.children && c in l.children[p] ensures ParentIs(rows, c, p) {
        if last.parentId == Some(p) && c == last.id {
          assert rows[|rows| - 1] == last;
        } else {
          assert p in d.children && c in d.children[p];
          var i :| 0 <= i < |init| && init[i].id == c && init[i].parentId == Some(p);
          assert rows[i] == init[i];
        }
      }
    }
  }

  /** Each list of `childrenMap` is ascending: rows come in ascending id order. */
  lemma {:induction false} LoadedChildrenAscending(rows: seq<ItemQueryRow>)
    requires IdsAscending(rows)
    ensures forall p :: p in Loaded(rows).children ==> StrictlyAscending(Loaded(rows).children[p])
    decreases |rows|
  {
    if rows != [] {
      var init := rows[..|rows| - 1];
      var last := rows[|rows| - 1];
      var d := Loaded(init);
      InitAscending(rows);
      LoadedChildrenAscending(init);
      if HasParent(last) {
        var q := last.parentId.value;
        var old_ := ChildrenOf(d, q);
        LoadedChildrenParents(init);
        forall k | 0 <= k < |old_| ensures old_[k] < last.id {
          assert q in d.children && old_[k] in d.children[q];
          var i :| 0 <= i < |init| && init[i].id == old_[k] && init[i].parentId == Some(q);
          assert init[i] == rows[i];
        }
        assert StrictlyAscending(old_ + [last.id]);
      }
    }
  }

  // ---------------------------------------------------------------- the query's rows

  /** The item's row in the database agrees with a row of the query. */
  predicate RowOfDb(db: Db, collectionId: int, row: ItemQueryRow) {
    row.id in db.items.rows
    && var r := db.items.rows[row.id];
    r.collectionId == collectionId && row.name == r.name && row.itemType == r.itemType
    && row.parentId == r.parentId && row.httpMethod == JoinedMethod(db, row.id)
  }

  /** The item is one the query selects. */
  predicate InLoad(db: Db, collectionId: int, k: int) {
    Items in db.present && Requests in db.present && k in db.items.rows && db.items.rows[k].collectionId == collectionId
  }

  /** The query returns every item of the collection once, in ascending id order, each with its
      own columns; a parent's id is smaller than its child's. */
  lemma QueryRowsFacts(db: Db, collectionId: int)
    requires Valid(db)
    ensures IdsAscending(ItemQueryRows(db, collectionId))
    ensures forall i :: 0 <= i < |ItemQueryRows(db, collectionId)| ==>
              RowOfDb(db, collectionId, ItemQueryRows(db, collectionId)[i]) && InLoad(db, collectionId, ItemQueryRows(db, collectionId)[i].id)
    ensures forall k :: k in RowIds(ItemQueryRows(db, collectionId)) <==> InLoad(db, collectionId, k)
  {
    QueryRowsOfDb(db, collectionId);
    QueryRowsCover(db, collectionId);
  }

  lemma QueryRowsOfDb(db: Db, collectionId: int)
    requires Valid(db)
    ensures IdsAscending(ItemQueryRows(db, collectionId))
    ensures forall i :: 0 <= i < |ItemQueryRows(db, collectionId)| ==>
              RowOfDb(db, collectionId, ItemQueryRows(db, collectionId)[i]) && InLoad(db, collectionId, ItemQueryRows(db, collectionId)[i].id)
  {
    var rows := ItemQueryRows(db, collectionId);
    if Items in db.present && Requests in db.present {
      var sel := Rows(db.items, ItemsOfCollection(collectionId));
      RowsFromAscending(db.items, ItemsOfCollection(collectionId), 1);
      assert forall i :: 0 <= i < |rows| ==> rows[i] == QueryRowOf(db, sel[i]);
    }
  }

  lemma QueryRowsCover(db: Db, collectionId: int)
    requires Valid(db)
    ensures forall k :: k in RowIds(ItemQueryRows(db, collectionId)) <==> InLoad(db, collectionId, k)
  {
    var rows := ItemQueryRows(db, collectionId);
    if Items in db.present && Requests in db.present {
      var sel := Rows(db.items, ItemsOfCollection(collectionId));
      assert forall i :: 0 <= i < |rows| ==> rows[i] == QueryRowOf(db, sel[i]);
      forall k | InLoad(db, collectionId, k) ensures k in RowIds(rows) {
        RowsFromComplete(db.items, ItemsOfCollection(collectionId), 1, k);
        var j :| 0 <= j < |sel| && sel[j].0 == k;
        assert rows[j].id == k;
      }
    }
  }

  /** `itemsMap` in terms of the database: exactly the items of the collection, each under its
      id with its name and type; nothing when a table is missing. */
  lemma ItemsLoaded(db: Db, collectionId: int)
    requires Valid(db)
    ensures var d := Loaded(ItemQueryRows(db, collectionId));
            (forall k :: k in d.items <==> InLoad(db, collectionId, k))
            && (forall k :: k in d.items ==> d.items[k] == ItemInfo(k, db.items.rows[k].name, db.items.rows[k].itemType))
  {
    var rows := ItemQueryRows(db, collectionId);
    QueryRowsFacts(db, collectionId);
    LoadedItems(rows);
    var d := Loaded(rows);
    forall k | k in d.items ensures d.items[k] == ItemInfo(k, db.items.rows[k].name, db.items.rows[k].itemType) {
      var i :| 0 <= i < |rows| && rows[i].id == k;
    }
  }

  /** The child set in terms of the database: the items of the collection that have a parent. */
  lemma ChildIdsLoaded(db: Db, collectionId: int)
    requires Valid(db)
    ensures var d := Loaded(ItemQueryRows(db, collectionId));
            forall k :: k in d.childIds <==> InLoad(db, collectionId, k) && db.items.rows[k].parentId.Some?
  {
    var rows := ItemQueryRows(db, collectionId);
    QueryRowsFacts(db, collectionId);
    LoadedChildIds(rows);
    var d := Loaded(rows);
    forall k | k in d.childIds ensures InLoad(db, collectionId, k) && db.items.rows[k].parentId.Some? {
      var i :| 0 <= i < |rows| && HasParent(rows[i]) && rows[i].id == k;
    }
    forall k | InLoad(db, collectionId, k) && db.items.rows[k].parentId.Some? ensures k in d.childIds {
      assert k in RowIds(rows);
      var i :| 0 <= i < |rows| && rows[i].id == k;
      assert HasParent(rows[i]);
    }
  }

  /** `requestMethodsMap` in terms of the database: the items of the collection whose request
      has a non-empty method, each with that method upper-cased. */
  lemma MethodsLoaded(db: Db, collectionId: int)
    requires Valid(db)
    ensures var d := Loaded(ItemQueryRows(db, collectionId));
            (forall k :: k in d.methods <==> InLoad(db, collectionId, k) && JoinedMethod(db, k).Some? && JoinedMethod(db, k).value != "")
            && (forall k :: k in d.methods ==> d.methods[k] == ToUpper(JoinedMethod(db, k).value))
  {
    MethodsLoadedAreJoined(db, collectionId);
    JoinedMethodsLoaded(db, collectionId);
  }

  lemma MethodsLoadedAreJoined(db: Db, collectionId: int)
    requires Valid(db)
    ensures var d := Loaded(ItemQueryRows(db, collectionId));
            forall k :: k in d.methods ==> InLoad(db, collectionId, k) && JoinedMethod(db, k).Some? && JoinedMethod(db, k).value != ""
                                           && d.methods[k] == ToUpper(JoinedMethod(db, k).value)
  {
    var rows := ItemQueryRows(db, collectionId);
    QueryRowsFacts(db, collectionId);
    LoadedMethods(rows);
    var d := Loaded(rows);
    forall k | k in d.methods ensures InLoad(db, collectionId, k) && JoinedMethod(db, k).Some? && JoinedMethod(db, k).value != ""
                                      && d.methods[k] == ToUpper(JoinedMethod(db, k).value) {
      var i :| 0 <= i < |rows| && HasMethod(rows[i]) && rows[i].id == k;
    }
  }

  lemma JoinedMethodsLoaded(db: Db, collectionId: int)
    requires Valid(db)
    ensures var d := Loaded(ItemQueryRows(db, collectionId));
            forall k :: InLoad(db, collectionId, k) && JoinedMethod(db, k).Some? && JoinedMethod(db, k).value != "" ==> k in d.methods
  {
    var rows := ItemQueryRows(db, collectionId);
    QueryRowsFacts(db, collectionId);
    LoadedMethodKeys(rows);
    var d := Loaded(rows);
    forall k | InLoad(db, collectionId, k) && JoinedMethod(db, k).Some? && JoinedMethod(db, k).value != "" ensures k in d.methods {
      assert k in RowIds(rows);
      var i :| 0 <= i < |rows| && rows[i].id == k;
      assert HasMethod(rows[i]);
    }
  }

  /** `childrenMap` in terms of the database: every item of the collection with a parent is
      listed under that parent, every listed id is such an item, and each list is ascending. */
  lemma ChildrenLoaded(db: Db, collectionId: int)
    requires Valid(db)
    ensures var d := Loaded(ItemQueryRows(db, collectionId));
            (forall k :: InLoad(db, collectionId, k) && db.items.rows[k].parentId.Some? ==>
               db.items.rows[k].parentId.value in d.children && k in d.children[db.items.rows[k].parentId.value])
            && (forall p, k :: p in d.children && k in d.children[p] ==>
                  InLoad(db, collectionId, k) && db.items.rows[k].parentId == Some(p))
            && (forall p :: p in d.children ==> StrictlyAscending(d.children[p]))
  {
    var rows := ItemQueryRows(db, collectionId);
    QueryRowsFacts(db, collectionId);
    LoadedChildrenListed(rows);
    LoadedChildrenParents(rows);
    LoadedChildrenAscending(rows);
    var d := Loaded(rows);
    forall k | InLoad(db, collectionId, k) && db.items.rows[k].parentId.Some?
      ensures db.items.rows[k].parentId.value in d.children && k in d.children[db.items.rows[k].parentId.value]
    {
      assert k in RowIds(rows);
      var i :| 0 <= i < |rows| && rows[i].id == k;
      assert HasParent(rows[i]);
    }
    forall p, k | p in d.children && k in d.children[p] ensures InLoad(db, collectionId, k) && db.items.rows[k].parentId == Some(p) {
      assert ParentIs(rows, k, p);
      var i :| 0 <= i < |rows| && rows[i].id == k && rows[i].parentId == Some(p);
    }
  }

  // ---------------------------------------------------------------- root and child lists

  /** The loaded data as the tree builder relies on it: each item filed under its own id, child
      lists ascending, and a child's id above its parent's (a parent row is inserted first). */
  predicate WellFormed(d: ItemsData) {
    (forall k :: k in d.items ==> d.items[k].id == k)
    && (forall p, k :: p in d.children && k in d.children[p] ==> p < k)
    && (forall p :: p in d.children ==> StrictlyAscending(d.children[p]))
  }

  /** The data loaded from a valid database is well formed. */
  lemma LoadedWellFormed(db: Db, collectionId: int)
    requires Valid(db)
    ensures WellFormed(Loaded(ItemQueryRows(db, collectionId)))
  {
    ItemsLoaded(db, collectionId);
    ChildrenLoaded(db, collectionId);
    WellFormedFrom(db, collectionId, Loaded(ItemQueryRows(db, collectionId)));
  }

  lemma WellFormedFrom(db: Db, collectionId: int, d: ItemsData)
    requires ItemsValid(db)
    requires forall k :: k in d.items ==> InLoad(db, collectionId, k) && d.items[k] == ItemInfo(k, db.items.rows[k].name, db.items.rows[k].itemType)
    requires forall p, k :: p in d.children && k in d.children[p] ==> InLoad(db, collectionId, k) && db.items.rows[k].parentId == Some(p)
    requires forall p :: p in d.children ==> StrictlyAscending(d.children[p])
    ensures WellFormed(d)
  {
    forall p, k | p in d.children && k in d.children[p] ensures p < k {
      assert InLoad(db, collectionId, k) && db.items.rows[k].parentId == Some(p);
      assert ItemRowValid(db, k, db.items.rows[k]);
    }
  }

  /** `order` lists every id of `keys` once: the iteration order of a HashMap. */
  ghost predicate ListsIds(order: seq<int>, keys: set<int>) {
    (forall i :: 0 <= i < |order| ==> order[i] in keys)
    && (forall k :: k in keys <==> k in order) && forall a, b :: 0 <= a < b < |order| ==> order[a] != order[b]
  }

  /** The items met in `order` that are not children. */
  function RootCandidates(d: ItemsData, order: seq<int>): seq<ItemInfo>
    requires forall i :: 0 <= i < |order| ==> order[i] in d.items
    decreases |order|
  {
    if order == [] then []
    else
      var init := RootCandidates(d, order[..|order| - 1]);
      var k := order[|order| - 1];
      if k !in d.childIds then init + [d.items[k]] else init
  }

  /** `getRootItems`: the items outside the child set, sorted by id. */
  function RootItems(d: ItemsData, order: seq<int>): seq<ItemInfo>
    requires ListsIds(order, d.items.Keys)
  {
    SortBy(RootCandidates(d, order), InfoId)
  }

  method GetRootItems(d: ItemsData, order: seq<int>) returns (roots: seq<ItemInfo>)
    requires ListsIds(order, d.items.Keys)
    ensures roots == RootItems(d, order)
  {
    roots := [];
    var i := 0;
    while i < |order|
      invariant 0 <= i <= |order|
      invariant roots == RootCandidates(d, order[..i])
    {
      assert order[..i + 1][..i] == order[..i];
      var item := d.items[order[i]];
      if order[i] !in d.childIds {
        roots := roots + [item];
      }
      i := i + 1;
    }
    assert order[..i] == order;
    roots := SortBy(roots, InfoId);
  }

  /** The candidates are the non-child items of `order`, with distinct ids. */
  lemma {:induction false} RootCandidatesMembers(d: ItemsData, order: seq<int>)
    requires forall i :: 0 <= i < |order| ==> order[i] in d.items
    requires (forall k :: k in d.items ==> d.items[k].id == k) && forall a, b :: 0 <= a < b < |order| ==> order[a] != order[b]
    ensures forall x :: x in RootCandidates(d, order) <==> x.id in order && x.id in d.items && d.items[x.id] == x && x.id !in d.childIds
    ensures DistinctKeys(RootCandidates(d, order), InfoId)
    ensures forall i :: 0 <= i < |RootCandidates(d, order)| ==> RootCandidates(d, order)[i].id in order
    decreases |order|
  {
    if order != [] {
      var init := order[..|order| - 1];
      var k := order[|order| - 1];
      assert forall i :: 0 <= i < |init| ==> init[i] == order[i];
      RootCandidatesMembers(d, init);
      assert order == init + [k];
      assert k !in init;
    }
  }

  /** `getRootItems` gives exactly the items outside the child set, in ascending id order. */
  lemma RootItemsExact(d: ItemsData, order: seq<int>)
    requires WellFormed(d) && ListsIds(order, d.items.Keys)
    ensures StrictlySortedBy(RootItems(d, order), InfoId)
    ensures forall x :: x in RootItems(d, order) <==> x.id in d.items && d.items[x.id] == x && x.id !in d.childIds
  {
    RootCandidatesMembers(d, order);
    SortByStrict(RootCandidates(d, order), InfoId);
    SortByMembers(RootCandidates(d, order), InfoId);
  }

  /** Whatever the HashMap's iteration order, the root list is the same. */
  lemma RootItemsOrderFree(d: ItemsData, o1: seq<int>, o2: seq<int>)
    requires WellFormed(d) && ListsIds(o1, d.items.Keys) && ListsIds(o2, d.items.Keys)
    ensures RootItems(d, o1) == RootItems(d, o2)
  {
    RootItemsExact(d, o1);
    RootItemsExact(d, o2);
    StrictlySortedUnique(RootItems(d, o1), RootItems(d, o2), InfoId);
  }

  /** The recorded children still present in `itemsMap`, in list order. */
  function PresentChildren(d: ItemsData, ids: seq<int>): seq<ItemInfo>
    decreases |ids|
  {
    if ids == [] then []
    else
      var init := PresentChildren(d, ids[..|ids| - 1]);
      var k := ids[|ids| - 1];
      if k in d.items then init + [d.items[k]] else init
  }

  /** `getChildItems`: nothing for a parent without a list, else its present children sorted by id. */
  function ChildItems(d: ItemsData, parentId: int): seq<ItemInfo> {
    if parentId !in d.children || d.children[parentId] == [] then []
    else SortBy(PresentChildren(d, d.children[parentId]), InfoId)
  }

  method GetChildItems(d: ItemsData, parentId: int) returns (childItems: seq<ItemInfo>)
    ensures childItems == ChildItems(d, parentId)
  {
    if parentId !in d.children || d.children[parentId] == [] {
      return [];
    }
    var ids := d.children[parentId];
    childItems := [];
    var i := 0;
    while i < |ids|
      invariant 0 <= i <= |ids|
      invariant childItems == PresentChildren(d, ids[..i])
    {
      assert ids[..i + 1][..i] == ids[..i];
      if ids[i] in d.items {
        childItems := childItems + [d.items[ids[i]]];
      }
      i := i + 1;
    }
    assert ids[..i] == ids;
    childItems := SortBy(childItems, InfoId);
  }

  /** The present children are the listed ids found in `itemsMap`, with distinct ids. */
  lemma {:induction false} PresentChildrenMembers(d: ItemsData, ids: seq<int>)
    requires (forall k :: k in d.items ==> d.items[k].id == k) && StrictlyAscending(ids)
    ensures forall x :: x in PresentChildren(d, ids) <==> x.id in ids && x.id in d.items && d.items[x.id] == x
    ensures DistinctKeys(PresentChildren(d, ids), InfoId)
    decreases |ids|
  {
    if ids != [] {
      var init := ids[..|ids| - 1];
      var k := ids[|ids| - 1];
      assert StrictlyAscending(init) by {
        forall a, b | 0 <= a < b < |init| ensures init[a] < init[b] {
          assert init[a] == ids[a] && init[b] == ids[b];
        }
      }
      PresentChildrenMembers(d, init);
      assert ids == init + [k];
      assert forall i :: 0 <= i < |init| ==> init[i] < k;
    }
  }

  /** `getChildItems` gives exactly the listed children present in `itemsMap`, ascending by id,
      all above their parent; an unknown parent gives the empty list. */
  lemma ChildItemsExact(d: ItemsData, parentId: int)
    requires WellFormed(d)
    ensures parentId !in d.children ==> ChildItems(d, parentId) == []
    ensures StrictlySortedBy(ChildItems(d, parentId), InfoId)
    ensures forall x :: x in ChildItems(d, parentId) <==>
              x.id in ChildrenOf(d, parentId) && x.id in d.items && d.items[x.id] == x
    ensures forall x :: x in ChildItems(d, parentId) ==> parentId < x.id
  {
    if parentId in d.children && d.children[parentId] != [] {
      var ids := d.children[parentId];
      PresentChildrenMembers(d, ids);
      SortByStrict(PresentChildren(d, ids), InfoId);
      SortByMembers(PresentChildren(d, ids), InfoId);
    }
  }
}
