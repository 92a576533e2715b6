/** The tracked-products service over its two tables, `products` and
    `price_history`, abstracted as a map from id to row, a sequence of history
    rows in insertion order and the next id the database will hand out.
    Timestamps are naturals supplied by the caller (`now`). */
module ProductStore {
  import opened Wrappers
  import opened Text
  import opened Http
  import Seqs

  /** A key of a JSON request body: absent, present as null, or a value. */
  datatype Field<T> = Absent | Null | Value(value: T) {

    /** `data.get(key)`: absent and null both become SQL NULL. */
    function Get(): (r: Option<T>)
      ensures r.Some? <==> Value?
    {
      if Value? then Some(value) else None
    }

    /** `data.get(key, default)`: only an absent key takes the default. */
    function GetOr(default: T): (r: Option<T>)
      ensures Absent? ==> r == Some(default)
      ensures !Absent? ==> r == Get()
    {
      match this
      case Absent => Some(default)
      case Null => None
      case Value(v) => Some(v)
    }
  }

  /** A `products` row; `None` is SQL NULL. */
  datatype ProductRow = ProductRow(
    name: Option<string>,
    articleNumber: Option<string>,
    marketplace: Option<string>,
    productUrl: Option<string>,
    currentPrice: Option<int>,
    targetPrice: Option<int>,
    imageUrl: Option<string>,
    notificationsEnabled: Option<bool>,
    createdAt: nat,
    updatedAt: nat)

  /** A `price_history` row. */
  datatype HistoryRow = HistoryRow(productId: nat, price: Option<int>, checkedAt: nat)

  datatype Store = Store(products: map<nat, ProductRow>, history: seq<HistoryRow>, nextId: nat)

  /** Every id is below the id counter and every history row belongs to a
      stored product. */
  predicate Valid(s: Store) {
    && (forall id :: id in s.products ==> id < s.nextId)
    && (forall h :: h in s.history ==> h.productId in s.products)
  }

  /** Empty tables; ids start at 1. */
  function Init(): (s: Store)
    ensures Valid(s) && s.products == map[] && s.history == []
  {
    Store(map[], [], 1)
  }

  /** The decoded request body of POST and PUT. */
  datatype Body = Body(
    id: Field<string>,
    name: Field<string>,
    articleNumber: Field<string>,
    marketplace: Field<string>,
    productUrl: Field<string>,
    currentPrice: Field<int>,
    targetPrice: Field<int>,
    imageUrl: Field<string>,
    notifications: Field<bool>)

  /** The JSON the handlers answer with. */
  datatype Payload =
    | NoContent
    | Error(message: string)
    | Listing(products: seq<ProductView>)
    | Created(id: nat)
    | Succeeded

  /** A reply together with the tables after the request. */
  datatype Exchange = Exchange(reply: Reply<Payload>, store: Store)

  const MethodNotAllowed: string := "Method not allowed"
  const IdRequired: string := "Product ID is required"
  const HistoryLimit: nat := 30

  // ---------------------------------------------------------------------------
  // add_product

  /** The row inserted for a POST body: every column from its key (absent or
      null keys give NULL) except `notifications_enabled`, which defaults to
      true when the key is absent. */
  function NewRow(body: Body, now: nat): (row: ProductRow)
    ensures row.notificationsEnabled == (if body.notifications.Absent? then Some(true) else body.notifications.Get())
    ensures row.currentPrice == body.currentPrice.Get() && row.targetPrice == body.targetPrice.Get()
    ensures row.name == body.name.Get() && row.articleNumber == body.articleNumber.Get()
    ensures row.marketplace == body.marketplace.Get() && row.productUrl == body.productUrl.Get()
    ensures row.imageUrl == body.imageUrl.Get()
    ensures row.createdAt == now && row.updatedAt == now
  {
    ProductRow(body.name.Get(), body.articleNumber.Get(), body.marketplace.Get(), body.productUrl.Get(),
               body.currentPrice.Get(), body.targetPrice.Get(), body.imageUrl.Get(),
               body.notifications.GetOr(true), now, now)
  }

  /** Inserts one product under a fresh id and one history row recording its
      current price, and answers 201 with that id. */
  function AddProduct(s: Store, body: Body, now: nat): (x: Exchange)
    ensures x.reply.Respond? && x.reply.status == 201 && x.reply.body.Created?
    ensures var id := x.reply.body.id;
            && (Valid(s) ==> id !in s.products)
            && x.store.products.Keys == s.products.Keys + {id}
            && x.store.products[id] == NewRow(body, now)
            && (forall k :: k in s.products && k != id ==> x.store.products[k] == s.products[k])
            && x.store.history == s.history + [HistoryRow(id, body.currentPrice.Get(), now)]
    ensures Valid(s) ==> Valid(x.store)
  {
    var id := s.nextId;
    var store := Store(s.products[id := NewRow(body, now)],
                       s.history + [HistoryRow(id, body.currentPrice.Get(), now)],
                       s.nextId + 1);
    Exchange(Respond(201, Created(id)), store)
  }

  // ---------------------------------------------------------------------------
  // update_product

  /** `row` with the two columns a PUT sets, plus the update time. */
  function Patch(row: ProductRow, body: Body, now: nat): (r: ProductRow)
    ensures SameButPatched(row, r)
    ensures r.notificationsEnabled == body.notifications.Get() && r.targetPrice == body.targetPrice.Get()
    ensures r.updatedAt == now && r.createdAt == row.createdAt
  {
    row.(notificationsEnabled := body.notifications.Get(), targetPrice := body.targetPrice.Get(), updatedAt := now)
  }

  /** `a` and `b` differ at most in the columns a PUT writes. */
  predicate SameButPatched(a: ProductRow, b: ProductRow) {
    a.(notificationsEnabled := b.notificationsEnabled, targetPrice := b.targetPrice, updatedAt := b.updatedAt) == b
  }

  /** Sets `notifications_enabled` and `target_price` (absent or null keys give
      NULL) and `updated_at` on the row whose id the body names; no row is
      touched when the id is absent, null or unknown, and the answer is 200
      either way. An id the database cannot read as an integer raises, and
      nothing is committed. */
  function UpdateProduct(s: Store, body: Body, now: nat): (x: Exchange)
    ensures x.reply.Raised? || x.reply == Respond(200, Succeeded)
    ensures x.reply.Raised? <==> body.id.Value? && ResolveNumeral(body.id.value).None?
    ensures x.reply.Raised? ==> x.store == s
    ensures x.store.history == s.history && x.store.nextId == s.nextId
    ensures x.store.products.Keys == s.products.Keys
    ensures forall k :: k in s.products ==>
              x.store.products[k] == s.products[k] || SameButPatched(s.products[k], x.store.products[k])
    ensures forall k :: k in s.products && body.id.Value? && ResolveNumeral(body.id.value) == Some(k) ==>
              && x.store.products[k].notificationsEnabled == body.notifications.Get()
              && x.store.products[k].targetPrice == body.targetPrice.Get()
              && x.store.products[k].updatedAt == now
    ensures forall k :: k in s.products && !(body.id.Value? && ResolveNumeral(body.id.value) == Some(k)) ==>
              x.store.products[k] == s.products[k]
  {
    match body.id
    case Value(text) =>
      (match ResolveNumeral(text)
       case None => Exchange(Raised, s)
       case Some(id) =>
         var products := if id in s.products then s.products[id := Patch(s.products[id], body, now)] else s.products;
         Exchange(Respond(200, Succeeded), s.(products := products)))
    case _ => Exchange(Respond(200, Succeeded), s)
  }

  /** PUT is idempotent: repeating the same request at the same time changes
      nothing further. */
  lemma UpdateIdempotent(s: Store, body: Body, now: nat)
    ensures var once := UpdateProduct(s, body, now);
            UpdateProduct(once.store, body, now) == once
  {
  }

  // ---------------------------------------------------------------------------
  // delete_product

  /** The history rows of product `id`, as a test. */
  function OfProduct(id: nat): HistoryRow -> bool {
    (h: HistoryRow) => h.productId == id
  }

  /** The history rows of every other product, as a test. */
  function NotOfProduct(id: nat): HistoryRow -> bool {
    (h: HistoryRow) => h.productId != id
  }

  /** Removes the product the query names together with all of its history
      rows, and nothing else; 200 even when no product has that id. A missing
      or empty id answers 400 and changes nothing; an id the database cannot
      read as an integer raises and changes nothing. */
  function DeleteProduct(s: Store, queryId: Option<string>): (x: Exchange)
    ensures queryId.None? || queryId == Some("") ==> x == Exchange(Respond(400, Error(IdRequired)), s)
    ensures x.reply.Raised? <==> queryId.Some? && queryId.value != "" && ResolveNumeral(queryId.value).None?
    ensures x.reply.Raised? ==> x.store == s
    ensures x.reply == Respond(200, Succeeded) <==>
              queryId.Some? && ResolveNumeral(queryId.value).Some?
    ensures x.reply == Respond(200, Succeeded) ==>
              var id := ResolveNumeral(queryId.value).value;
              && x.store.products.Keys == s.products.Keys - {id}
              && (forall k :: k in x.store.products ==> x.store.products[k] == s.products[k])
              && (forall h :: h in x.store.history <==> h in s.history && h.productId != id)
              && multiset(x.store.history) + multiset(HistoryOf(s.history, id)) == multiset(s.history)
              && x.store.nextId == s.nextId
    ensures Valid(s) ==> Valid(x.store)
  {
    if queryId.None? || queryId.value == "" then Exchange(Respond(400, Error(IdRequired)), s)
    else
      match ResolveNumeral(queryId.value)
      case None => Exchange(Raised, s)
      case Some(id) =>
        var history := Seqs.Filter(s.history, NotOfProduct(id));
        HistorySplits(s.history, id);
        Exchange(Respond(200, Succeeded), Store(s.products - {id}, history, s.nextId))
  }

  // ---------------------------------------------------------------------------
  // get_products

  /** A product row with its id. */
  datatype Entry = Entry(id: nat, row: ProductRow)

  /** The stored entries with ids below `n`, in descending id order. */
  function EntriesBelow(products: map<nat, ProductRow>, n: nat): (r: seq<Entry>)
    ensures forall e :: e in r ==> e.id < n && e.id in products && e.row == products[e.id]
    ensures forall id :: id < n && id in products ==> Entry(id, products[id]) in r
    ensures forall i, j :: 0 <= i < j < |r| ==> r[i].id > r[j].id
  {
    if n == 0 then []
    else
      var rest := EntriesBelow(products, n - 1);
      (if n - 1 in products then [Entry(n - 1, products[n - 1])] else []) + rest
  }

  function CreatedAt(e: Entry): int {
    e.row.createdAt
  }

  function EntryId(e: Entry): nat {
    e.id
  }

  /** The `products` rows in the order the listing query returns them:
      newest `created_at` first (rows created at the same time come in
      descending id order). Every stored product appears, with no id twice. */
  function ProductOrder(s: Store): (r: seq<Entry>)
    ensures Seqs.SortedDesc(r, CreatedAt)
    ensures forall e :: e in r ==> e.id in s.products && e.row == s.products[e.id]
    ensures Seqs.DistinctBy(r, EntryId)
    ensures Valid(s) ==> forall id :: id in s.products ==> Entry(id, s.products[id]) in r
  {
    var entries := EntriesBelow(s.products, s.nextId);
    var r := Seqs.SortDesc(entries, CreatedAt);
    Seqs.PermutationKeepsDistinct(entries, r, EntryId);
    Seqs.PermutationSameElements(entries, r);
    r
  }

  function CheckedAt(h: HistoryRow): int {
    h.checkedAt
  }

  /** The history rows of one product, in insertion order. */
  function HistoryOf(history: seq<HistoryRow>, id: nat): (r: seq<HistoryRow>)
    ensures forall i :: 0 <= i < |r| ==> r[i] in history && r[i].productId == id
    ensures forall i :: 0 <= i < |history| && history[i].productId == id ==> history[i] in r
    ensures forall h :: multiset(r)[h] == if h.productId == id then multiset(history)[h] else 0
  {
    Seqs.FilterCounts(history, OfProduct(id));
    Seqs.Filter(history, OfProduct(id))
  }

  /** Every history row belongs either to product `id` or to another one, with
      its multiplicity. */
  lemma HistorySplits(history: seq<HistoryRow>, id: nat)
    ensures multiset(Seqs.Filter(history, NotOfProduct(id))) + multiset(HistoryOf(history, id)) == multiset(history)
  {
    Seqs.FilterCounts(history, NotOfProduct(id));
    var kept := multiset(Seqs.Filter(history, NotOfProduct(id)));
    var gone := multiset(HistoryOf(history, id));
    forall h ensures (kept + gone)[h] == multiset(history)[h] {
      assert NotOfProduct(id)(h) == (h.productId != id);
    }
  }

  /** The history window of one product: its 30 most recent rows
      (`ORDER BY checked_at DESC LIMIT 30`), presented oldest first
      (`reversed`). The window is as long as it can be, is in ascending time
      order, takes only rows of the input, and no row left out is more recent
      than a row kept. */
  function Window(rows: seq<HistoryRow>): (w: seq<HistoryRow>)
    ensures |w| == if |rows| < HistoryLimit then |rows| else HistoryLimit
    ensures Seqs.SortedAsc(w, CheckedAt)
    ensures multiset(w) <= multiset(rows)
    ensures forall x, y :: x in multiset(rows) - multiset(w) && y in w ==> x.checkedAt <= y.checkedAt
  {
    var top := Seqs.Top(rows, HistoryLimit, CheckedAt);
    var w := Seqs.Reverse(top);
    Seqs.PermutationSameElements(top, w);
    w
  }

  /** One point of a product's displayed price history. */
  datatype HistoryPoint = HistoryPoint(checkedAt: nat, price: Option<int>)

  /** A product as the listing reports it: the id as text, `notifications`
      from `notifications_enabled`, and the other columns under camel-case
      names, unchanged. */
  datatype ProductView = ProductView(
    id: string,
    name: Option<string>,
    articleNumber: Option<string>,
    marketplace: Option<string>,
    productUrl: Option<string>,
    currentPrice: Option<int>,
    targetPrice: Option<int>,
    imageUrl: Option<string>,
    notifications: Option<bool>,
    priceHistory: seq<HistoryPoint>)

  function Point(h: HistoryRow): HistoryPoint {
    HistoryPoint(h.checkedAt, h.price)
  }

  /** The display form of history rows, point by point. */
  function Points(rows: seq<HistoryRow>): (ps: seq<HistoryPoint>)
    ensures |ps| == |rows|
    ensures forall i :: 0 <= i < |rows| ==> ps[i].checkedAt == rows[i].checkedAt && ps[i].price == rows[i].price
  {
    seq(|rows|, i requires 0 <= i < |rows| => Point(rows[i]))
  }

  /** The view of one entry: its id text resolves back to its id, its columns
      are the row's, and its history shows the entry's window point by point. */
  function View(history: seq<HistoryRow>, e: Entry): (v: ProductView)
    ensures ResolveNumeral(v.id) == Some(e.id)
    ensures v.name == e.row.name && v.articleNumber == e.row.articleNumber && v.marketplace == e.row.marketplace
    ensures v.productUrl == e.row.productUrl && v.imageUrl == e.row.imageUrl && v.currentPrice == e.row.currentPrice
    ensures v.targetPrice == e.row.targetPrice && v.notifications == e.row.notificationsEnabled
    ensures var w := Window(HistoryOf(history, e.id));
            |v.priceHistory| == |w| && forall i :: 0 <= i < |w| ==> v.priceHistory[i] == Point(w[i])
  {
    ResolveNatToString(e.id);
    var points := Points(Window(HistoryOf(history, e.id)));
    ProductView(NatToString(e.id), e.row.name, e.row.articleNumber, e.row.marketplace, e.row.productUrl,
                e.row.currentPrice, e.row.targetPrice, e.row.imageUrl, e.row.notificationsEnabled, points)
  }

  /** Every row in a product's window is one of that product's history rows. */
  lemma WindowOfProduct(history: seq<HistoryRow>, id: nat)
    ensures var w := Window(HistoryOf(history, id));
            forall i :: 0 <= i < |w| ==> w[i] in history && w[i].productId == id
  {
    var rows := HistoryOf(history, id);
    var w := Window(rows);
    forall i | 0 <= i < |w| ensures w[i] in history && w[i].productId == id {
      assert w[i] in multiset(w);
      assert multiset(rows)[w[i]] > 0;
      assert multiset(history)[w[i]] > 0;
    }
  }

  /** Lists every product, newest first, each with its history window; the
      tables are not changed. */
  function GetProducts(s: Store): (x: Exchange)
    ensures x.store == s
    ensures x.reply.Respond? && x.reply.status == 200 && x.reply.body.Listing?
    ensures var views := x.reply.body.products;
            && |views| == |ProductOrder(s)|
            && forall i :: 0 <= i < |views| ==> views[i] == View(s.history, ProductOrder(s)[i])
  {
    var order := ProductOrder(s);
    var views := seq(|order|, i requires 0 <= i < |order| => View(s.history, order[i]));
    Exchange(Respond(200, Listing(views)), s)
  }

  /** The ids the listing reports, read back as numbers. */
  function ListedIds(s: Store): set<nat> {
    var views := GetProducts(s).reply.body.products;
    set i | 0 <= i < |views| && ResolveNumeral(views[i].id).Some? :: ResolveNumeral(views[i].id).value
  }

  /** The view at each position of the listing shows the product at that
      position of the listing order, under its own id and with its stored
      columns. */
  lemma ListedView(s: Store)
    ensures var views := GetProducts(s).reply.body.products;
            var order := ProductOrder(s);
            forall i :: 0 <= i < |views| ==>
              && ResolveNumeral(views[i].id) == Some(order[i].id) && order[i].id in s.products
              && views[i].targetPrice == s.products[order[i].id].targetPrice
              && views[i].notifications == s.products[order[i].id].notificationsEnabled
  {
    var views := GetProducts(s).reply.body.products;
    var order := ProductOrder(s);
    OrderEntriesStored(s);
    forall i | 0 <= i < |views|
      ensures ResolveNumeral(views[i].id) == Some(order[i].id)
      ensures views[i].targetPrice == order[i].row.targetPrice
      ensures views[i].notifications == order[i].row.notificationsEnabled
    {
      assert views[i] == View(s.history, order[i]);
    }
  }

  /** Each position of the listing order holds a stored row under its own id. */
  lemma OrderEntriesStored(s: Store)
    ensures var order := ProductOrder(s);
            forall i :: 0 <= i < |order| ==> order[i].id in s.products && order[i].row == s.products[order[i].id]
  {
    var order := ProductOrder(s);
    forall i | 0 <= i < |order| ensures order[i].id in s.products && order[i].row == s.products[order[i].id] {
      assert order[i] in order;
    }
  }

  /** Every id the listing reports belongs to a stored product. */
  lemma ListedIdsAreStored(s: Store)
    ensures ListedIds(s) <= s.products.Keys
  {
    var views := GetProducts(s).reply.body.products;
    ListedView(s);
    forall id | id in ListedIds(s) ensures id in s.products {
      var i :| 0 <= i < |views| && ResolveNumeral(views[i].id).Some? && ResolveNumeral(views[i].id).value == id;
    }
  }

  /** Every stored product is listed. */
  lemma StoredIdsAreListed(s: Store, id: nat)
    requires Valid(s) && id in s.products
    ensures id in ListedIds(s)
  {
    var order := ProductOrder(s);
    var i :| 0 <= i < |order| && order[i] == Entry(id, s.products[id]);
    ListedView(s);
  }

  /** The listing reports every stored product and nothing else, each under
      an id text that resolves back to its id. */
  lemma ListingCoversStore(s: Store)
    requires Valid(s)
    ensures ListedIds(s) == s.products.Keys
  {
    ListedIdsAreStored(s);
    StoreIsListed(s);
  }

  lemma StoreIsListed(s: Store)
    requires Valid(s)
    ensures s.products.Keys <= ListedIds(s)
  {
    forall id | id in s.products ensures id in ListedIds(s) {
      StoredIdsAreListed(s, id);
    }
  }

  /** The listing has exactly one entry per stored product. */
  lemma ListingSize(s: Store)
    requires Valid(s)
    ensures |GetProducts(s).reply.body.products| == |s.products|
  {
    var order := ProductOrder(s);
    OrderIds(s);
    IndexSetSize(order);
  }

  /** The ids of the listing order are the stored ids. */
  lemma OrderIds(s: Store)
    requires Valid(s)
    ensures var order := ProductOrder(s);
            (set i | 0 <= i < |order| :: order[i].id) == s.products.Keys
  {
    var order := ProductOrder(s);
    var ids := set i | 0 <= i < |order| :: order[i].id;
    forall id | id in s.products ensures id in ids {
      var i :| 0 <= i < |order| && order[i] == Entry(id, s.products[id]);
    }
    forall id | id in ids ensures id in s.products {
      var i :| 0 <= i < |order| && order[i].id == id;
      assert order[i] in order;
    }
  }

  /** Distinct ids: as many ids as entries. */
  lemma {:induction false} IndexSetSize(order: seq<Entry>)
    requires Seqs.DistinctBy(order, EntryId)
    ensures |set i | 0 <= i < |order| :: order[i].id| == |order|
    decreases |order|
  {
    if |order| > 0 {
      var last := |order| - 1;
      var front := order[..last];
      IndexSetSize(front);
      var s := set i | 0 <= i < |order| :: order[i].id;
      var t := set i | 0 <= i < |front| :: front[i].id;
      assert s == t + {order[last].id};
      assert order[last].id !in t by {
        forall i | 0 <= i < |front| ensures front[i].id != order[last].id {
          assert EntryId(order[i]) != EntryId(order[last]);
        }
      }
    }
  }

  // ---------------------------------------------------------------------------
  // handler

  /** `httpMethod` (default GET), the decoded body (every key absent when
      there is none) and the query's `id` parameter. */
  datatype Request = Request(httpMethod: Option<string>, body: Body, queryId: Option<string>)

  function Method(req: Request): string {
    req.httpMethod.GetOr("GET")
  }

  /** The service's entry point: OPTIONS answers before any table access,
      the four verbs go to their operations, and anything else is refused
      with 405 and the tables unchanged. */
  function Handle(s: Store, req: Request, now: nat): (x: Exchange)
    ensures Method(req) == "OPTIONS" ==> x == Exchange(Respond(200, NoContent), s)
    ensures Method(req) !in {"OPTIONS", "GET", "POST", "PUT", "DELETE"} ==>
              x == Exchange(Respond(405, Error(MethodNotAllowed)), s)
    ensures Method(req) == "GET" ==> x == GetProducts(s)
    ensures Method(req) == "POST" ==> x == AddProduct(s, req.body, now)
    ensures Method(req) == "PUT" ==> x == UpdateProduct(s, req.body, now)
    ensures Method(req) == "DELETE" ==> x == DeleteProduct(s, req.queryId)
    ensures Valid(s) ==> Valid(x.store)
  {
    match Method(req)
    case "OPTIONS" => Exchange(Respond(200, NoContent), s)
    case "GET" => GetProducts(s)
    case "POST" => AddProduct(s, req.body, now)
    case "PUT" => UpdateProduct(s, req.body, now)
    case "DELETE" => DeleteProduct(s, req.queryId)
    case _ => Exchange(Respond(405, Error(MethodNotAllowed)), s)
  }

  /** Deleting by the id text the listing reports removes exactly that
      product and its history. */
  lemma DeleteByListedId(s: Store, id: nat)
    ensures var x := DeleteProduct(s, Some(NatToString(id)));
            && x.reply == Respond(200, Succeeded)
            && x.store.products.Keys == s.products.Keys - {id}
            && forall h :: h in x.store.history ==> h.productId != id
  {
    ResolveNatToString(id);
  }

  /** An added product is listed with the price history consisting of its
      current price at the time of insertion. */
  lemma AddedProductHasOnePoint(s: Store, body: Body, now: nat)
    requires Valid(s)
    ensures var x := AddProduct(s, body, now);
            var id := x.reply.body.id;
            HistoryOf(x.store.history, id) == [HistoryRow(id, body.currentPrice.Get(), now)]
  {
    var id := s.nextId;
    var row := HistoryRow(id, body.currentPrice.Get(), now);
    assert AddProduct(s, body, now).store.history == s.history + [row];
    Seqs.FilterNone(s.history, OfProduct(id));
    Seqs.FilterAppend(s.history, row, OfProduct(id));
    assert Seqs.Filter(s.history + [row], OfProduct(id)) == [row];
  }

  /** Deleting a product right after adding it, by the id text the listing
      reports, restores both tables; only the id counter has moved on. */
  lemma AddThenDeleteRestores(s: Store, body: Body, now: nat)
    requires Valid(s)
    ensures var added := AddProduct(s, body, now);
            var id := added.reply.body.id;
            var removed := DeleteProduct(added.store, Some(NatToString(id)));
            && removed.reply == Respond(200, Succeeded)
            && removed.store == s.(nextId := s.nextId + 1)
  {
    var id := s.nextId;
    var added := AddProduct(s, body, now).store;
    ResolveNatToString(id);
    assert added.products - {id} == s.products;
    assert Seqs.Filter(added.history, NotOfProduct(id)) == s.history by {
      var row := HistoryRow(id, body.currentPrice.Get(), now);
      Seqs.FilterAll(s.history, NotOfProduct(id));
      Seqs.FilterAppend(s.history, row, NotOfProduct(id));
    }
  }

  /** DELETE is idempotent: repeating it leaves the tables as the first
      request left them. */
  lemma DeleteIdempotent(s: Store, queryId: Option<string>)
    ensures var once := DeleteProduct(s, queryId);
            DeleteProduct(once.store, queryId).store == once.store
  {
    if queryId.Some? && ResolveNumeral(queryId.value).Some? {
      ResolvedDeleteIdempotent(s, queryId, ResolveNumeral(queryId.value).value);
    } else {
      UnresolvedDeleteKeepsStore(s, queryId);
      UnresolvedDeleteKeepsStore(DeleteProduct(s, queryId).store, queryId);
    }
  }

  /** The resolved case of `DeleteIdempotent`: the second delete of `id`
      finds neither its row nor any of its history points. */
  lemma ResolvedDeleteIdempotent(s: Store, queryId: Option<string>, id: nat)
    requires queryId.Some? && ResolveNumeral(queryId.value) == Some(id)
    ensures var once := DeleteProduct(s, queryId);
            DeleteProduct(once.store, queryId).store == once.store
  {
    var once := DeleteProduct(s, queryId).store;
    DeletedStore(s, queryId, id);
    DeletedStore(once, queryId, id);
    RemoveProductIdempotent(s, id);
  }

  /** The tables a successful delete leaves. */
  lemma DeletedStore(s: Store, queryId: Option<string>, id: nat)
    requires queryId.Some? && ResolveNumeral(queryId.value) == Some(id)
    ensures DeleteProduct(s, queryId).store == RemoveProduct(s, id)
  {
  }

  /** The tables without product `id` and its history. */
  function RemoveProduct(s: Store, id: nat): Store {
    Store(s.products - {id}, Seqs.Filter(s.history, NotOfProduct(id)), s.nextId)
  }

  /** Removing a product twice is removing it once. */
  lemma RemoveProductIdempotent(s: Store, id: nat)
    ensures RemoveProduct(RemoveProduct(s, id), id) == RemoveProduct(s, id)
  {
    Seqs.FilterIdempotent(s.history, NotOfProduct(id));
    assert (s.products - {id}) - {id} == s.products - {id};
  }

  /** A delete whose id does not resolve changes nothing. */
  lemma UnresolvedDeleteKeepsStore(s: Store, queryId: Option<string>)
    requires !(queryId.Some? && ResolveNumeral(queryId.value).Some?)
    ensures DeleteProduct(s, queryId).store == s
  {
  }
}
