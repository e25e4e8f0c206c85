/**
 * The order routes: the requester's own orders newest first, and create,
 * status patch, full update and delete, each update and delete gated on the
 * row's `user_id` being the requester's.
 *
 * Request fields arrive as they were in the JSON body: an absent field is
 * `None` and is written as NULL unless the handler supplies a default.
 */
module Orders {
  import opened Wrappers
  import opened Js
  import opened Tables
  import Query

  /** The row `WHERE id = ? AND user_id = ?` matches on the orders table. */
  predicate OwnsOrder(orders: map<nat, Order>, id: nat, userId: nat) {
    id in orders && orders[id].userId == userId
  }

  /** The `id` column of an order row. */
  function OrderId(o: Order): nat {
    o.id
  }

  /** ORDER BY created_at DESC. */
  function OrderNewestFirst(o: Order): int {
    -(o.createdAt as int)
  }

  /**
   * GET /. A falsy requester id answers 401 (`None`); otherwise the orders the
   * requester owns, every one of them once, newest first.
   */
  function ListOrders(orders: map<nat, Order>, nextOrderId: nat, userId: nat): (r: Option<seq<Order>>)
    ensures r.None? <==> userId == 0
    ensures r.Some? ==> forall i :: 0 <= i < |r.value| ==> r.value[i] in orders.Values && r.value[i].userId == userId
    ensures r.Some? ==> forall k: nat :: k in orders && k < nextOrderId && orders[k].userId == userId ==>
      orders[k] in r.value
    ensures r.Some? ==> forall i, j :: 0 <= i < j < |r.value| ==> r.value[i].createdAt >= r.value[j].createdAt
    ensures r.Some? && OrdersOk(orders, nextOrderId) ==>
      forall i, j :: 0 <= i < j < |r.value| ==> r.value[i].id != r.value[j].id
  {
    if userId == 0 then None
    else
      var own := Query.Filter(Query.Rows(orders, nextOrderId), (o: Order) => o.userId == userId);
      var r := Query.SortByKey(own, OrderNewestFirst);
      ListedOrdersExact(orders, nextOrderId, userId, own, r);
      ListedOrdersUnique(orders, nextOrderId, userId, own, r);
      Query.SortByKeySorted(own, OrderNewestFirst);
      Some(r)
  }

  lemma ListedOrdersExact(orders: map<nat, Order>, nextOrderId: nat, userId: nat, own: seq<Order>, r: seq<Order>)
    requires own == Query.Filter(Query.Rows(orders, nextOrderId), (o: Order) => o.userId == userId)
    requires r == Query.SortByKey(own, OrderNewestFirst)
    ensures forall i :: 0 <= i < |r| ==> r[i] in orders.Values && r[i].userId == userId
    ensures forall k: nat :: k in orders && k < nextOrderId && orders[k].userId == userId ==> orders[k] in r
  {
    var rows := Query.Rows(orders, nextOrderId);
    Query.SortByKeyMembers(own, OrderNewestFirst);
    forall i | 0 <= i < |r| ensures r[i] in orders.Values && r[i].userId == userId {
      assert r[i] in own;
      var j :| 0 <= j < |own| && own[j] == r[i];
      var m :| 0 <= m < |rows| && rows[m] == r[i];
    }
    forall k: nat | k in orders && k < nextOrderId && orders[k].userId == userId ensures orders[k] in r {
      Query.RowsContain(orders, nextOrderId, k);
      var m :| 0 <= m < |rows| && rows[m] == orders[k];
      assert orders[k] in own;
    }
  }

  /** On a well-formed table no order is listed twice. */
  lemma ListedOrdersUnique(orders: map<nat, Order>, nextOrderId: nat, userId: nat, own: seq<Order>, r: seq<Order>)
    requires own == Query.Filter(Query.Rows(orders, nextOrderId), (o: Order) => o.userId == userId)
    requires r == Query.SortByKey(own, OrderNewestFirst)
    ensures OrdersOk(orders, nextOrderId) ==> Query.UniqueBy(r, OrderId)
  {
    if OrdersOk(orders, nextOrderId) {
      var rows := Query.Rows(orders, nextOrderId);
      Query.RowsUnique(orders, nextOrderId, OrderId);
      Query.UniqueSub(rows, own, OrderId);
      Query.UniqueSub(own, r, OrderId);
    }
  }

  /**
   * The stored `scheduled_at`: the request's value when it is truthy and
   * parses as a date (`isValidDate`), NULL otherwise. No empty or invalid
   * date reaches the column, and no valid one is dropped. The source stores
   * the parsed Date, which the driver formats; the model keeps the string.
   */
  function ScheduledOrNull(scheduledAt: Option<string>, isValidDate: string -> bool): (r: Option<string>)
    ensures r.Some? ==> r.value != "" && isValidDate(r.value)
    ensures Truthy(scheduledAt) && isValidDate(scheduledAt.value) ==> r == scheduledAt
    ensures r.Some? ==> r == scheduledAt
  {
    if Truthy(scheduledAt) && isValidDate(scheduledAt.value) then scheduledAt else None
  }

  /**
   * POST /. A falsy requester id answers 401; otherwise inserts one order
   * owned by the requester with `total_amount` defaulting to 0, `status`
   * defaulting to 'pending' and an unparseable `scheduled_at` stored as NULL.
   */
  method CreateOrder(db: Database, userId: nat, customerName: Option<string>, customerPhone: Option<string>,
                     description: Option<string>, totalAmount: Option<real>, status: Option<string>,
                     scheduledAt: Option<string>, isValidDate: string -> bool, now: nat)
    returns (code: int)
    requires db.Valid()
    modifies db`orders, db`nextOrderId
    ensures db.Valid()
    ensures code == 201 || code == 401
    ensures code == 401 <==> userId == 0
    ensures code == 401 ==> db.orders == old(db.orders) && db.nextOrderId == old(db.nextOrderId)
    ensures code == 201 ==>
      && db.nextOrderId == old(db.nextOrderId) + 1
      && old(db.nextOrderId) !in old(db.orders)
      && db.orders == old(db.orders)[old(db.nextOrderId) :=
           Order(old(db.nextOrderId), userId, customerName, customerPhone, description, OrZero(totalAmount),
                 Some(OrDefault(status, "pending")), ScheduledOrNull(scheduledAt, isValidDate), now)]
  {
    if userId == 0 {
      return 401;
    }
    var order := Order(db.nextOrderId, userId, customerName, customerPhone, description, OrZero(totalAmount),
                       Some(OrDefault(status, "pending")), ScheduledOrNull(scheduledAt, isValidDate), now);
    db.orders := db.orders[db.nextOrderId := order];
    db.nextOrderId := db.nextOrderId + 1;
    code := 201;
  }

  /**
   * PATCH /:id/status. Writes the request's status, as given, into an order
   * the requester owns; anything else answers 403 and changes nothing.
   */
  method PatchStatus(db: Database, id: nat, userId: nat, status: Option<string>) returns (code: int)
    requires db.Valid()
    modifies db`orders
    ensures db.Valid()
    ensures code == 200 || code == 403
    ensures code == 200 <==> OwnsOrder(old(db.orders), id, userId)
    ensures code == 403 ==> db.orders == old(db.orders)
    ensures code == 200 ==> db.orders == old(db.orders)[id := old(db.orders)[id].(status := status)]
  {
    if !OwnsOrder(db.orders, id, userId) {
      return 403;
    }
    db.orders := db.orders[id := db.orders[id].(status := status)];
    code := 200;
  }

  /**
   * PUT /:id. Rewrites every editable column of an order the requester owns,
   * with `total_amount` defaulting to 0 and a falsy `scheduled_at` stored as
   * NULL; anything else answers 403 and changes nothing.
   */
  method UpdateOrder(db: Database, id: nat, userId: nat, customerName: Option<string>,
                     customerPhone: Option<string>, description: Option<string>, totalAmount: Option<real>,
                     status: Option<string>, scheduledAt: Option<string>)
    returns (code: int)
    requires db.Valid()
    modifies db`orders
    ensures db.Valid()
    ensures code == 200 || code == 403
    ensures code == 200 <==> OwnsOrder(old(db.orders), id, userId)
    ensures code == 403 ==> db.orders == old(db.orders)
    ensures code == 200 ==>
      db.orders == old(db.orders)[id := Order(id, userId, customerName, customerPhone, description,
                                               OrZero(totalAmount), status, OrNull(scheduledAt),
                                               old(db.orders)[id].createdAt)]
  {
    if !OwnsOrder(db.orders, id, userId) {
      return 403;
    }
    var order := Order(id, userId, customerName, customerPhone, description, OrZero(totalAmount), status,
                       OrNull(scheduledAt), db.orders[id].createdAt);
    db.orders := db.orders[id := order];
    code := 200;
  }

  /**
   * DELETE /:id. Removes exactly the order with that id when the requester
   * owns it; anything else answers 403 and changes nothing.
   */
  method DeleteOrder(db: Database, id: nat, userId: nat) returns (code: int)
    requires db.Valid()
    modifies db`orders
    ensures db.Valid()
    ensures code == 200 || code == 403
    ensures code == 200 <==> OwnsOrder(old(db.orders), id, userId)
    ensures code == 403 ==> db.orders == old(db.orders)
    ensures code == 200 ==> db.orders == old(db.orders) - {id}
  {
    if !OwnsOrder(db.orders, id, userId) {
      return 403;
    }
    db.orders := db.orders - {id};
    code := 200;
  }

  /** After a successful delete the order is gone from the requester's list. */
  lemma DeletedOrderNotListed(orders: map<nat, Order>, nextOrderId: nat, id: nat, userId: nat)
    requires OrdersOk(orders, nextOrderId) && OwnsOrder(orders, id, userId) && userId != 0
    ensures ListOrders(orders - {id}, nextOrderId, userId).Some?
    ensures orders[id] !in ListOrders(orders - {id}, nextOrderId, userId).value
    ensures orders[id] in ListOrders(orders, nextOrderId, userId).value
  {
    var after := ListOrders(orders - {id}, nextOrderId, userId).value;
    assert forall k :: k in orders - {id} ==> (orders - {id})[k].id != id;
  }
}
