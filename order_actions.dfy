/**
 * The order server actions: creating an order (header, then lines, with a
 * compensating delete when the lines are rejected), overwriting an order's
 * status, and deleting an order.
 */
module OrderActions {
  import opened Wrappers
  import opened JsSemantics
  import opened Tables
  import opened Schema
  import opened Store

  /** One element of the submitted `items` JSON array. */
  datatype OrderItem = OrderItem(productId: int, quantity: int, unitPrice: int, amount: int)

  const PendingStatus := "pending"
  const OrdersPath := "/oms/orders"

  /** `items.reduce((sum, item) => sum + item.amount, 0)`. */
  function Subtotal(items: seq<OrderItem>): (total: int)
    ensures (forall i :: 0 <= i < |items| ==> items[i].amount >= 0) ==> total >= 0
  {
    if items == [] then 0 else Subtotal(items[..|items| - 1]) + items[|items| - 1].amount
  }

  /** `Math.floor(total * 0.1)`, taken over the rationals: the tax is the largest integer not above a tenth. */
  function Tax(subtotal: int): (tax: int)
    ensures 10 * tax <= subtotal < 10 * tax + 10
  {
    (subtotal as real * 0.1).Floor
  }

  /** The rate is applied by truncation, so for integer totals it is integer division by ten. */
  lemma TaxIsTenth(subtotal: int)
    ensures Tax(subtotal) == subtotal / 10
  {
  }

  lemma {:induction false} SubtotalAppend(a: seq<OrderItem>, b: seq<OrderItem>)
    ensures Subtotal(a + b) == Subtotal(a) + Subtotal(b)
    decreases |b|
  {
    if b == [] {
      assert a + b == a;
    } else {
      var b' := b[..|b| - 1];
      assert (a + b)[..|a + b| - 1] == a + b';
      SubtotalAppend(a, b');
    }
  }

  /**
   * The subtotal is taken from the `amount` fields as given: two item lists whose
   * amounts agree have the same subtotal, whatever their quantities and unit prices.
   */
  lemma {:induction false} SubtotalUsesAmountsOnly(a: seq<OrderItem>, b: seq<OrderItem>)
    requires |a| == |b|
    requires forall i :: 0 <= i < |a| ==> a[i].amount == b[i].amount
    ensures Subtotal(a) == Subtotal(b)
    decreases |a|
  {
    if a != [] {
      SubtotalUsesAmountsOnly(a[..|a| - 1], b[..|b| - 1]);
    }
  }

  /** `JSON.parse(itemsJson || "[]")`, with the parse itself taken as given. */
  function ParsedItems(items: Option<seq<OrderItem>>): (r: seq<OrderItem>)
    ensures items.None? ==> r == []
    ensures items.Some? ==> r == items.value
  {
    items.GetOr([])
  }

  /**
   * The header row `createOrder` inserts, for the submitted form, items and
   * signed-in user. `Number(customer_id)` is NaN for a non-numeric field, which
   * the JSON request body carries as null.
   */
  function OrderHeader(form: Form, items: Option<seq<OrderItem>>, user: Option<string>): (h: OrderRow)
    ensures Number(Get(form, "customer_id")).Finite? ==> h.customerId == Some(Number(Get(form, "customer_id")).value)
    ensures Number(Get(form, "customer_id")).NaN? ==> h.customerId.None?
    ensures h.status == PendingStatus
    ensures h.totalAmount == Subtotal(ParsedItems(items))
    ensures 10 * h.taxAmount <= h.totalAmount < 10 * h.taxAmount + 10
    ensures h.orderDate == Get(form, "order_date")
    ensures h.dueDate.None? <==> ("due_date" !in form || form["due_date"] == "")
    ensures h.dueDate.Some? ==> h.dueDate.value == form["due_date"]
    ensures h.notes.None? <==> ("notes" !in form || form["notes"] == "")
    ensures h.notes.Some? ==> h.notes.value == form["notes"]
    ensures h.createdBy == user
  {
    var total := Subtotal(ParsedItems(items));
    var customer := Number(Get(form, "customer_id"));
    OrderRow(
      if customer.Finite? then Some(customer.value) else None,
      PendingStatus,
      Get(form, "order_date"),
      EmptyToNull(Get(form, "due_date")),
      total,
      Tax(total),
      EmptyToNull(Get(form, "notes")),
      user)
  }

  /** A missing `items` field is an empty order: nothing to sum, no tax. */
  lemma MissingItemsGiveZeroTotals(form: Form, user: Option<string>)
    ensures OrderHeader(form, None, user).totalAmount == 0
    ensures OrderHeader(form, None, user).taxAmount == 0
  {
  }

  /** `items.map(item => ({ order_id, product_id, quantity, unit_price, amount }))`. */
  function OrderLines(orderId: int, items: seq<OrderItem>): (lines: seq<OrderItemRow>)
    ensures |lines| == |items|
    ensures forall i :: 0 <= i < |items| ==>
      lines[i] == OrderItemRow(orderId, items[i].productId, items[i].quantity, items[i].unitPrice, items[i].amount)
  {
    if items == [] then []
    else
      var it := items[0];
      [OrderItemRow(orderId, it.productId, it.quantity, it.unitPrice, it.amount)] + OrderLines(orderId, items[1..])
  }

  /** Inserting lines that name issued orders keeps every stored line pointing at an issued order. */
  lemma InsertedLinesReferToIssuedOrders(before: Table<OrderItemRow>, orders: Table<OrderRow>, lines: seq<OrderItemRow>)
    requires Tables.Valid(before) && LinesReferToIssuedOrders(before, orders)
    requires forall i :: 0 <= i < |lines| ==> lines[i].orderId < orders.nextId
    ensures LinesReferToIssuedOrders(Tables.InsertAll(before, lines), orders)
  {
    var after := Tables.InsertAll(before, lines);
    forall k | k in after.rows
      ensures after.rows[k].orderId < orders.nextId
    {
      if k !in before.rows {
        var i := k - before.nextId;
        assert after.rows[before.nextId + i] == lines[i];
      }
    }
  }

  /**
   * `createOrder`. On success the header is stored under a fresh id with every line
   * pointing at it, in input order. If the header insert fails nothing changes. If
   * the line insert fails no line is stored and the header is deleted again; only
   * when that compensating delete itself fails (its error is ignored) does the
   * header stay behind, with no line referring to it.
   */
  method CreateOrder(db: Database, form: Form, items: Option<seq<OrderItem>>, user: Option<string>)
    returns (res: Response, ghost orderId: int, ghost compensated: bool)
    requires db.Valid()
    modifies db`orders, db`orderItems
    ensures db.Valid()
    ensures res.Redirect? || res.Failure?
    ensures res.Redirect? ==>
      && res.path == OrdersPath
      && (db.orders, orderId) == Tables.Insert(old(db.orders), OrderHeader(form, items, user))
      && db.orderItems == Tables.InsertAll(old(db.orderItems), OrderLines(orderId, ParsedItems(items)))
    ensures res.Failure? ==> db.orderItems == old(db.orderItems)
    ensures res.Failure? && compensated ==> db.orders.rows == old(db.orders.rows)
    ensures res.Failure? && !compensated ==>
      && (db.orders, orderId) == Tables.Insert(old(db.orders), OrderHeader(form, items, user))
      && (forall k :: k in db.orderItems.rows ==> db.orderItems.rows[k].orderId != orderId)
    ensures ParsedItems(items) == [] ==> db.orderItems == old(db.orderItems) && (res.Redirect? || compensated)
  {
    var parsed := ParsedItems(items);
    var header := OrderHeader(form, items, user);
    orderId, compensated := 0, true;

    var orderError := StoreVerdict();
    if orderError.Some? {
      return Failure(orderError.value), orderId, compensated;
    }
    var inserted := Tables.Insert(db.orders, header);
    var newId := inserted.1;
    db.orders, orderId := inserted.0, newId;

    if |parsed| > 0 {
      var lines := OrderLines(newId, parsed);
      var itemsError := StoreVerdict();
      if itemsError.Some? {
        var deleteError := StoreVerdict();
        if deleteError.None? {
          db.orders := Tables.Delete(db.orders, newId);
          Tables.DeleteUndoesInsert(old(db.orders), header);
        } else {
          compensated := false;
        }
        return Failure(itemsError.value), orderId, compensated;
      }
      InsertedLinesReferToIssuedOrders(db.orderItems, db.orders, lines);
      db.orderItems := Tables.InsertAll(db.orderItems, lines);
    }
    res := Redirect(OrdersPath);
  }

  /** `updateOrderStatus`: the given status overwrites the stored one, with no check of the order's lifecycle. */
  method UpdateOrderStatus(db: Database, id: int, status: string) returns (res: Response)
    requires db.Valid()
    modifies db`orders
    ensures db.Valid()
    ensures res.Done? || res.Failure?
    ensures res.Failure? ==> db.orders == old(db.orders)
    ensures res.Done? && id in old(db.orders.rows) ==>
      db.orders == Tables.Update(old(db.orders), id, old(db.orders.rows[id]).(status := status))
    ensures id !in old(db.orders.rows) ==> db.orders == old(db.orders)
  {
    var error := StoreVerdict();
    if error.Some? {
      return Failure(error.value);
    }
    if id in db.orders.rows {
      db.orders := Tables.Update(db.orders, id, db.orders.rows[id].(status := status));
    }
    res := Done;
  }

  /** `deleteOrder`: removes that one header; its lines are not touched. */
  method DeleteOrder(db: Database, id: int) returns (res: Response)
    requires db.Valid()
    modifies db`orders
    ensures db.Valid()
    ensures res.Done? || res.Failure?
    ensures res.Failure? ==> db.orders == old(db.orders)
    ensures res.Done? ==> db.orders == Tables.Delete(old(db.orders), id)
  {
    var error := StoreVerdict();
    if error.Some? {
      return Failure(error.value);
    }
    db.orders := Tables.Delete(db.orders, id);
    res := Done;
  }
}
