/**
 * The figures of the dashboard page: the customer and active-product counts,
 * the number of pending and in-production orders, and the sales total over
 * completed orders.
 */
module Dashboard {
  import opened Wrappers

  /** The columns the dashboard reads from each order: `select("id, status, total_amount")`. */
  datatype OrderSummary = OrderSummary(id: int, status: string, totalAmount: Option<int>)

  const PendingStatus := "pending"
  const InProductionStatus := "in_production"
  const CompletedStatus := "completed"

  /** `result.count || 0`: a missing count shows as 0. */
  function CountOrZero(count: Option<nat>): (n: nat)
    ensures count.None? ==> n == 0
    ensures count.Some? ==> n == count.value
  {
    match count
    case None => 0
    case Some(c) => c
  }

  /** `result.data || []`: missing data is an empty list. */
  function OrdersOrEmpty(data: Option<seq<OrderSummary>>): (orders: seq<OrderSummary>)
    ensures data.None? ==> orders == []
    ensures data.Some? ==> orders == data.value
  {
    match data
    case None => []
    case Some(d) => d
  }

  /** `orders.filter((o) => o.status === status)`: the orders with that status, in their order. */
  function WithStatus(orders: seq<OrderSummary>, status: string): (r: seq<OrderSummary>)
    ensures |r| <= |orders|
    ensures forall i :: 0 <= i < |r| ==> r[i].status == status
    ensures forall o :: o in r <==> o in orders && o.status == status
    ensures forall o :: multiset(r)[o] == if o.status == status then multiset(orders)[o] else 0
  {
    if orders == [] then []
    else
      var init := WithStatus(orders[..|orders| - 1], status);
      var last := orders[|orders| - 1];
      assert orders == orders[..|orders| - 1] + [last];
      if last.status == status then init + [last] else init
  }

  /** Filtering a concatenation filters each part. */
  lemma {:induction false} WithStatusAppend(a: seq<OrderSummary>, b: seq<OrderSummary>, status: string)
    ensures WithStatus(a + b, status) == WithStatus(a, status) + WithStatus(b, status)
    decreases |b|
  {
    if b != [] {
      var b' := b[..|b| - 1];
      assert (a + b)[..|a + b| - 1] == a + b';
      assert (a + b)[|a + b| - 1] == b[|b| - 1];
      WithStatusAppend(a, b', status);
    } else {
      assert a + b == a;
    }
  }

  /** Orders of two different statuses are counted apart: together they are at most all the orders. */
  lemma {:induction false} TwoStatusesFitInOrders(orders: seq<OrderSummary>, s: string, t: string)
    requires s != t
    ensures |WithStatus(orders, s)| + |WithStatus(orders, t)| <= |orders|
  {
    if orders != [] {
      TwoStatusesFitInOrders(orders[..|orders| - 1], s, t);
    }
  }

  /** `o.total_amount || 0`: a null total counts as 0 (and 0 stays 0). */
  function AmountOrZero(o: OrderSummary): (a: int)
    ensures o.totalAmount.None? ==> a == 0
    ensures o.totalAmount.Some? ==> a == o.totalAmount.value
  {
    match o.totalAmount
    case None => 0
    case Some(v) => v
  }

  /** `reduce((sum, o) => sum + (o.total_amount || 0), 0)`. */
  function Sales(orders: seq<OrderSummary>): (sum: int)
    ensures (forall i :: 0 <= i < |orders| ==> AmountOrZero(orders[i]) >= 0) ==> sum >= 0
  {
    if orders == [] then 0
    else Sales(orders[..|orders| - 1]) + AmountOrZero(orders[|orders| - 1])
  }

  lemma {:induction false} SalesAppend(a: seq<OrderSummary>, b: seq<OrderSummary>)
    ensures Sales(a + b) == Sales(a) + Sales(b)
    decreases |b|
  {
    if b != [] {
      var b' := b[..|b| - 1];
      assert (a + b)[..|a + b| - 1] == a + b';
      assert (a + b)[|a + b| - 1] == b[|b| - 1];
      SalesAppend(a, b');
    } else {
      assert a + b == a;
    }
  }

  /** `totalSales`: the total amounts of the completed orders; tax is not part of it. */
  function TotalSales(orders: seq<OrderSummary>): (total: int)
    ensures (forall i :: 0 <= i < |orders| ==> AmountOrZero(orders[i]) >= 0) ==> total >= 0
  {
    var completed := WithStatus(orders, CompletedStatus);
    assert forall i :: 0 <= i < |completed| ==> completed[i] in orders;
    Sales(completed)
  }

  /** An order contributes its amount (null as 0) to the sales total exactly when it is completed. */
  lemma TotalSalesSplit(a: seq<OrderSummary>, o: OrderSummary, b: seq<OrderSummary>)
    ensures TotalSales(a + [o] + b) ==
      TotalSales(a) + (if o.status == CompletedStatus then AmountOrZero(o) else 0) + TotalSales(b)
  {
    WithStatusAppend(a + [o], b, CompletedStatus);
    WithStatusAppend(a, [o], CompletedStatus);
    assert [o][..0] == [];
    var wa, wo, wb := WithStatus(a, CompletedStatus), WithStatus([o], CompletedStatus), WithStatus(b, CompletedStatus);
    SalesAppend(wa + wo, wb);
    SalesAppend(wa, wo);
    assert wo == (if o.status == CompletedStatus then [o] else []);
    assert Sales([o]) == Sales([o][..0]) + AmountOrZero(o);
  }

  /** Adding, removing or changing an order that is not completed leaves the sales total unchanged. */
  lemma NonCompletedOrdersDoNotCount(a: seq<OrderSummary>, o: OrderSummary, o': OrderSummary, b: seq<OrderSummary>)
    requires o.status != CompletedStatus && o'.status != CompletedStatus
    ensures TotalSales(a + [o] + b) == TotalSales(a + b)
    ensures TotalSales(a + [o] + b) == TotalSales(a + [o'] + b)
  {
    TotalSalesSplit(a, o, b);
    TotalSalesSplit(a, o', b);
    WithStatusAppend(a, b, CompletedStatus);
    SalesAppend(WithStatus(a, CompletedStatus), WithStatus(b, CompletedStatus));
  }

  /** The figures the dashboard shows. */
  datatype Figures = Figures(customerCount: nat, productCount: nat, pendingOrders: nat, inProductionOrders: nat, totalSales: int)

  /**
   * The figures for the fetched results: `customers` and `products` are the
   * exact counts (the latter over active products), `orders` the order list,
   * each missing when its query failed.
   */
  function DashboardFigures(customers: Option<nat>, products: Option<nat>, orders: Option<seq<OrderSummary>>): (f: Figures)
    ensures f.customerCount == CountOrZero(customers) && f.productCount == CountOrZero(products)
    ensures f.pendingOrders + f.inProductionOrders <= |OrdersOrEmpty(orders)|
    ensures orders.None? ==> f.pendingOrders == 0 && f.inProductionOrders == 0 && f.totalSales == 0
    ensures f.pendingOrders == |WithStatus(OrdersOrEmpty(orders), PendingStatus)|
    ensures f.inProductionOrders == |WithStatus(OrdersOrEmpty(orders), InProductionStatus)|
    ensures f.totalSales == TotalSales(OrdersOrEmpty(orders))
  {
    var list := OrdersOrEmpty(orders);
    TwoStatusesFitInOrders(list, PendingStatus, InProductionStatus);
    Figures(
      CountOrZero(customers),
      CountOrZero(products),
      |WithStatus(list, PendingStatus)|,
      |WithStatus(list, InProductionStatus)|,
      TotalSales(list))
  }
}
