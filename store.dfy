/**
 * The hosted database as the server actions see it: one object holding every
 * table the core writes. Each call into the database client may fail; the
 * verdict of one call is `StoreVerdict`, which the model leaves unconstrained.
 */
module Store {
  import opened Wrappers
  import opened Tables
  import opened Schema

  /** What a server action hands back to the page: a redirect, an `{ error }` value, or nothing. */
  datatype Response = Redirect(path: string) | Failure(message: string) | Done

  class Database {
    var orders: Table<OrderRow>
    var orderItems: Table<OrderItemRow>
    var customers: Table<CustomerRow>
    var products: Table<ProductRow>
    var news: Table<NewsRow>
    var videos: Table<VideoRow>

    /**
     * Serial ids are fresh, `video_id` is unique, and an order line never names an
     * order id that has not been handed out yet.
     */
    ghost predicate Valid()
      reads this
    {
      && Tables.Valid(orders)
      && Tables.Valid(orderItems)
      && Tables.Valid(customers)
      && Tables.Valid(products)
      && Tables.Valid(news)
      && Tables.Valid(videos)
      && UniqueVideoIds(videos)
      && LinesReferToIssuedOrders(orderItems, orders)
    }

    constructor ()
      ensures Valid()
      ensures orders.rows == map[] && orderItems.rows == map[] && customers.rows == map[]
      ensures products.rows == map[] && news.rows == map[] && videos.rows == map[]
    {
      orders := Tables.Empty();
      orderItems := Tables.Empty();
      customers := Tables.Empty();
      products := Tables.Empty();
      news := Tables.Empty();
      videos := Tables.Empty();
    }
  }

  ghost predicate LinesReferToIssuedOrders(lines: Table<OrderItemRow>, orders: Table<OrderRow>) {
    forall k :: k in lines.rows ==> lines.rows[k].orderId < orders.nextId
  }

  /** The outcome of one database call: `None` when it succeeded, else the error message. */
  method StoreVerdict() returns (err: Option<string>)
  {
    err := *;
  }
}
