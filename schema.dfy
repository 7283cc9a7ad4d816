/**
 * The rows the handlers write, one datatype per table. Nullable columns are
 * `Option`s; the serial `id` column is the key of the enclosing table and
 * columns filled in by database defaults (created_at, order_number) are not part
 * of the rows.
 */
module Schema {
  import opened Wrappers
  import opened Tables

  /** A row of `orders`. `status` is free text: nothing checks it against the status list. */
  datatype OrderRow = OrderRow(
    customerId: Option<int>,
    status: string,
    orderDate: Option<string>,
    dueDate: Option<string>,
    totalAmount: int,
    taxAmount: int,
    notes: Option<string>,
    createdBy: Option<string>)

  /** A row of `order_items`. */
  datatype OrderItemRow = OrderItemRow(orderId: int, productId: int, quantity: int, unitPrice: int, amount: int)

  /** A row of `customers`. */
  datatype CustomerRow = CustomerRow(
    name: Option<string>,
    code: Option<string>,
    contactPerson: Option<string>,
    email: Option<string>,
    phone: Option<string>,
    address: Option<string>,
    creditLimit: int,
    notes: Option<string>)

  /** A row of `products`. */
  datatype ProductRow = ProductRow(
    name: Option<string>,
    code: Option<string>,
    description: Option<string>,
    unit: string,
    unitPrice: int,
    leadTimeDays: int,
    isActive: bool)

  /** A row of `news`. */
  datatype NewsRow = NewsRow(title: Option<string>, content: Option<string>)

  /** A row of `youtube_videos`; `videoId` carries a unique constraint. */
  datatype VideoRow = VideoRow(videoId: string, title: Option<string>, thumbnailUrl: string, publishedAt: Option<string>)

  /** The unique constraint on `youtube_videos.video_id`. */
  predicate UniqueVideoIds(t: Table<VideoRow>) {
    forall j, k :: j in t.rows && k in t.rows && t.rows[j].videoId == t.rows[k].videoId ==> j == k
  }
}
