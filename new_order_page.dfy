/**
 * The line-item cart of the new-order page: the client-side state `items`, the
 * handlers `addItem` and `removeItem`, the derived subtotal and tax, and the
 * projection sent to `createOrder` on submit.
 */
module NewOrderPage {
  import opened Wrappers
  import opened JsSemantics
  import opened Store
  import OrderActions

  /** A product as loaded for the selector. */
  datatype Product = Product(id: int, name: string, code: string, unitPrice: int, unit: string)

  /** One line of the cart. */
  datatype CartLine = CartLine(productId: int, productName: string, quantity: int, unitPrice: int, amount: int)

  /** `products.find(p => p.id === n)`: a product with that id (ids are keys); NaN matches none. */
  function FindProduct(products: seq<Product>, n: JsNumber): (r: Option<Product>)
    ensures r.None? <==> forall i :: 0 <= i < |products| ==> n != Finite(products[i].id)
    ensures r.Some? ==> r.value in products && n == Finite(r.value.id)
  {
    if products == [] then None
    else if n == Finite(products[0].id) then Some(products[0])
    else
      var r := FindProduct(products[1..], n);
      assert forall i :: 1 <= i < |products| ==> products[i] == products[1..][i - 1];
      r
  }

  /** `items.findIndex(i => i.product_id === id)`: the first line for that product, or -1. */
  function IndexOfProduct(items: seq<CartLine>, id: int): (k: int)
    ensures -1 <= k < |items|
    ensures k == -1 <==> forall i :: 0 <= i < |items| ==> items[i].productId != id
    ensures k >= 0 ==> items[k].productId == id && forall i :: 0 <= i < k ==> items[i].productId != id
  {
    if items == [] then -1
    else if items[0].productId == id then 0
    else
      var k := IndexOfProduct(items[1..], id);
      assert forall i :: 1 <= i < |items| ==> items[i] == items[1..][i - 1];
      if k == -1 then -1 else k + 1
  }

  /** The cart after `addItem` with the selector value `selected` and the entered quantity. */
  function Added(items: seq<CartLine>, products: seq<Product>, selected: string, quantity: int): (r: seq<CartLine>)
    ensures |items| <= |r| <= |items| + 1
  {
    match FindProduct(products, Number(Some(selected)))
    case None => items
    case Some(p) => if quantity <= 0 then items else AddLine(items, p, quantity)
  }

  /** The part of `addItem` after a product was found and the quantity accepted. */
  function AddLine(items: seq<CartLine>, p: Product, quantity: int): (r: seq<CartLine>)
    ensures |items| <= |r| <= |items| + 1
  {
    var k := IndexOfProduct(items, p.id);
    if k >= 0 then
      var q := items[k].quantity + quantity;
      items[k := items[k].(quantity := q, amount := q * items[k].unitPrice)]
    else
      items + [CartLine(p.id, p.name, quantity, p.unitPrice, quantity * p.unitPrice)]
  }

  /** The cart after `removeItem(index)`: `items.filter((_, i) => i !== index)`. */
  function Removed(items: seq<CartLine>, index: int): (r: seq<CartLine>)
    ensures |r| == if 0 <= index < |items| then |items| - 1 else |items|
  {
    KeepOthersIsCut(items, index, 0);
    KeepOthers(items, index, 0)
  }

  /** The filter's loop: keep every element of `rest` whose position (counted from `start`) is not `index`. */
  function KeepOthers(rest: seq<CartLine>, index: int, start: int): seq<CartLine> {
    if rest == [] then []
    else (if start == index then [] else [rest[0]]) + KeepOthers(rest[1..], index, start + 1)
  }

  /** `items.reduce((sum, item) => sum + item.amount, 0)`. */
  function CartTotal(items: seq<CartLine>): (total: int)
    ensures (forall i :: 0 <= i < |items| ==> items[i].amount >= 0) ==> total >= 0
  {
    if items == [] then 0 else CartTotal(items[..|items| - 1]) + items[|items| - 1].amount
  }

  /** `Math.floor(total * 0.1)`, shown as the consumption tax. */
  function CartTax(items: seq<CartLine>): (tax: int)
    ensures 10 * tax <= CartTotal(items) < 10 * tax + 10
  {
    OrderActions.Tax(CartTotal(items))
  }

  /** The grand total shown at the bottom of the cart: subtotal plus tax. */
  function GrandTotal(items: seq<CartLine>): (g: int)
    ensures g - CartTotal(items) == CartTax(items)
  {
    CartTotal(items) + CartTax(items)
  }

  /** The `items` array serialised by `handleSubmit`: the four persisted fields of each line. */
  function Submitted(items: seq<CartLine>): (r: seq<OrderActions.OrderItem>)
    ensures |r| == |items|
    ensures forall i :: 0 <= i < |items| ==>
      r[i] == OrderActions.OrderItem(items[i].productId, items[i].quantity, items[i].unitPrice, items[i].amount)
  {
    if items == [] then []
    else
      var l := items[0];
      [OrderActions.OrderItem(l.productId, l.quantity, l.unitPrice, l.amount)] + Submitted(items[1..])
  }

  /** The invariant the cart handlers keep: one line per product, positive quantities, consistent amounts. */
  predicate Consistent(items: seq<CartLine>) {
    && (forall i, j :: 0 <= i < j < |items| ==> items[i].productId != items[j].productId)
    && (forall i :: 0 <= i < |items| ==> items[i].quantity > 0)
    && (forall i :: 0 <= i < |items| ==> items[i].amount == items[i].quantity * items[i].unitPrice)
  }

  // ----- addItem -----

  /** Nothing happens for an unknown product or a quantity that is not positive. */
  lemma AddIgnoresUnknownProductOrBadQuantity(items: seq<CartLine>, products: seq<Product>, selected: string, quantity: int)
    requires FindProduct(products, Number(Some(selected))).None? || quantity <= 0
    ensures Added(items, products, selected, quantity) == items
  {
  }

  /** A product already in the cart: that line's quantity grows and its amount is recomputed; nothing else moves. */
  lemma AddMergesExistingLine(items: seq<CartLine>, p: Product, quantity: int)
    requires IndexOfProduct(items, p.id) >= 0
    ensures var r := AddLine(items, p, quantity);
      var k := IndexOfProduct(items, p.id);
      && |r| == |items|
      && r[k].productId == items[k].productId == p.id
      && r[k].productName == items[k].productName
      && r[k].unitPrice == items[k].unitPrice
      && r[k].quantity == items[k].quantity + quantity
      && r[k].amount == r[k].quantity * r[k].unitPrice
      && forall i :: 0 <= i < |items| && i != k ==> r[i] == items[i]
  {
  }

  /** A product not yet in the cart: exactly one line is appended, priced from the product. */
  lemma AddAppendsNewLine(items: seq<CartLine>, p: Product, quantity: int)
    requires IndexOfProduct(items, p.id) == -1
    ensures AddLine(items, p, quantity) == items + [CartLine(p.id, p.name, quantity, p.unitPrice, quantity * p.unitPrice)]
  {
  }

  /** With a known product and a positive quantity, `addItem` merges or appends as above. */
  lemma AddUsesSelectedProduct(items: seq<CartLine>, products: seq<Product>, selected: string, quantity: int)
    requires FindProduct(products, Number(Some(selected))).Some? && quantity > 0
    ensures var p := FindProduct(products, Number(Some(selected))).value;
      p in products && Number(Some(selected)) == Finite(p.id)
      && Added(items, products, selected, quantity) == AddLine(items, p, quantity)
  {
  }

  /** After an accepted add, the cart has a line for the product. */
  lemma AddPutsProductInCart(items: seq<CartLine>, products: seq<Product>, selected: string, quantity: int)
    requires FindProduct(products, Number(Some(selected))).Some? && quantity > 0
    ensures IndexOfProduct(Added(items, products, selected, quantity), FindProduct(products, Number(Some(selected))).value.id) >= 0
  {
    var p := FindProduct(products, Number(Some(selected))).value;
    var r := AddLine(items, p, quantity);
    var k := IndexOfProduct(items, p.id);
    var j := if k >= 0 then k else |items|;
    assert r[j].productId == p.id;
  }

  lemma AddLineKeepsConsistent(items: seq<CartLine>, p: Product, quantity: int)
    requires Consistent(items) && quantity > 0
    ensures Consistent(AddLine(items, p, quantity))
  {
    var r := AddLine(items, p, quantity);
    var k := IndexOfProduct(items, p.id);
    if k >= 0 {
      assert forall i :: 0 <= i < |r| ==> r[i].productId == items[i].productId;
    } else {
      assert forall i :: 0 <= i < |items| ==> r[i] == items[i];
    }
  }

  lemma AddKeepsConsistent(items: seq<CartLine>, products: seq<Product>, selected: string, quantity: int)
    requires Consistent(items)
    ensures Consistent(Added(items, products, selected, quantity))
  {
    var found := FindProduct(products, Number(Some(selected)));
    if found.Some? && quantity > 0 {
      AddLineKeepsConsistent(items, found.value, quantity);
    }
  }

  lemma {:induction false} CartTotalAppend(a: seq<CartLine>, b: seq<CartLine>)
    ensures CartTotal(a + b) == CartTotal(a) + CartTotal(b)
    decreases |b|
  {
    if b == [] {
      assert a + b == a;
    } else {
      var b' := b[..|b| - 1];
      assert (a + b)[..|a + b| - 1] == a + b';
      CartTotalAppend(a, b');
    }
  }

  lemma CartTotalSingle(l: CartLine)
    ensures CartTotal([l]) == l.amount
  {
    assert [l][..0] == [];
  }

  /** The subtotal splits around any one line. */
  lemma CartTotalSplit(items: seq<CartLine>, k: int)
    requires 0 <= k < |items|
    ensures CartTotal(items) == CartTotal(items[..k]) + items[k].amount + CartTotal(items[k + 1..])
  {
    var pre, post := items[..k], items[k + 1..];
    assert items == (pre + [items[k]]) + post;
    CartTotalAppend(pre + [items[k]], post);
    CartTotalAppend(pre, [items[k]]);
    CartTotalSingle(items[k]);
  }

  /** Replacing one line changes the subtotal by the difference of the two amounts. */
  lemma CartTotalReplace(items: seq<CartLine>, k: int, l: CartLine)
    requires 0 <= k < |items|
    ensures CartTotal(items[k := l]) == CartTotal(items) - items[k].amount + l.amount
  {
    var r := items[k := l];
    assert r[..k] == items[..k] && r[k + 1..] == items[k + 1..];
    CartTotalSplit(items, k);
    CartTotalSplit(r, k);
  }

  /** Merging q more units into a line whose amount is right raises the subtotal by q times its unit price. */
  lemma MergeLineTotal(items: seq<CartLine>, k: int, quantity: int)
    requires 0 <= k < |items| && items[k].amount == items[k].quantity * items[k].unitPrice
    ensures var q := items[k].quantity + quantity;
      CartTotal(items[k := items[k].(quantity := q, amount := q * items[k].unitPrice)])
        == CartTotal(items) + quantity * items[k].unitPrice
  {
    var line := items[k];
    var q := line.quantity + quantity;
    CartTotalReplace(items, k, line.(quantity := q, amount := q * line.unitPrice));
    DistributeRight(line.quantity, quantity, line.unitPrice);
  }

  /** Adding a product already in the cart raises the subtotal by q times that line's unit price. */
  lemma MergeRaisesTotal(items: seq<CartLine>, p: Product, quantity: int)
    requires IndexOfProduct(items, p.id) >= 0
    requires var k := IndexOfProduct(items, p.id); items[k].amount == items[k].quantity * items[k].unitPrice
    ensures CartTotal(AddLine(items, p, quantity)) == CartTotal(items) + quantity * items[IndexOfProduct(items, p.id)].unitPrice
  {
    MergeLineTotal(items, IndexOfProduct(items, p.id), quantity);
  }

  /** Appending a new line raises the subtotal by its amount. */
  lemma AppendRaisesTotal(items: seq<CartLine>, p: Product, quantity: int)
    requires IndexOfProduct(items, p.id) < 0
    ensures CartTotal(AddLine(items, p, quantity)) == CartTotal(items) + quantity * p.unitPrice
  {
    var l := CartLine(p.id, p.name, quantity, p.unitPrice, quantity * p.unitPrice);
    CartTotalAppend(items, [l]);
    CartTotalSingle(l);
  }

  /** Adding q of a product raises the subtotal by q times that line's unit price. */
  lemma AddRaisesTotal(items: seq<CartLine>, p: Product, quantity: int)
    requires Consistent(items)
    ensures var k := IndexOfProduct(items, p.id);
      && (k >= 0 ==> CartTotal(AddLine(items, p, quantity)) == CartTotal(items) + quantity * items[k].unitPrice)
      && (k < 0 ==> CartTotal(AddLine(items, p, quantity)) == CartTotal(items) + quantity * p.unitPrice)
  {
    if IndexOfProduct(items, p.id) >= 0 {
      MergeRaisesTotal(items, p, quantity);
    } else {
      AppendRaisesTotal(items, p, quantity);
    }
  }

  lemma DistributeRight(a: int, b: int, c: int)
    ensures (a + b) * c == a * c + b * c
  {
  }

  // ----- removeItem -----

  lemma {:induction false} KeepOthersIsCut(rest: seq<CartLine>, index: int, start: int)
    ensures KeepOthers(rest, index, start) ==
      if start <= index < start + |rest| then rest[..index - start] + rest[index - start + 1..] else rest
    decreases |rest|
  {
    if rest != [] {
      KeepOthersIsCut(rest[1..], index, start + 1);
      if start == index {
        assert rest[1..] == rest[index - start + 1..];
      } else if start < index < start + |rest| {
        assert rest[..index - start] == [rest[0]] + rest[1..][..index - start - 1];
        assert rest[index - start + 1..] == rest[1..][index - start - 1 + 1..];
      } else {
        assert rest == [rest[0]] + rest[1..];
      }
    }
  }

  /** `removeItem(i)` drops exactly the i-th line and keeps the others in order; any other index is a no-op. */
  lemma RemoveDropsOneLine(items: seq<CartLine>, index: int)
    ensures 0 <= index < |items| ==> Removed(items, index) == items[..index] + items[index + 1..]
    ensures !(0 <= index < |items|) ==> Removed(items, index) == items
  {
    KeepOthersIsCut(items, index, 0);
  }

  lemma RemoveKeepsConsistent(items: seq<CartLine>, index: int)
    requires Consistent(items)
    ensures Consistent(Removed(items, index))
  {
    RemoveDropsOneLine(items, index);
    if 0 <= index < |items| {
      var r := Removed(items, index);
      assert forall i :: 0 <= i < |r| ==> r[i] == items[if i < index then i else i + 1];
    }
  }

  /** Removing a line lowers the subtotal by exactly its amount. */
  lemma RemoveLowersTotal(items: seq<CartLine>, index: int)
    requires 0 <= index < |items|
    ensures CartTotal(Removed(items, index)) == CartTotal(items) - items[index].amount
  {
    RemoveDropsOneLine(items, index);
    CartTotalAppend(items[..index], items[index + 1..]);
    CartTotalSplit(items, index);
  }

  // ----- submit -----

  /** What the server stores as `total_amount` is the subtotal the page showed. */
  lemma {:induction false} SubmittedSubtotalMatchesCart(items: seq<CartLine>)
    ensures OrderActions.Subtotal(Submitted(items)) == CartTotal(items)
    decreases |items|
  {
    if items != [] {
      var init := items[..|items| - 1];
      assert Submitted(items)[..|items| - 1] == Submitted(init);
      SubmittedSubtotalMatchesCart(init);
    }
  }

  /** Two units at 1000 yen: amount 2000, tax 200, grand total 2200. */
  lemma TwoAtThousandExample()
    ensures var items := [CartLine(1, "P", 2, 1000, 2000)];
      CartTotal(items) == 2000 && CartTax(items) == 200 && GrandTotal(items) == 2200
  {
    var items := [CartLine(1, "P", 2, 1000, 2000)];
    CartTotalSingle(items[0]);
    OrderActions.TaxIsTenth(2000);
  }

  /** The page's state: the loaded products, the cart and the two selector inputs. */
  class NewOrderForm {
    const products: seq<Product>
    var items: seq<CartLine>
    var selectedProduct: string
    var quantity: int

    ghost predicate Valid()
      reads this
    {
      Consistent(items)
    }

    constructor (products: seq<Product>)
      ensures Valid() && this.products == products
      ensures items == [] && selectedProduct == "" && quantity == 1
    {
      this.products := products;
      items := [];
      selectedProduct := "";
      quantity := 1;
    }

    /** The product selector's `onValueChange` and the quantity input's `onChange`. */
    method Choose(selected: string, q: int)
      modifies this`selectedProduct, this`quantity
      ensures selectedProduct == selected && quantity == q
    {
      selectedProduct, quantity := selected, q;
    }

    /** `addItem`: the matching line is updated in place, or a new line is appended; the inputs are then reset. */
    method AddItem()
      requires Valid()
      modifies this`items, this`selectedProduct, this`quantity
      ensures Valid()
      ensures items == Added(old(items), products, old(selectedProduct), old(quantity))
      ensures items == old(items) ==> selectedProduct == old(selectedProduct) && quantity == old(quantity)
      ensures items != old(items) ==> selectedProduct == "" && quantity == 1
    {
      AddKeepsConsistent(items, products, selectedProduct, quantity);
      var product := FindProduct(products, Number(Some(selectedProduct)));
      if product.None? || quantity <= 0 {
        return;
      }
      var p := product.value;
      var existingIndex := IndexOfProduct(items, p.id);
      if existingIndex >= 0 {
        var newItems := items;
        var line := newItems[existingIndex];
        newItems := newItems[existingIndex := line.(quantity := line.quantity + quantity)];
        line := newItems[existingIndex];
        newItems := newItems[existingIndex := line.(amount := line.quantity * line.unitPrice)];
        items := newItems;
      } else {
        items := items + [CartLine(p.id, p.name, quantity, p.unitPrice, quantity * p.unitPrice)];
      }
      selectedProduct, quantity := "", 1;
    }

    /** `removeItem(index)`. */
    method RemoveItem(index: int)
      requires Valid()
      modifies this`items
      ensures Valid()
      ensures items == Removed(old(items), index)
    {
      RemoveKeepsConsistent(items, index);
      items := Removed(items, index);
    }

    /**
     * `handleSubmit`: the projected lines go to `createOrder` as its `items`. On
     * success a new header is stored under a fresh id with exactly those lines and
     * the subtotal and tax the page displayed; on failure the outcomes are those
     * of `createOrder`.
     */
    method HandleSubmit(db: Database, form: Form, user: Option<string>)
      returns (res: Response, ghost orderId: int, ghost compensated: bool)
      requires db.Valid()
      modifies db`orders, db`orderItems
      ensures db.Valid()
      ensures res.Redirect? || res.Failure?
      ensures res.Redirect? ==>
        && (db.orders, orderId) == Tables.Insert(old(db.orders), OrderActions.OrderHeader(form, Some(Submitted(items)), user))
        && db.orderItems == Tables.InsertAll(old(db.orderItems), OrderActions.OrderLines(orderId, Submitted(items)))
        && db.orders.rows[orderId].totalAmount == CartTotal(items)
        && db.orders.rows[orderId].taxAmount == CartTax(items)
      ensures res.Failure? ==> db.orderItems == old(db.orderItems)
      ensures res.Failure? && compensated ==> db.orders.rows == old(db.orders.rows)
      ensures res.Failure? && !compensated ==>
        && (db.orders, orderId) == Tables.Insert(old(db.orders), OrderActions.OrderHeader(form, Some(Submitted(items)), user))
        && (forall k :: k in db.orderItems.rows ==> db.orderItems.rows[k].orderId != orderId)
      ensures items == [] ==> db.orderItems == old(db.orderItems) && (res.Redirect? || compensated)
    {
      var submitted := Submitted(items);
      res, orderId, compensated := OrderActions.CreateOrder(db, form, Some(submitted), user);
      SubmittedSubtotalMatchesCart(items);
    }
  }
}
