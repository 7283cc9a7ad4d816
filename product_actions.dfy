/** The product server actions: create, update and delete a row of `products`. */
module ProductActions {
  import opened Wrappers
  import opened JsSemantics
  import opened Tables
  import opened Schema
  import opened Store

  const ProductsPath := "/oms/products"
  const DefaultUnit := "個"
  const DefaultLeadTimeDays := 7

  /**
   * The row built from the product form. `name` and `code` are copied as they
   * are; an empty description is null; an empty unit is 個; the unit price is
   * the submitted integer or 0; the lead time is the submitted integer unless it
   * is 0, blank, missing or not a number, in which case it is 7 days; the
   * product is active exactly when the checkbox sent "on".
   */
  function ProductData(form: Form): (r: ProductRow)
    ensures r.name == Get(form, "name") && r.code == Get(form, "code")
    ensures NullableField(form, "description", r.description)
    ensures ("unit" !in form || form["unit"] == "") ==> r.unit == DefaultUnit
    ensures ("unit" in form && form["unit"] != "") ==> r.unit == form["unit"]
    ensures Number(Get(form, "unit_price")).Finite? ==> r.unitPrice == Number(Get(form, "unit_price")).value
    ensures Number(Get(form, "unit_price")).NaN? ==> r.unitPrice == 0
    ensures Truthy(Number(Get(form, "lead_time_days"))) ==> r.leadTimeDays == Number(Get(form, "lead_time_days")).value
    ensures !Truthy(Number(Get(form, "lead_time_days"))) ==> r.leadTimeDays == DefaultLeadTimeDays
    ensures r.isActive <==> "is_active" in form && form["is_active"] == "on"
  {
    ProductRow(
      Get(form, "name"),
      Get(form, "code"),
      EmptyToNull(Get(form, "description")),
      OrString(Get(form, "unit"), DefaultUnit),
      OrNumber(Number(Get(form, "unit_price")), 0),
      OrNumber(Number(Get(form, "lead_time_days")), DefaultLeadTimeDays),
      Get(form, "is_active") == Some("on"))
  }

  /** A lead time of 0 cannot be stored: `|| 7` turns it into the default, like a missing one. */
  lemma ZeroLeadTimeBecomesDefault(form: Form)
    requires "lead_time_days" in form && form["lead_time_days"] == "0"
    ensures ProductData(form).leadTimeDays == DefaultLeadTimeDays
  {
    NumberOfDecimalString(0);
    assert DecimalString(0) == "0";
  }

  /** A positive lead time or any unit price typed as decimal digits is stored as that number. */
  lemma NumbersReadDecimal(form: Form, n: nat)
    ensures "unit_price" in form && form["unit_price"] == DecimalString(n) ==> ProductData(form).unitPrice == n
    ensures "lead_time_days" in form && form["lead_time_days"] == DecimalString(n) && n > 0 ==>
      ProductData(form).leadTimeDays == n
  {
    NumberOfDecimalString(n);
  }

  /** `createProduct`: insert the row and go back to the list, or report the database's message. */
  method CreateProduct(db: Database, form: Form) returns (res: Response)
    requires db.Valid()
    modifies db`products
    ensures db.Valid()
    ensures res.Redirect? || res.Failure?
    ensures res.Failure? ==> db.products == old(db.products)
    ensures res.Redirect? ==> res.path == ProductsPath && db.products == Tables.Insert(old(db.products), ProductData(form)).0
  {
    var error := StoreVerdict();
    if error.Some? {
      return Failure(error.value);
    }
    var inserted := Tables.Insert(db.products, ProductData(form));
    db.products := inserted.0;
    res := Redirect(ProductsPath);
  }

  /** `updateProduct`: every column of the row with that id is overwritten from the form. */
  method UpdateProduct(db: Database, id: int, form: Form) returns (res: Response)
    requires db.Valid()
    modifies db`products
    ensures db.Valid()
    ensures res.Redirect? || res.Failure?
    ensures res.Failure? ==> db.products == old(db.products)
    ensures res.Redirect? ==> res.path == ProductsPath && db.products == Tables.Update(old(db.products), id, ProductData(form))
  {
    var error := StoreVerdict();
    if error.Some? {
      return Failure(error.value);
    }
    db.products := Tables.Update(db.products, id, ProductData(form));
    res := Redirect(ProductsPath);
  }

  /** `deleteProduct`: removes the row; on success nothing is returned and no redirect happens. */
  method DeleteProduct(db: Database, id: int) returns (res: Response)
    requires db.Valid()
    modifies db`products
    ensures db.Valid()
    ensures res.Done? || res.Failure?
    ensures res.Failure? ==> db.products == old(db.products)
    ensures res.Done? ==> db.products == Tables.Delete(old(db.products), id)
  {
    var error := StoreVerdict();
    if error.Some? {
      return Failure(error.value);
    }
    db.products := Tables.Delete(db.products, id);
    res := Done;
  }
}
