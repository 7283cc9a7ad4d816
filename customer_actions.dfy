/** The customer server actions: create, update and delete a row of `customers`. */
module CustomerActions {
  import opened Wrappers
  import opened JsSemantics
  import opened Tables
  import opened Schema
  import opened Store

  const CustomersPath := "/oms/customers"

  /**
   * The row built from the customer form. `name` is copied as it is (null when
   * not submitted); the other text columns are null when left empty; the credit
   * limit is the submitted integer, and 0 when it is missing, blank or not a number.
   */
  function CustomerData(form: Form): (r: CustomerRow)
    ensures r.name == Get(form, "name")
    ensures NullableField(form, "code", r.code)
    ensures NullableField(form, "contact_person", r.contactPerson)
    ensures NullableField(form, "email", r.email)
    ensures NullableField(form, "phone", r.phone)
    ensures NullableField(form, "address", r.address)
    ensures NullableField(form, "notes", r.notes)
    ensures Number(Get(form, "credit_limit")).Finite? ==> r.creditLimit == Number(Get(form, "credit_limit")).value
    ensures Number(Get(form, "credit_limit")).NaN? ==> r.creditLimit == 0
  {
    CustomerRow(
      Get(form, "name"),
      EmptyToNull(Get(form, "code")),
      EmptyToNull(Get(form, "contact_person")),
      EmptyToNull(Get(form, "email")),
      EmptyToNull(Get(form, "phone")),
      EmptyToNull(Get(form, "address")),
      OrNumber(Number(Get(form, "credit_limit")), 0),
      EmptyToNull(Get(form, "notes")))
  }

  /** A credit limit typed as decimal digits is stored as that number; a missing one as 0. */
  lemma CreditLimitReadsDecimal(form: Form, n: nat)
    ensures "credit_limit" in form && form["credit_limit"] == DecimalString(n) ==> CustomerData(form).creditLimit == n
    ensures "credit_limit" !in form ==> CustomerData(form).creditLimit == 0
  {
    NumberOfDecimalString(n);
  }

  /** `createCustomer`: insert the row and go back to the list, or report the database's message. */
  method CreateCustomer(db: Database, form: Form) returns (res: Response)
    requires db.Valid()
    modifies db`customers
    ensures db.Valid()
    ensures res.Redirect? || res.Failure?
    ensures res.Failure? ==> db.customers == old(db.customers)
    ensures res.Redirect? ==> res.path == CustomersPath && db.customers == Tables.Insert(old(db.customers), CustomerData(form)).0
  {
    var error := StoreVerdict();
    if error.Some? {
      return Failure(error.value);
    }
    var inserted := Tables.Insert(db.customers, CustomerData(form));
    db.customers := inserted.0;
    res := Redirect(CustomersPath);
  }

  /** `updateCustomer`: every column of the row with that id is overwritten from the form. */
  method UpdateCustomer(db: Database, id: int, form: Form) returns (res: Response)
    requires db.Valid()
    modifies db`customers
    ensures db.Valid()
    ensures res.Redirect? || res.Failure?
    ensures res.Failure? ==> db.customers == old(db.customers)
    ensures res.Redirect? ==> res.path == CustomersPath && db.customers == Tables.Update(old(db.customers), id, CustomerData(form))
  {
    var error := StoreVerdict();
    if error.Some? {
      return Failure(error.value);
    }
    db.customers := Tables.Update(db.customers, id, CustomerData(form));
    res := Redirect(CustomersPath);
  }

  /** `deleteCustomer`: removes the row; on success nothing is returned and no redirect happens. */
  method DeleteCustomer(db: Database, id: int) returns (res: Response)
    requires db.Valid()
    modifies db`customers
    ensures db.Valid()
    ensures res.Done? || res.Failure?
    ensures res.Failure? ==> db.customers == old(db.customers)
    ensures res.Done? ==> db.customers == Tables.Delete(old(db.customers), id)
  {
    var error := StoreVerdict();
    if error.Some? {
      return Failure(error.value);
    }
    db.customers := Tables.Delete(db.customers, id);
    res := Done;
  }
}
