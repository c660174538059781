/** The sales detail rows both the date dimension and the fact transform
    read. */
module SalesSource {
  import opened Wrappers

  /** A row of the sales file (`sls_*`). Dates are the raw yyyymmdd numbers,
      `None` for NaN; the customer id is already text (`astype(str)`). */
  datatype SalesRecord = SalesRecord(orderNum: string, prdKey: string, custId: string,
                                     orderDate: Option<int>, shipDate: Option<int>, dueDate: Option<int>,
                                     quantity: Option<int>, price: Option<int>, sales: Option<int>)
}
