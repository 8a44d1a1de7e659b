/**
 * The rows the pipeline reads and writes.
 *
 * Amounts are integer cents, so that `amount > 0` is exact; timestamps are
 * nanoseconds since 1970-01-01T00:00, the datetime64[ns] value that parsing
 * a `transaction_date` yields.
 */
module Tables {

  import opened Calendar

  /** A row of the source `customers` table. */
  datatype Customer = Customer(customerId: int, firstName: string, lastName: string, email: string)

  /** A row of the source `transactions` table; the merchant column is `merchant_details` there. */
  datatype Transaction = Transaction(
    transactionId: int,
    customerId: int,
    merchantDetails: string,
    amount: int,
    transactionDate: int)

  /** A merchant document of the document store, without its `_id`; also a `dim_merchant` row. */
  datatype Merchant = Merchant(merchantName: string, category: string)

  /** A `dim_customer` row before the warehouse assigns `customer_key`: PII only as digests. */
  datatype DimCustomerRow = DimCustomerRow(
    customerId: int,
    firstName: string,
    lastNameHash: string,
    emailHash: string)

  /** A `dim_date` row. */
  datatype DimDateRow = DimDateRow(
    dateKey: int,
    fullDate: Date,
    dayOfWeek: int,
    dayName: string,
    month: int,
    monthName: string,
    year: int)

  /** A transaction as `transform` hands it to `load`: natural keys plus its day and `date_key`. */
  datatype StagedFact = StagedFact(
    transactionId: int,
    customerId: int,
    merchantDetails: string,
    amount: int,
    transactionDate: int,
    dateOnly: int,
    dateKey: int)

  /** The `(customer_key, customer_id)` lookup read back from `dim_customer`. */
  datatype CustomerKeyRow = CustomerKeyRow(customerKey: int, customerId: int)

  /** The `(merchant_key, merchant_name)` lookup read back from `dim_merchant`. */
  datatype MerchantKeyRow = MerchantKeyRow(merchantKey: int, merchantName: string)

  /** A `fact_transactions` row: exactly the five loaded columns. */
  datatype FactTransaction = FactTransaction(
    transactionId: int,
    customerKey: int,
    merchantKey: int,
    dateKey: int,
    amount: int)
}
