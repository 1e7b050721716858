/** The request records bound from the JSON body. A C# `string` property
    may be null (`Option<string>`), and `items` may be null or empty, two
    cases the pipeline treats alike. */
module Models {
  import opened Wrappers

  /** The values of a C# `int`. */
  type Int32 = x: int | -0x8000_0000 <= x < 0x8000_0000

  predicate InInt64(x: int) {
    -0x8000_0000_0000_0000 <= x < 0x8000_0000_0000_0000
  }

  /** The values of a C# `long`. */
  type Int64 = x: int | -0x8000_0000_0000_0000 <= x < 0x8000_0000_0000_0000

  datatype ItemDetail = ItemDetail(
    partneritemref: Option<string>,
    name: Option<string>,
    qty: Int32,
    unitprice: Int64)

  datatype TransactionRequest = TransactionRequest(
    partnerkey: Option<string>,
    partnerrefno: Option<string>,
    partnerpassword: Option<string>,
    totalamount: Int64,
    items: Option<seq<ItemDetail>>,
    timestamp: Option<string>,
    sig: Option<string>)
}
