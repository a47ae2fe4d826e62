/** The shape of the persisted ProcessingRequest document and its products. */
module Records {
  import opened Wrappers

  /** One product: `serialNumber` is `parseInt` of the manifest cell, so it
      is `None` where JavaScript would hold NaN; it keeps the exact integer
      where JavaScript would round a value above 2^53 to a double. */
  datatype Product = Product(
    serialNumber: Option<int>,
    productName: string,
    inputImageUrls: seq<string>,
    outputImageUrls: seq<string>)

  datatype ProcessingRequest = ProcessingRequest(
    requestId: string,
    status: string,
    products: seq<Product>)

  /** The only status the upload handler ever writes. */
  const Implemented: string := "Implemented"
}
