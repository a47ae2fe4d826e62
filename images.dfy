/**
 * The per-row image step: the name each compressed image is stored under,
 * the list `Promise.all` resolves to when each fetch-and-compress either
 * yields that image's public URL or `null`, and the `filter(Boolean)` that
 * turns it into a product's `outputImageUrls`.
 *
 * The network fetch and the JPEG re-encode are not modelled: `imageOk(row, i)`
 * says whether they succeed for token `i` of row `row`.
 */
module Images {
  import opened Wrappers
  import opened Text
  import opened Records

  /** `${productName}_${index + 1}.jpg`, for the 0-based token index. */
  function StoredName(productName: string, index: nat): string {
    productName + "_" + Decimal(index + 1) + ".jpg"
  }

  /** `http://localhost:${PORT}/compressed/${productName}_${index + 1}.jpg`;
      `port` is the text of the PORT environment variable. */
  function PublicUrl(port: string, productName: string, index: nat): string {
    "http://localhost:" + port + "/compressed/" + StoredName(productName, index)
  }

  /** Within one product, different tokens are stored under different names. */
  lemma {:induction false} StoredNameInjective(productName: string, i: nat, j: nat)
    requires StoredName(productName, i) == StoredName(productName, j)
    ensures i == j
  {
    var di, dj := Decimal(i + 1), Decimal(j + 1);
    var n := |productName| + 1;
    assert StoredName(productName, i)[n..] == di + ".jpg";
    assert StoredName(productName, j)[n..] == dj + ".jpg";
    assert |di| == |dj|;
    assert di == (di + ".jpg")[..|di|];
    assert dj == (dj + ".jpg")[..|dj|];
    DecimalInjective(i + 1, j + 1);
  }

  /** Within one product, different tokens get different public URLs. */
  lemma {:induction false} PublicUrlInjective(port: string, productName: string, i: nat, j: nat)
    requires PublicUrl(port, productName, i) == PublicUrl(port, productName, j)
    ensures i == j
  {
    var n := |"http://localhost:" + port + "/compressed/"|;
    assert PublicUrl(port, productName, i)[n..] == StoredName(productName, i);
    assert PublicUrl(port, productName, j)[n..] == StoredName(productName, j);
    StoredNameInjective(productName, i, j);
  }

  /** What the `Promise.all` over a row's `count` tokens resolves to: slot `i`
      is the public URL of image `i` when it was fetched and compressed,
      and `null` (here `None`) when that failed. */
  function CompressAll(productName: string, count: nat, rowIndex: nat, imageOk: (nat, nat) -> bool, port: string)
    : seq<Option<string>>
  {
    seq(count, (i: nat) => if imageOk(rowIndex, i) then Some(PublicUrl(port, productName, i)) else None)
  }

  /** `.filter(Boolean)`: keeps the slots holding a non-empty string. */
  function FilterBoolean(xs: seq<Option<string>>): seq<string> {
    if xs == [] then []
    else
      var last := xs[|xs| - 1];
      FilterBoolean(xs[..|xs| - 1]) + (if last.Some? && last.value != "" then [last.value] else [])
  }

  /** The indices of the row's images that succeeded, in increasing order. */
  function Successes(rowIndex: nat, count: nat, imageOk: (nat, nat) -> bool): (r: seq<nat>)
    ensures |r| <= count
    ensures forall k :: 0 <= k < |r| ==> r[k] < count && imageOk(rowIndex, r[k])
  {
    if count == 0 then []
    else Successes(rowIndex, count - 1, imageOk) + (if imageOk(rowIndex, count - 1) then [count - 1] else [])
  }

  /** The successful indices are listed in increasing order, and every
      successful index below `count` is listed. */
  lemma {:induction false} SuccessesExactly(rowIndex: nat, count: nat, imageOk: (nat, nat) -> bool)
    ensures var r := Successes(rowIndex, count, imageOk);
      && (forall j, k :: 0 <= j < k < |r| ==> r[j] < r[k])
      && (forall i :: 0 <= i < count && imageOk(rowIndex, i) ==> i in r)
  {
    if count > 0 {
      SuccessesExactly(rowIndex, count - 1, imageOk);
    }
  }

  /** Every image of the row is kept exactly when every image succeeded. */
  lemma {:induction false} AllSucceededIff(rowIndex: nat, count: nat, imageOk: (nat, nat) -> bool)
    ensures |Successes(rowIndex, count, imageOk)| == count <==> forall i :: 0 <= i < count ==> imageOk(rowIndex, i)
  {
    if count > 0 {
      AllSucceededIff(rowIndex, count - 1, imageOk);
      var before := Successes(rowIndex, count - 1, imageOk);
      var extra: seq<nat> := if imageOk(rowIndex, count - 1) then [count - 1] else [];
      assert Successes(rowIndex, count, imageOk) == before + extra;
      assert |Successes(rowIndex, count, imageOk)| == |before| + |extra|;
      assert |before| <= count - 1;
    }
  }

  /** The public URLs of the images at the given indices, in that order. */
  function UrlsAt(port: string, productName: string, indices: seq<nat>): seq<string> {
    seq(|indices|, k requires 0 <= k < |indices| => PublicUrl(port, productName, indices[k]))
  }

  lemma UrlsAtAppend(port: string, productName: string, a: seq<nat>, b: seq<nat>)
    ensures UrlsAt(port, productName, a + b) == UrlsAt(port, productName, a) + UrlsAt(port, productName, b)
  {
  }

  /** `filter(Boolean)` drops exactly the failed slots: no public URL is
      empty, so what remains is the URLs of the successful images in
      token order. */
  lemma {:induction false} OutputsAreSuccesses(productName: string, count: nat, rowIndex: nat,
                                               imageOk: (nat, nat) -> bool, port: string)
    ensures FilterBoolean(CompressAll(productName, count, rowIndex, imageOk, port))
         == UrlsAt(port, productName, Successes(rowIndex, count, imageOk))
  {
    if count > 0 {
      var xs := CompressAll(productName, count, rowIndex, imageOk, port);
      assert xs[..count - 1] == CompressAll(productName, count - 1, rowIndex, imageOk, port);
      OutputsAreSuccesses(productName, count - 1, rowIndex, imageOk, port);
      var before := Successes(rowIndex, count - 1, imageOk);
      var extra: seq<nat> := if imageOk(rowIndex, count - 1) then [count - 1] else [];
      UrlsAtAppend(port, productName, before, extra);
      assert |PublicUrl(port, productName, count - 1)| > 0;
    }
  }

  /** The product a valid row becomes. */
  function MakeProduct(serial: string, productName: string, imageUrls: seq<string>, rowIndex: nat,
                       imageOk: (nat, nat) -> bool, port: string): Product
  {
    Product(ParseInt(serial), productName, imageUrls,
            FilterBoolean(CompressAll(productName, |imageUrls|, rowIndex, imageOk, port)))
  }

  /** A product's output list is the order-preserving list of its successful
      images' URLs, never longer than its input list, and as long only when
      no image failed. */
  lemma {:induction false} ProductOutputs(serial: string, productName: string, imageUrls: seq<string>, rowIndex: nat,
                                          imageOk: (nat, nat) -> bool, port: string)
    ensures var p := MakeProduct(serial, productName, imageUrls, rowIndex, imageOk, port);
      && p.serialNumber == ParseInt(serial) && p.productName == productName
      && p.inputImageUrls == imageUrls
      && p.outputImageUrls == UrlsAt(port, productName, Successes(rowIndex, |imageUrls|, imageOk))
      && (forall j, k :: 0 <= j < k < |Successes(rowIndex, |imageUrls|, imageOk)| ==>
            Successes(rowIndex, |imageUrls|, imageOk)[j] < Successes(rowIndex, |imageUrls|, imageOk)[k])
      && (forall i :: 0 <= i < |imageUrls| && imageOk(rowIndex, i) ==> i in Successes(rowIndex, |imageUrls|, imageOk))
      && |p.outputImageUrls| <= |imageUrls|
      && (|p.outputImageUrls| == |imageUrls| <==> forall i :: 0 <= i < |imageUrls| ==> imageOk(rowIndex, i))
  {
    OutputsAreSuccesses(productName, |imageUrls|, rowIndex, imageOk, port);
    AllSucceededIff(rowIndex, |imageUrls|, imageOk);
    SuccessesExactly(rowIndex, |imageUrls|, imageOk);
  }

  /** Storage is keyed by product name and token index alone: two products
      with the same name whose `i`-th images both succeed list the same
      public URL, so the later compressed file replaces the earlier one. */
  lemma {:induction false} SharedNameSharesStorage(serialA: string, serialB: string, productName: string,
                                                   urlsA: seq<string>, urlsB: seq<string>, rowA: nat, rowB: nat,
                                                   imageOk: (nat, nat) -> bool, port: string, i: nat)
    requires i < |urlsA| && imageOk(rowA, i)
    requires i < |urlsB| && imageOk(rowB, i)
    ensures PublicUrl(port, productName, i) in MakeProduct(serialA, productName, urlsA, rowA, imageOk, port).outputImageUrls
    ensures PublicUrl(port, productName, i) in MakeProduct(serialB, productName, urlsB, rowB, imageOk, port).outputImageUrls
  {
    ProductOutputs(serialA, productName, urlsA, rowA, imageOk, port);
    ProductOutputs(serialB, productName, urlsB, rowB, imageOk, port);
    OutputListed(port, productName, Successes(rowA, |urlsA|, imageOk), i);
    OutputListed(port, productName, Successes(rowB, |urlsB|, imageOk), i);
  }

  lemma OutputListed(port: string, productName: string, indices: seq<nat>, i: nat)
    requires i in indices
    ensures PublicUrl(port, productName, i) in UrlsAt(port, productName, indices)
  {
    var j :| 0 <= j < |indices| && indices[j] == i;
    assert UrlsAt(port, productName, indices)[j] == PublicUrl(port, productName, i);
  }

  /** Three images of which the second fails: two outputs, for the first
      and the third. */
  lemma {:induction false} SecondOfThreeFails(serial: string, productName: string, imageUrls: seq<string>, rowIndex: nat,
                                              imageOk: (nat, nat) -> bool, port: string)
    requires |imageUrls| == 3
    requires imageOk(rowIndex, 0) && !imageOk(rowIndex, 1) && imageOk(rowIndex, 2)
    ensures MakeProduct(serial, productName, imageUrls, rowIndex, imageOk, port).outputImageUrls
         == [PublicUrl(port, productName, 0), PublicUrl(port, productName, 2)]
  {
    var s0 := Successes(rowIndex, 0, imageOk);
    assert s0 == [];
    var s1 := Successes(rowIndex, 1, imageOk);
    assert s1 == s0 + [0];
    var s2 := Successes(rowIndex, 2, imageOk);
    assert s2 == s1;
    var s3 := Successes(rowIndex, 3, imageOk);
    assert s3 == s2 + [2];
    ProductOutputs(serial, productName, imageUrls, rowIndex, imageOk, port);
    var u := UrlsAt(port, productName, [0, 2]);
    assert u == [PublicUrl(port, productName, 0), PublicUrl(port, productName, 2)];
  }

  /** The stored names count from one: the first and third tokens are
      stored as `_1.jpg` and `_3.jpg`. */
  lemma {:induction false} NamesCountFromOne(productName: string)
    ensures StoredName(productName, 0) == productName + "_1.jpg"
    ensures StoredName(productName, 2) == productName + "_3.jpg"
  {
    assert Decimal(1) == "1";
    assert Decimal(3) == "3";
  }
}
