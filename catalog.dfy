/**
 * `ProductParser.parse_product` and `ProductParser.parse_products`: the catalog
 * element tree, the normalized product record derived from one `Product`
 * element, and the loop that derives one record per `Product` child of the root.
 *
 * Python raises an exception where a lookup yields `None` and the code goes on
 * using it; here every such point is an `Err` naming the exception class and the
 * attribute, child or detail involved, and the checks come in the order the
 * source evaluates them. `float()` is a parameter `toFloat` (None for a string
 * `float()` rejects) and `html.unescape` a parameter `unescape`; the record's
 * timestamps are not modelled.
 */
module Catalog {
  import opened Wrappers
  import opened Text
  import opened Dicts
  import opened Description

  // ---------------------------------------------------------------- element tree

  /** An ElementTree element: tag, attributes, text, children in document order. */
  datatype Element = Element(tag: string, attrib: map<string, string>, text: Option<string>,
                             children: seq<Element>)

  /** `e.attrib.get(name)`. */
  function Attr(e: Element, name: string): (r: Option<string>)
    ensures r.Some? <==> name in e.attrib
    ensures r.Some? ==> r.value == e.attrib[name]
  {
    if name in e.attrib then Some(e.attrib[name]) else None
  }

  /** The index of the first element of `cs` from `from` on whose tag is `tag`. */
  function FirstWithTag(cs: seq<Element>, tag: string, from: nat): (r: Option<nat>)
    requires from <= |cs|
    decreases |cs| - from
    ensures r.Some? ==> from <= r.value < |cs| && cs[r.value].tag == tag
                        && forall j :: from <= j < r.value ==> cs[j].tag != tag
    ensures r.None? ==> forall j :: from <= j < |cs| ==> cs[j].tag != tag
  {
    if from == |cs| then None
    else if cs[from].tag == tag then Some(from)
    else FirstWithTag(cs, tag, from + 1)
  }

  /** `e.find(tag)`: the first direct child with that tag, or None when there is none. */
  function Find(e: Element, tag: string): (r: Option<Element>)
    ensures r.Some? ==> r.value in e.children && r.value.tag == tag
    ensures r.Some? ==> exists i :: 0 <= i < |e.children| && r.value == e.children[i]
                                    && forall j :: 0 <= j < i ==> e.children[j].tag != tag
    ensures r.None? <==> forall j :: 0 <= j < |e.children| ==> e.children[j].tag != tag
  {
    match FirstWithTag(e.children, tag, 0)
    case Some(i) => Some(e.children[i])
    case None => None
  }

  /** The elements of `cs` whose tag is `tag`, in their order. */
  function WithTag(cs: seq<Element>, tag: string): (r: seq<Element>)
    ensures |r| <= |cs|
    ensures forall i :: 0 <= i < |r| ==> r[i].tag == tag
    ensures forall c :: c in r <==> c in cs && c.tag == tag
  {
    if cs == [] then []
    else (if cs[0].tag == tag then [cs[0]] else []) + WithTag(cs[1..], tag)
  }

  /** `e.findall(tag)`: the direct children with that tag, in document order. */
  function FindAll(e: Element, tag: string): seq<Element> {
    WithTag(e.children, tag)
  }

  /** Filtering a concatenation filters each part. */
  lemma {:induction false} WithTagAppend(a: seq<Element>, b: seq<Element>, tag: string)
    ensures WithTag(a + b, tag) == WithTag(a, tag) + WithTag(b, tag)
  {
    if a == [] {
      assert a + b == b;
    } else {
      assert (a + b)[0] == a[0];
      assert (a + b)[1..] == a[1..] + b;
      WithTagAppend(a[1..], b, tag);
    }
  }

  /** When every child carries the tag, `findall` returns all children in order. */
  lemma {:induction false} WithTagAll(cs: seq<Element>, tag: string)
    requires forall i :: 0 <= i < |cs| ==> cs[i].tag == tag
    ensures WithTag(cs, tag) == cs
  {
    if cs != [] {
      WithTagAll(cs[1..], tag);
      assert [cs[0]] + cs[1..] == cs;
    }
  }

  // ---------------------------------------------------------------- the record

  datatype Status = Active | Inactive

  /** The dictionary `parse_product` returns, without `createdAt` and `updatedAt`. */
  datatype Record = Record(
    stockCode: string,
    color: seq<string>,
    discountedPrice: real,
    images: seq<Option<string>>,
    isDiscounted: bool,
    name: string,
    price: real,
    priceUnit: string,
    productType: string,
    quantity: int,
    sampleSize: Option<string>,
    series: Option<string>,
    status: Status,
    fabric: Option<string>,
    modelMeasurements: Option<string>,
    productMeasurements: Option<string>)

  /** The exception `parse_product` raises, with the attribute, child or detail it concerns. */
  datatype Error = AttributeError(subject: string) | TypeError(subject: string) | ValueError(subject: string)

  /** The `details` mapping: keys and values may be None when a detail lacks the attribute. */
  type Details = map<Option<string>, Option<string>>

  /** The (Name, Value) attribute pairs of the detail elements, in order. */
  function DetailPairs(cs: seq<Element>): (ps: seq<(Option<string>, Option<string>)>)
    ensures |ps| == |cs|
    ensures forall i :: 0 <= i < |cs| ==> ps[i] == (Attr(cs[i], "Name"), Attr(cs[i], "Value"))
  {
    seq(|cs|, i requires 0 <= i < |cs| => (Attr(cs[i], "Name"), Attr(cs[i], "Value")))
  }

  /** The dict comprehension over the children of `ProductDetails`: the later detail wins. */
  function DetailsOf(detailsElement: Element): Details {
    LastWrite(DetailPairs(detailsElement.children))
  }

  /** `details.get(key, default)`. */
  function DetailGet(details: Details, key: string, default: string): (r: Option<string>)
    ensures Some(key) in details ==> r == details[Some(key)]
    ensures Some(key) !in details ==> r == Some(default)
  {
    if Some(key) in details then details[Some(key)] else Some(default)
  }

  /** `description_data.get(key)`: None for an absent key as for a None value. */
  function FieldGet(fields: Fields, key: string): (r: Option<string>)
    ensures key in fields ==> r == fields[key]
    ensures key !in fields ==> r.None?
  {
    if key in fields then fields[key] else None
  }

  /** `float(details.get(key, "0").replace(",", "."))`. */
  function ParsePrice(details: Details, key: string, toFloat: string -> Option<real>): (r: Result<real, Error>)
    ensures DetailGet(details, key, "0").None? ==> r == Err(AttributeError(key))
    ensures DetailGet(details, key, "0").Some? ==>
              match toFloat(ReplaceChar(DetailGet(details, key, "0").value, ',', '.'))
              case Some(x) => r == Ok(x)
              case None => r == Err(ValueError(key))
  {
    var s :- Required(DetailGet(details, key, "0"), AttributeError(key));
    match toFloat(ReplaceChar(s, ',', '.'))
    case Some(x) => Ok(x)
    case None => Err(ValueError(key))
  }

  /** `int(details.get("Quantity", "0"))`: int(None) is a TypeError, a non-numeral a ValueError. */
  function ParseQuantity(details: Details): (r: Result<int, Error>)
    ensures DetailGet(details, "Quantity", "0").None? ==> r == Err(TypeError("Quantity"))
    ensures DetailGet(details, "Quantity", "0").Some? ==>
              match ParseInt(DetailGet(details, "Quantity", "0").value)
              case Some(n) => r == Ok(n)
              case None => r == Err(ValueError("Quantity"))
  {
    var s :- Required(DetailGet(details, "Quantity", "0"), TypeError("Quantity"));
    match ParseInt(s)
    case Some(n) => Ok(n)
    case None => Err(ValueError("Quantity"))
  }

  /** The `images` comprehension: each child's `Path`, in child order. */
  function ImagePaths(imagesElement: Element): (r: seq<Option<string>>)
    ensures |r| == |imagesElement.children|
    ensures forall i :: 0 <= i < |r| ==> r[i] == Attr(imagesElement.children[i], "Path")
  {
    seq(|imagesElement.children|, i requires 0 <= i < |imagesElement.children|
                                      => Attr(imagesElement.children[i], "Path"))
  }

  /** `product_id.lower().split("-")[0] + "-" + color.lower()`. */
  function StockCode(productId: string, color: string): string {
    UpToFirst(Lower(productId), '-') + "-" + Lower(color)
  }

  /** `parse_product`: the record of one `Product` element, or the exception it raises first. */
  function ParseProduct(product: Element, toFloat: string -> Option<real>, unescape: string -> string)
    : (r: Result<Record, Error>)
    ensures r.Ok? ==> r.value.priceUnit == "USD" && |r.value.color| == 1
    ensures r.Ok? ==> (r.value.status == Active <==> r.value.quantity > 0)
    ensures r.Ok? ==> (r.value.isDiscounted <==> r.value.discountedPrice < r.value.price)
    // the record exists exactly when every lookup the source dereferences succeeds
    ensures r.Ok? <==>
              Attr(product, "Name").Some? && Find(product, "Images").Some?
              && Find(product, "ProductDetails").Some?
              && var details := DetailsOf(Find(product, "ProductDetails").value);
                 ParsePrice(details, "Price", toFloat).Ok?
                 && ParsePrice(details, "DiscountedPrice", toFloat).Ok?
                 && ParseQuantity(details).Ok?
                 && Find(product, "Description").Some?
                 && Attr(product, "ProductId").Some?
                 && DetailGet(details, "Color", "").Some?
                 && DetailGet(details, "ProductType", "").Some?
                 && DescriptionFields(Find(product, "Description").value.text, unescape).Some?
    // and then its fields come from those lookups
    ensures r.Ok? ==>
              var details := DetailsOf(Find(product, "ProductDetails").value);
              var fields := DescriptionFields(Find(product, "Description").value.text, unescape).value;
              && r.value.name == Capitalize(Attr(product, "Name").value)
              && r.value.images == ImagePaths(Find(product, "Images").value)
              && Ok(r.value.price) == ParsePrice(details, "Price", toFloat)
              && Ok(r.value.discountedPrice) == ParsePrice(details, "DiscountedPrice", toFloat)
              && Ok(r.value.quantity) == ParseQuantity(details)
              && r.value.stockCode == StockCode(Attr(product, "ProductId").value, DetailGet(details, "Color", "").value)
              && r.value.color == [Capitalize(DetailGet(details, "Color", "").value)]
              && r.value.productType == Capitalize(DetailGet(details, "ProductType", "").value)
              && r.value.series == DetailGet(details, "Series", "")
              && r.value.sampleSize == FieldGet(fields, SampleSize)
              && r.value.fabric == FieldGet(fields, "fabric")
              && r.value.modelMeasurements == FieldGet(fields, "model_measurements")
              && r.value.productMeasurements == FieldGet(fields, "product_measurements")
  {
    var name :- Required(Attr(product, "Name"), AttributeError("Name"));
    var imagesElement :- Required(Find(product, "Images"), TypeError("Images"));
    var detailsElement :- Required(Find(product, "ProductDetails"), TypeError("ProductDetails"));
    var details := DetailsOf(detailsElement);
    var price :- ParsePrice(details, "Price", toFloat);
    var discountedPrice :- ParsePrice(details, "DiscountedPrice", toFloat);
    var quantity :- ParseQuantity(details);
    var descriptionElement :- Required(Find(product, "Description"), AttributeError("Description"));
    var descriptionData := DescriptionFields(descriptionElement.text, unescape);
    var productId :- Required(Attr(product, "ProductId"), AttributeError("ProductId"));
    var color :- Required(DetailGet(details, "Color", ""), AttributeError("Color"));
    var productType :- Required(DetailGet(details, "ProductType", ""), AttributeError("ProductType"));
    var fields :- Required(descriptionData, AttributeError("Description"));
    Ok(Record(
      stockCode := StockCode(productId, color),
      color := [Capitalize(color)],
      discountedPrice := discountedPrice,
      images := ImagePaths(imagesElement),
      isDiscounted := discountedPrice < price,
      name := Capitalize(name),
      price := price,
      priceUnit := "USD",
      productType := Capitalize(productType),
      quantity := quantity,
      sampleSize := FieldGet(fields, SampleSize),
      series := DetailGet(details, "Series", ""),
      status := if quantity > 0 then Active else Inactive,
      fabric := FieldGet(fields, "fabric"),
      modelMeasurements := FieldGet(fields, "model_measurements"),
      productMeasurements := FieldGet(fields, "product_measurements")))
  }

  // ---------------------------------------------------------------- properties of one record

  /** A product whose Description child has no text or empty text has no record. */
  lemma EmptyDescriptionFails(product: Element, toFloat: string -> Option<real>, unescape: string -> string)
    requires Find(product, "Description").Some?
    requires Find(product, "Description").value.text in {None, Some("")}
    ensures ParseProduct(product, toFloat, unescape).Err?
  {
    DescriptionNone(Find(product, "Description").value.text, unescape);
  }

  /**
   * The first failing lookup among the name, the `Images` and `ProductDetails` children
   * and the three numeric details decides the exception.
   */
  lemma EarlyErrors(product: Element, toFloat: string -> Option<real>, unescape: string -> string)
    ensures var r := ParseProduct(product, toFloat, unescape);
            && (Attr(product, "Name").None? ==> r == Err(AttributeError("Name")))
            && (Attr(product, "Name").Some? && Find(product, "Images").None? ==> r == Err(TypeError("Images")))
            && ((Attr(product, "Name").Some? && Find(product, "Images").Some?
                 && Find(product, "ProductDetails").None?) ==> r == Err(TypeError("ProductDetails")))
  {
  }

  /** With the name, the children and the numbers in place, the numbers' own errors come first. */
  lemma NumberErrors(product: Element, toFloat: string -> Option<real>, unescape: string -> string)
    requires Attr(product, "Name").Some? && Find(product, "Images").Some?
    requires Find(product, "ProductDetails").Some?
    ensures var details := DetailsOf(Find(product, "ProductDetails").value);
            var r := ParseProduct(product, toFloat, unescape);
            var price := ParsePrice(details, "Price", toFloat);
            var discounted := ParsePrice(details, "DiscountedPrice", toFloat);
            && (price.Err? ==> r == Err(price.error))
            && (price.Ok? && discounted.Err? ==> r == Err(discounted.error))
            && (price.Ok? && discounted.Ok? && ParseQuantity(details).Err? ==> r == Err(ParseQuantity(details).error))
  {
  }

  /** After the numbers: the Description child, ProductId, Color, ProductType, then the description's own result. */
  lemma LateErrors(product: Element, toFloat: string -> Option<real>, unescape: string -> string)
    requires Attr(product, "Name").Some? && Find(product, "Images").Some?
    requires Find(product, "ProductDetails").Some?
    requires var details := DetailsOf(Find(product, "ProductDetails").value);
             ParsePrice(details, "Price", toFloat).Ok? && ParsePrice(details, "DiscountedPrice", toFloat).Ok?
             && ParseQuantity(details).Ok?
    ensures var details := DetailsOf(Find(product, "ProductDetails").value);
            var r := ParseProduct(product, toFloat, unescape);
            && (Find(product, "Description").None? ==> r == Err(AttributeError("Description")))
            && (Find(product, "Description").Some? && Attr(product, "ProductId").None?
                ==> r == Err(AttributeError("ProductId")))
            && ((Find(product, "Description").Some? && Attr(product, "ProductId").Some?
                 && DetailGet(details, "Color", "").None?) ==> r == Err(AttributeError("Color")))
            && ((Find(product, "Description").Some? && Attr(product, "ProductId").Some?
                 && DetailGet(details, "Color", "").Some? && DetailGet(details, "ProductType", "").None?)
                ==> r == Err(AttributeError("ProductType")))
            && ((Find(product, "Description").Some? && Attr(product, "ProductId").Some?
                 && DetailGet(details, "Color", "").Some? && DetailGet(details, "ProductType", "").Some?
                 && DescriptionFields(Find(product, "Description").value.text, unescape).None?)
                ==> r == Err(AttributeError("Description")))
  {
  }

  /** The record's images are the `Path` attributes of the `Images` children, one per child, in child order. */
  lemma RecordImages(product: Element, toFloat: string -> Option<real>, unescape: string -> string)
    requires ParseProduct(product, toFloat, unescape).Ok?
    ensures var cs := Find(product, "Images").value.children;
            var images := ParseProduct(product, toFloat, unescape).value.images;
            |images| == |cs| && forall i :: 0 <= i < |cs| ==> images[i] == Attr(cs[i], "Path")
  {
  }

  // ---------------------------------------------------------------- details

  /** A detail name's value is the Value of the last detail element carrying that Name. */
  lemma DetailLastWins(detailsElement: Element, key: string, default: string, i: nat)
    requires i < |detailsElement.children|
    requires Attr(detailsElement.children[i], "Name") == Some(key)
    requires forall j :: i < j < |detailsElement.children| ==> Attr(detailsElement.children[j], "Name") != Some(key)
    ensures DetailGet(DetailsOf(detailsElement), key, default) == Attr(detailsElement.children[i], "Value")
  {
    var ps := DetailPairs(detailsElement.children);
    LastWriteValue(ps, i);
  }

  /** A detail name that no detail element carries reads as the default. */
  lemma DetailAbsent(detailsElement: Element, key: string, default: string)
    requires forall j :: 0 <= j < |detailsElement.children| ==> Attr(detailsElement.children[j], "Name") != Some(key)
    ensures DetailGet(DetailsOf(detailsElement), key, default) == Some(default)
  {
    var ps := DetailPairs(detailsElement.children);
    assert forall i :: 0 <= i < |ps| ==> ps[i].0 != Some(key);
  }

  /** A parsed price comes from a present detail value, read by `float` with `,` as `.`. */
  lemma PriceOfDetail(details: Details, key: string, toFloat: string -> Option<real>, price: real)
    requires ParsePrice(details, key, toFloat) == Ok(price)
    ensures DetailGet(details, key, "0").Some?
            && toFloat(ReplaceChar(DetailGet(details, key, "0").value, ',', '.')) == Some(price)
  {
  }

  /** The price is the float of the last `Price` detail's Value, with `,` read as `.`. */
  lemma PriceFromLastDetail(product: Element, toFloat: string -> Option<real>, unescape: string -> string, i: nat)
    requires ParseProduct(product, toFloat, unescape).Ok?
    requires var cs := Find(product, "ProductDetails").value.children;
             i < |cs| && Attr(cs[i], "Name") == Some("Price")
             && forall j :: i < j < |cs| ==> Attr(cs[j], "Name") != Some("Price")
    ensures var cs := Find(product, "ProductDetails").value.children;
            Attr(cs[i], "Value").Some?
            && toFloat(ReplaceChar(Attr(cs[i], "Value").value, ',', '.')) == Some(ParseProduct(product, toFloat, unescape).value.price)
  {
    var detailsElement := Find(product, "ProductDetails").value;
    var details := DetailsOf(detailsElement);
    var price := ParseProduct(product, toFloat, unescape).value.price;
    assert ParsePrice(details, "Price", toFloat) == Ok(price);
    PriceOfDetail(details, "Price", toFloat, price);
    DetailLastWins(detailsElement, "Price", "0", i);
  }

  /** Without a `Quantity` detail the quantity is 0 and the product inactive. */
  lemma AbsentQuantityInactive(product: Element, toFloat: string -> Option<real>, unescape: string -> string)
    requires ParseProduct(product, toFloat, unescape).Ok?
    requires var cs := Find(product, "ProductDetails").value.children;
             forall j :: 0 <= j < |cs| ==> Attr(cs[j], "Name") != Some("Quantity")
    ensures ParseProduct(product, toFloat, unescape).value.quantity == 0
    ensures ParseProduct(product, toFloat, unescape).value.status == Inactive
  {
    DetailAbsent(Find(product, "ProductDetails").value, "Quantity", "0");
    assert IntToString(0) == "0";
    ParseIntRoundTrip(0);
  }

  /** Without a `Series` detail the series is the empty string; a `Series` detail without Value gives None. */
  lemma AbsentSeriesEmpty(product: Element, toFloat: string -> Option<real>, unescape: string -> string)
    requires ParseProduct(product, toFloat, unescape).Ok?
    requires var cs := Find(product, "ProductDetails").value.children;
             forall j :: 0 <= j < |cs| ==> Attr(cs[j], "Name") != Some("Series")
    ensures ParseProduct(product, toFloat, unescape).value.series == Some("")
  {
    DetailAbsent(Find(product, "ProductDetails").value, "Series", "");
  }

  // ---------------------------------------------------------------- stock code and names

  /** The stock code is the lower-cased ProductId up to its first `-`, a `-`, and the lower-cased colour; its first `-` is the separator. */
  lemma StockCodeShape(productId: string, color: string)
    ensures StockCode(productId, color) == Lower(UpToFirst(productId, '-')) + "-" + Lower(color)
    ensures UpToFirst(StockCode(productId, color), '-') == Lower(UpToFirst(productId, '-'))
  {
    LowerUpToFirstDash(productId);
    var head := UpToFirst(Lower(productId), '-');
    UpToFirstAppend(head, "-" + Lower(color), '-');
    assert head + "-" + Lower(color) == head + ("-" + Lower(color));
  }

  /** The stock code is already lower case. */
  lemma StockCodeLower(productId: string, color: string)
    ensures Lower(StockCode(productId, color)) == StockCode(productId, color)
  {
    var head := Lower(UpToFirst(productId, '-'));
    var tail := "-" + Lower(color);
    assert StockCode(productId, color) == head + tail by {
      StockCodeShape(productId, color);
    }
    assert Lower(head) == head by {
      LowerIdempotent(UpToFirst(productId, '-'));
    }
    assert Lower(tail) == tail by {
      LowerAppend("-", Lower(color));
      assert Lower("-") == "-" + Lower([]);
      LowerIdempotent(color);
    }
    LowerAppend(head, tail);
  }

  /** Without a `Color` detail the colour is empty and the stock code ends in `-`. */
  lemma AbsentColorStockCode(product: Element, toFloat: string -> Option<real>, unescape: string -> string)
    requires ParseProduct(product, toFloat, unescape).Ok?
    requires var cs := Find(product, "ProductDetails").value.children;
             forall j :: 0 <= j < |cs| ==> Attr(cs[j], "Name") != Some("Color")
    ensures var r := ParseProduct(product, toFloat, unescape).value;
            r.stockCode == Lower(UpToFirst(Attr(product, "ProductId").value, '-')) + "-" && r.color == [""]
  {
    DetailAbsent(Find(product, "ProductDetails").value, "Color", "");
    StockCodeShape(Attr(product, "ProductId").value, "");
  }

  /** The record's name, colour and product type are fixed points of `capitalize`, its stock code of `lower`. */
  lemma RecordNormalized(product: Element, toFloat: string -> Option<real>, unescape: string -> string)
    requires ParseProduct(product, toFloat, unescape).Ok?
    ensures var r := ParseProduct(product, toFloat, unescape).value;
            Capitalize(r.name) == r.name && Capitalize(r.color[0]) == r.color[0]
            && Capitalize(r.productType) == r.productType && Lower(r.stockCode) == r.stockCode
  {
    var details := DetailsOf(Find(product, "ProductDetails").value);
    CapitalizeIdempotent(Attr(product, "Name").value);
    CapitalizeIdempotent(DetailGet(details, "Color", "").value);
    CapitalizeIdempotent(DetailGet(details, "ProductType", "").value);
    StockCodeLower(Attr(product, "ProductId").value, DetailGet(details, "Color", "").value);
  }

  // ---------------------------------------------------------------- the catalog

  /** `self.parse_product` as a value. */
  function ProductParser(toFloat: string -> Option<real>, unescape: string -> string)
    : (parse: Element -> Result<Record, Error>)
    ensures forall p :: parse(p) == ParseProduct(p, toFloat, unescape)
  {
    p => ParseProduct(p, toFloat, unescape)
  }

  /** The records of `ps` in order, or the exception of the first product that fails. */
  function ParseAll(ps: seq<Element>, parse: Element -> Result<Record, Error>): (r: Result<seq<Record>, Error>)
    ensures r.Ok? <==> forall i :: 0 <= i < |ps| ==> parse(ps[i]).Ok?
    ensures r.Ok? ==> |r.value| == |ps| && forall i :: 0 <= i < |ps| ==> parse(ps[i]) == Ok(r.value[i])
    ensures r.Err? ==> exists i :: 0 <= i < |ps| && parse(ps[i]) == Err(r.error)
                                   && forall j :: 0 <= j < i ==> parse(ps[j]).Ok?
  {
    if ps == [] then Ok([])
    else
      var first :- parse(ps[0]);
      var rest :- ParseAll(ps[1..], parse);
      Ok([first] + rest)
  }

  /** The loop of `parse_products`: append each record, stop at the first exception. */
  method ParseEach(ps: seq<Element>, parse: Element -> Result<Record, Error>) returns (r: Result<seq<Record>, Error>)
    ensures r == ParseAll(ps, parse)
  {
    var records: seq<Record> := [];
    for i := 0 to |ps|
      invariant |records| == i
      invariant forall j :: 0 <= j < i ==> parse(ps[j]) == Ok(records[j])
    {
      var record := parse(ps[i]);
      if record.Err? {
        return Err(record.error);
      }
      records := records + [record.value];
    }
    var all := ParseAll(ps, parse);
    assert all.Ok? && |all.value| == |records|;
    assert forall j :: 0 <= j < |ps| ==> all.value[j] == records[j];
    assert all.value == records;
    assert all == Ok(records);
    return Ok(records);
  }

  /** `parse_products` on an already parsed root: one record per `Product` child, in document order. */
  method ParseProducts(root: Element, toFloat: string -> Option<real>, unescape: string -> string)
    returns (r: Result<seq<Record>, Error>)
    ensures r == ParseAll(FindAll(root, "Product"), ProductParser(toFloat, unescape))
  {
    r := ParseEach(FindAll(root, "Product"), ProductParser(toFloat, unescape));
  }
}
