# LoncaCase product parser — a Dafny model

This project models `ProductParser` from `lonca_case.py`. The parser turns a supplier's XML product
catalog into normalized product records. It has three parts.

- **Description extraction** (`description_info`). The HTML description of a product is scanned with
  two regular expressions. The first finds `<li><strong>Label:</strong> value` entries; the closing
  `</li>` is optional. Each label and value is stripped. The label is translated to a field name by the
  first prefix match in a four-entry Turkish label table; a label that matches no entry is kept as it is.
  The pairs are written into a dictionary in order, so later entries win. Then the content of the last
  `<strong>…</strong>` is written under `sample_size`, unless it equals the table's last label,
  `Model Ölçüleri`.
- **Record derivation** (`parse_product`). One `Product` element gives one record:
  - its name and product type are capitalized;
  - its image paths are kept in child order;
  - its details are collapsed into a mapping in which the later detail wins;
  - its prices and quantity are converted from strings;
  - `is_discounted` and `status` are derived from them;
  - its stock code is built from the ProductId and the colour;
  - four description fields are copied in.
  Each Python exception the function can raise is an `Err` naming the exception class. The errors are
  checked in the order the source evaluates them.
- **Catalog iteration** (`parse_products`). One record per `Product` child of the root, in document
  order, or the first product's exception.

Modules:

| file | module | contents |
|---|---|---|
| `wrappers.dfy` | `Wrappers` | `Option`, `Result` (with `:-`), `Required` |
| `text.dfy` | `Text` | `strip`, `lower`, `capitalize`, `split("-")[0]`, `replace`, `startswith` and `int()` over `seq<char>` |
| `dicts.dfy` | `Dicts` | dictionaries built by writing pairs in order (`LastWrite`) |
| `patterns.dfy` | `Patterns` | the two `re.findall` calls as scanners; rendered fragments and their read-back |
| `description.dfy` | `Description` | the label table and translation, `DescriptionFields` and `FieldsOf` (the functions) and `DescriptionInfo` (the loop) |
| `catalog.dfy` | `Catalog` | the element tree, the record, `ParseProduct`, and the `parse_products` loop |

Abstractions:

- **Element tree.** The element tree is a datatype: tag, attribute map, optional text, children. The
  model starts from an already parsed root.
- **`float()`.** This is the parameter `toFloat: string -> Option<real>`, where `None` stands for the
  `ValueError` that `float()` raises. Prices are reals, so `is_discounted` is `<` on reals.
- **`int()`.** This is written out: surrounding whitespace, an optional sign, then ASCII digits with
  single underscores between digits. Anything else is a `ValueError`, and `int(None)` is a `TypeError`.
  The whitespace `int()` skips is the `str.isspace` set without the separators U+001C to U+001F.
  CPython turns only non-ASCII whitespace into spaces before parsing, and it skips only the six ASCII
  whitespace characters, so those four separators make the number invalid.
- **Regular expressions.** Each is a scanner over the suffix of the text still to be searched. They
  follow Python's lazy `(.*?)`: the shortest length is tried first. `.` does not match a newline, `\s`
  is Unicode whitespace, and `$` matches at the end of the text or before a final newline.
- **`html.unescape`.** This is the parameter `unescape: string -> string`. As in the source, it is
  applied after the test for an empty description (`lonca_case.py:12-15`), so a description that
  unescapes to the empty text still gives a result, one with `sample_size` None.
- **`sample_size` and the colon.** For
  `<li><strong>Ürün Bilgisi:</strong> …</li><li><strong>Kumaş Bilgisi:</strong> …</li>` one might
  expect no `sample_size`. The code writes `Kumaş Bilgisi:`, because the captured strong content keeps
  its colon (`lonca_case.py:42-45`) and so never equals `Model Ölçüleri`.
  `Description.InfoAndFabric` states this result, and `Description.ColonDefeatsSizeMarker` gives the
  reason.

## Model

| member | source | states |
|---|---|---|
| Text.Trim | lonca_case.py:28-29 | the stripped string neither starts nor ends with whitespace |
| Text.TrimInfix | lonca_case.py:28-29 | strip keeps one contiguous piece of its input and removes only whitespace before and after it |
| Text.TrimSurrounded | lonca_case.py:28-29 | whitespace around a core whose ends are not whitespace strips to exactly that core (converse of TrimInfix) |
| Text.TrimStartDrops | lonca_case.py:28-29 | everything `lstrip` removes is whitespace |
| Text.TrimEndDrops | lonca_case.py:28-29 | everything `rstrip` removes is whitespace |
| Text.LowerIdempotent | lonca_case.py:71 | lower-casing twice is lower-casing once |
| Text.LowerAppend | lonca_case.py:71 | `lower` distributes over concatenation |
| Text.CapitalizeIdempotent | lonca_case.py:54 | capitalizing twice is capitalizing once |
| Text.UpToFirst | lonca_case.py:71 | `split(sep)[0]` is a prefix free of `sep`, followed in the input by `sep` or by nothing |
| Text.UpToFirstAppend | lonca_case.py:71 | a prefix free of `sep` passes through `split(sep)[0]` unchanged |
| Text.LowerUpToFirstDash | lonca_case.py:71 | lower-casing and cutting at the first `-` commute |
| Text.ReplaceChar | lonca_case.py:62-63 | same length; every `,` becomes `.` and every other character is kept |
| Text.ParseIntRoundTrip | lonca_case.py:67 | `int(str(n)) == n` for every integer, without the digit limit of Python 3.11 (see Left out) |
| Text.ParseNatRoundTrip | lonca_case.py:67 | `int(str(n)) == n` for every non-negative integer, without that digit limit |
| Text.ParseIntBlank | lonca_case.py:67 | `int` of an empty or all-whitespace string raises |
| Text.ParseIntSkips | lonca_case.py:67 | `int` skips exactly its whitespace around the number and reads what lies between |
| Text.SeparatorNotSkipped | lonca_case.py:67 | a number that starts or ends with one of U+001C to U+001F raises, though `str.isspace` accepts those characters |
| Dicts.LastWrite | lonca_case.py:26-38 | the keys of the built dictionary are exactly the keys written |
| Dicts.LastWriteValue | lonca_case.py:38 | a key holds the value of its last write |
| Dicts.LastWriteSource | lonca_case.py:38 | every stored value comes from a write of its key after which that key is not written again |
| Dicts.LastWritePrefix | lonca_case.py:38 | writing the next pair updates the dictionary of the pairs before it |
| Patterns.AfterColon | lonca_case.py:24 | a match it reports is whitespace then the closing tag, and it hands on the rest |
| Patterns.AfterColonComplete | lonca_case.py:24 | `\s*</strong>` matches if and only if the text is whitespace followed by the closing tag |
| Patterns.ColonCloseAtStrip | lonca_case.py:24 | the whitespace before the closing tag is exactly what `lstrip` removes, so the match is unique |
| Patterns.ValueFrom | lonca_case.py:24 | a value it reports is the shortest newline-free prefix followed by `</li>`, by the end, or by a final newline |
| Patterns.ValueFromComplete | lonca_case.py:24 | the value scan fails if and only if a newline that is not final comes before any `</li>` |
| Patterns.StrongFrom | lonca_case.py:42 | a strong group it reports is the shortest newline-free content followed by `</strong>` |
| Patterns.StrongFromComplete | lonca_case.py:42 | the scan fails if and only if every later `</strong>` has a newline before it |
| Patterns.ValueOfPlain | lonca_case.py:24 | a plain value is read back whole, with or without `</li>` |
| Patterns.LabelOfPlain | lonca_case.py:24 | a plain label, a colon and `</strong>` are read back as the label group |
| Patterns.LabelFromFound | lonca_case.py:24 | a label group it reports is the shortest newline-free prefix after which the colon, `\s*</strong>` and the value group match |
| Patterns.LabelFromComplete | lonca_case.py:24 | the label group fails if and only if no newline-free label length is followed by the rest of the item pattern |
| Patterns.AfterLabelFound | lonca_case.py:24 | after a reported label come a colon and a value without a newline |
| Patterns.ItemAtFound | lonca_case.py:24 | an item match starts with `<li><strong>`, its label and a colon, and neither group has a newline |
| Patterns.ItemMatchesNoNewline | lonca_case.py:24 | no label or value that the item `findall` returns has a newline |
| Patterns.ItemMatchesRender | lonca_case.py:24 | the item matches of a rendered fragment are its (label, value) entries, in order, the last one possibly unclosed |
| Patterns.StrongContentsRender | lonca_case.py:42 | the strong contents of a rendered fragment are its labels, each with its colon, in order |
| Description.TranslateFirstMatch | lonca_case.py:33-36 | a label goes to the field of the first table entry, in table order, that prefixes it |
| Description.TranslatePassThrough | lonca_case.py:33-36 | a label that no table entry prefixes is kept as its own key |
| Description.KeyMapPrefixFree | lonca_case.py:17-22 | no label starts with two table entries |
| Description.TranslateMatch | lonca_case.py:17-36 | any table entry that prefixes a label decides its field |
| Description.SuffixedLabel | lonca_case.py:32-36 | `Model Ölçüleri - Beden S` goes to `model_measurements` |
| Description.DescriptionInfo | lonca_case.py:11-49 | the loop and the `sample_size` write produce exactly DescriptionFields of the input |
| Description.DescriptionNone | lonca_case.py:12-13 | the result is None if and only if the description is None or empty |
| Description.UnescapedEmpty | lonca_case.py:12-15 | a non-empty description that unescapes to nothing gives only `sample_size` None |
| Description.SampleSizeRule | lonca_case.py:42-45 | `sample_size` holds the last strong content, or None, unless that content is `Model Ölçüleri`; in that case nothing is added |
| Description.DescriptionKeys | lonca_case.py:26-45 | the keys are exactly the translated labels of all matches, plus `sample_size` when the rule writes it |
| Description.DescriptionLastWins | lonca_case.py:26-38 | a key holds the stripped value of the last match whose label translates to it |
| Description.ColonDefeatsSizeMarker | lonca_case.py:42-44 | a captured label with its colon never equals the size marker |
| Description.DescriptionOfRender | lonca_case.py:24-45 | a fragment of plain entries yields its translated, stripped entries, with the last write winning, and `sample_size` set to the last label with its colon |
| Description.OneEntry | lonca_case.py:24-45 | a single entry, closed or not, yields its field and its label as `sample_size` |
| Description.TwoEntries | lonca_case.py:24-45 | two entries yield both fields (the second wins on a shared field) and the second label as `sample_size` |
| Description.InfoAndFabric | lonca_case.py:17-45 | the `Ürün Bilgisi` then `Kumaş Bilgisi` fragment yields `product_info`, `fabric` and `sample_size` = `Kumaş Bilgisi:` |
| Description.UnclosedModelMeasurements | lonca_case.py:24 | a final `Model Ölçüleri` entry without `</li>` still yields `model_measurements` |
| Catalog.Find | lonca_case.py:56 | `find` gives the first child with the tag, and None if and only if no child has it |
| Catalog.WithTag | lonca_case.py:101 | `findall` keeps exactly the children with the tag |
| Catalog.WithTagAll | lonca_case.py:101 | when every child has the tag, `findall` returns them all, in order |
| Catalog.ParsePrice | lonca_case.py:62-63 | a detail without Value raises AttributeError; a string `float` rejects raises ValueError; otherwise the float of the string with `,` read as `.` |
| Catalog.ParseQuantity | lonca_case.py:67 | `int(None)` raises TypeError, a non-numeral raises ValueError, otherwise the integer |
| Catalog.ParseProduct | lonca_case.py:52-93 | a record exists exactly when every lookup the code goes on using succeeds; each field comes from its lookup; price unit `USD`; `status` is Active iff quantity > 0; `is_discounted` iff the discounted price is below the price |
| Catalog.EmptyDescriptionFails | lonca_case.py:69-85 | a product whose Description text is None or empty fails |
| Catalog.EarlyErrors | lonca_case.py:54-60 | a missing Name raises AttributeError, and a missing `Images` or `ProductDetails` child raises TypeError, in that order |
| Catalog.NumberErrors | lonca_case.py:62-67 | after them come the errors of Price, DiscountedPrice and Quantity, in that order |
| Catalog.LateErrors | lonca_case.py:69-85 | then a missing Description child, then ProductId, Color, ProductType, then an empty description, in that order |
| Catalog.RecordImages | lonca_case.py:56 | the record's images are the `Path` attributes of the `Images` children, one per child, in child order |
| Catalog.DetailLastWins | lonca_case.py:57-60 | a detail name reads as the Value of the last detail carrying that Name |
| Catalog.DetailAbsent | lonca_case.py:62-86 | a detail name that no detail carries reads as the default |
| Catalog.PriceFromLastDetail | lonca_case.py:62 | the price is the float of the last `Price` detail's Value with `,` read as `.` |
| Catalog.AbsentQuantityInactive | lonca_case.py:67 | without a Quantity detail the quantity is 0 and the status Inactive |
| Catalog.AbsentSeriesEmpty | lonca_case.py:86 | without a Series detail the series is the empty string |
| Catalog.StockCodeShape | lonca_case.py:71 | the stock code is the lower-cased ProductId up to its first `-`, a `-`, and the lower-cased colour; its own first `-` is that separator |
| Catalog.StockCodeLower | lonca_case.py:71 | the stock code is already lower case |
| Catalog.AbsentColorStockCode | lonca_case.py:71-76 | without a Color detail the stock code ends in `-` and the colour list is `[""]` |
| Catalog.RecordNormalized | lonca_case.py:74-93 | name, colour and product type are fixed points of `capitalize`; the stock code is a fixed point of `lower` |
| Catalog.ParseAll | lonca_case.py:100-103 | all records exactly when every product parses, one per product and in order; otherwise the first failing product's exception |
| Catalog.ParseEach | lonca_case.py:100-103 | the append loop computes ParseAll |
| Catalog.ParseProducts | lonca_case.py:95-103 | one record per `Product` child of the root, in document order, or the first exception |

## Left out

- `ET.parse` and the `ParseError` handler (`lonca_case.py:97-98`, `104-105`): file I/O and a library
  XML parser. The model starts from an already parsed `Element` root. The handler's path, which prints
  and returns None, is not modelled.
- `createdAt` and `updatedAt` (`lonca_case.py:91-92`): wall-clock timestamps. `Record` omits them.
- `DatabaseConnection` and the `__main__` block: database I/O and glue code.
- Catalog.ParsePrice: `float()` is the parameter `toFloat`, so the model does not fix which strings
  `float` accepts, and it does not model NaN or infinities. With NaN, `<` is not a total order.
- Text.ParseInt: Python 3.11 and later raise `ValueError` when converting between `int` and `str`
  beyond 4300 digits. The model has no such limit, so Text.ParseIntRoundTrip and
  Text.ParseNatRoundTrip hold only below it or with the limit switched off.
- Text.ParseInt: only ASCII digits are read. Python's `int()` also accepts other Unicode decimal digits.
- Text.LowerChar: the lower-case mapping covers ASCII, Latin-1 and the Turkish letters `Ğ`, `Ş`, `İ`.
  Any other character maps to itself, which is not Python's mapping for Greek, Cyrillic and so on.
- Text.TitleChar: the title-case mapping covers the same letters. Any other character maps to itself.
- Python exceptions are `Err` values of `Catalog.Error`. Only the exception class and the attribute,
  child or detail involved are kept, not the message.
- The worked examples in `Description` are stated over the table's own labels and any plain values.
  No concrete value text is spelled out.
