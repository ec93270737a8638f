/** The catalog loader: the `Product` record, its derived image name, the
    `+`-separated list fields, and the mapping of already-tokenized CSV rows
    to products. */
module Products {
  import opened Text

  datatype Result<T, E> = Ok(value: T) | Err(error: E)

  /** One catalog entry; never changed after loading. */
  datatype Product = Product(
    name: string,
    url: string,
    categories: seq<string>,
    description: string,
    tags: seq<string>)

  /** Separator of the `categories` and `tags` columns. */
  const ListSep: char := '+'

  /** Number of columns a data row must have. */
  const FieldCount: nat := 5

  /** The `image_name` property: the hex digest of the URL. The digest
      (SHA-1 of the UTF-8 bytes in the source) is a parameter. */
  function ImageName(p: Product, digest: string -> string): string
  {
    digest(p.url)
  }

  /** `parse_list`: one item per `+`-separated segment, in order, each
      segment stripped of surrounding whitespace. */
  function ParseList(s: string): (items: seq<string>)
    ensures |items| == Count(s, ListSep) + 1
    ensures forall i :: 0 <= i < |items| ==> Stripped(items[i]) && ListSep !in items[i]
  {
    var segments := Split(s, ListSep);
    seq(|segments|, i requires 0 <= i < |segments| => Strip(segments[i]))
  }

  /** Item `i` of `parse_list(s)` is segment `i` of `s.split('+')` with
      surrounding whitespace removed; joining the segments gives `s` back. */
  lemma ParseListSegments(s: string)
    ensures Join(Split(s, ListSep), ListSep) == s
    ensures forall i :: 0 <= i < |ParseList(s)| ==> IsTrimOf(ParseList(s)[i], Split(s, ListSep)[i])
  {
    JoinSplit(s, ListSep);
    var segments := Split(s, ListSep);
    forall i | 0 <= i < |segments|
      ensures IsTrimOf(ParseList(s)[i], segments[i])
    {
      assert ParseList(s)[i] == Strip(segments[i]);
    }
  }

  lemma StripStripped(s: string)
    requires Stripped(s)
    ensures Strip(s) == s
  {
    assert s == s[0..|s|] && SpaceOutside(s, 0, |s|);
    assert IsTrimOf(s, s);
    TrimIsUnique(s, Strip(s), s);
  }

  /** `parse_list` recovers a list of stripped, `+`-free items from their
      `+`-joined form. */
  lemma ParseJoinedList(items: seq<string>)
    requires |items| >= 1
    requires forall i :: 0 <= i < |items| ==> Stripped(items[i]) && ListSep !in items[i]
    ensures ParseList(Join(items, ListSep)) == items
  {
    SplitJoin(items, ListSep);
    var r := ParseList(Join(items, ListSep));
    forall i | 0 <= i < |items|
      ensures r[i] == items[i]
    {
      StripStripped(items[i]);
    }
  }

  /** `product` is what the loader builds from `row`: fields by position,
      the two list columns parsed, columns past the fifth ignored. */
  predicate IsProductOf(product: Product, row: seq<string>)
  {
    && |row| >= FieldCount
    && product.name == row[0]
    && product.url == row[1]
    && product.categories == ParseList(row[2])
    && product.description == row[3]
    && product.tags == ParseList(row[4])
  }

  /** `products` is the loader's result for `rows`: the header row skipped,
      one product per remaining row, in file order. */
  predicate IsLoadOf(products: seq<Product>, rows: seq<seq<string>>)
  {
    && |rows| >= 1
    && |products| == |rows| - 1
    && forall i :: 0 <= i < |products| ==> IsProductOf(products[i], rows[i + 1])
  }

  datatype LoadError =
    | MissingHeader                     // `next` on an empty file
    | ShortRow(row: nat, fields: nat)   // `row[k]` past the end of a data row

  /** `k` is the first data row with fewer than five fields. */
  predicate FirstShortRow(rows: seq<seq<string>>, k: nat)
  {
    && 1 <= k < |rows|
    && |rows[k]| < FieldCount
    && forall m :: 1 <= m < k ==> |rows[m]| >= FieldCount
  }

  /** The row mapping of `load_products_csv`. */
  method LoadProducts(rows: seq<seq<string>>) returns (result: Result<seq<Product>, LoadError>)
    ensures result.Ok? <==> |rows| >= 1 && forall m :: 1 <= m < |rows| ==> |rows[m]| >= FieldCount
    ensures result.Ok? ==> IsLoadOf(result.value, rows)
    ensures result == Err(MissingHeader) <==> rows == []
    ensures result.Err? && result.error.ShortRow? ==>
      FirstShortRow(rows, result.error.row) && result.error.fields == |rows[result.error.row]|
  {
    if |rows| == 0 {
      return Err(MissingHeader);
    }
    var products: seq<Product> := [];
    var k := 1;
    while k < |rows|
      invariant 1 <= k <= |rows|
      invariant |products| == k - 1
      invariant forall m :: 1 <= m < k ==> |rows[m]| >= FieldCount
      invariant forall i :: 0 <= i < |products| ==> IsProductOf(products[i], rows[i + 1])
    {
      var row := rows[k];
      if |row| < FieldCount {
        return Err(ShortRow(k, |row|));
      }
      var p := Product(
        name := row[0],
        url := row[1],
        categories := ParseList(row[2]),
        description := row[3],
        tags := ParseList(row[4]));
      assert IsProductOf(p, rows[k]);
      products := products + [p];
      k := k + 1;
    }
    return Ok(products);
  }

  /** A product whose list fields hold stripped, `+`-free items (at least
      one each) written out as a row. */
  function ToRow(p: Product): seq<string>
  {
    [p.name, p.url, Join(p.categories, ListSep), p.description, Join(p.tags, ListSep)]
  }

  predicate WellFormedList(items: seq<string>)
  {
    && |items| >= 1
    && forall i :: 0 <= i < |items| ==> Stripped(items[i]) && ListSep !in items[i]
  }

  /** Writing a well-formed product as a row and loading that row gives the
      product back. */
  lemma RowRoundTrip(p: Product)
    requires WellFormedList(p.categories) && WellFormedList(p.tags)
    ensures IsProductOf(p, ToRow(p))
  {
    var row := ToRow(p);
    assert ParseList(row[2]) == p.categories by { ParseJoinedList(p.categories); }
    assert ParseList(row[4]) == p.tags by { ParseJoinedList(p.tags); }
  }

  /** The loaded products are determined by the rows. */
  lemma LoadIsUnique(rows: seq<seq<string>>, a: seq<Product>, b: seq<Product>)
    requires IsLoadOf(a, rows) && IsLoadOf(b, rows)
    ensures a == b
  {
  }
}
