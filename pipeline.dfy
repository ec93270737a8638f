/** The `generate` command with its I/O stripped: load the catalog rows,
    group the products by category, fetch the missing screenshots, and
    sort the category names for the page. */
module Pipeline {
  import opened Products
  import opened Categories
  import opened Screenshots

  /** `[p.url for p in products]`: one URL per product, in catalog order,
      repeated URLs kept. */
  function Urls(ps: seq<Product>): (urls: seq<string>)
    ensures |urls| == |ps|
    ensures forall i :: 0 <= i < |ps| ==> urls[i] == ps[i].url
  {
    if ps == [] then [] else Urls(ps[..|ps| - 1]) + [ps[|ps| - 1].url]
  }

  /** The screenshot written for a product's URL is the file its
      `image_name` names: the page can find every product's image. */
  lemma ImageOfEveryProduct(ps: seq<Product>, digest: string -> string, i: nat)
    requires i < |ps|
    ensures ImageName(ps[i], digest) + ".png" in Names(Urls(ps), digest)
  {
    assert FileName(Urls(ps)[i], digest) == ImageName(ps[i], digest) + ".png";
  }

  /** The template's `categories` and `category_keys`, plus the loaded
      products. */
  datatype TemplateInput = TemplateInput(
    products: seq<Product>,
    categories: map<string, seq<Product>>,
    categoryKeys: seq<string>)

  /** `generate` up to the rendering of `index.html`. */
  method Generate(rows: seq<seq<string>>, page: Page, dir: ScreenshotDir, digest: string -> string)
    returns (result: Result<TemplateInput, LoadError>)
    modifies page, dir
    ensures result.Ok? <==> |rows| >= 1 && forall m :: 1 <= m < |rows| ==> |rows[m]| >= FieldCount
    ensures result == Err(MissingHeader) <==> rows == []
    ensures result.Err? && result.error.ShortRow? ==>
      FirstShortRow(rows, result.error.row) && result.error.fields == |rows[result.error.row]|
    ensures result.Err? ==> dir.files == old(dir.files) && page.history == old(page.history)
    ensures result.Ok? ==>
      var input := result.value;
      && IsLoadOf(input.products, rows)
      && (forall c :: c in input.categories <==> Declared(input.products, c))
      && (forall c :: c in input.categories ==> input.categories[c] == Members(input.products, c))
      && Ascending(input.categoryKeys)
      && (forall c :: c in input.categoryKeys <==> c in input.categories)
      && dir.files == old(dir.files) + Names(Urls(input.products), digest)
      && page.history == old(page.history) + FetchPlan(old(dir.files), Urls(input.products), digest)
      && (forall p :: p in input.products ==> ImageName(p, digest) + ".png" in dir.files)
  {
    var loaded := LoadProducts(rows);
    if loaded.Err? {
      return Err(loaded.error);
    }
    var products := loaded.value;
    var categories := GroupByCategory(products);
    var urls := Urls(products);
    CaptureScreenshots(page, dir, urls, digest);
    var keys := SortedKeys(categories);
    forall p | p in products
      ensures ImageName(p, digest) + ".png" in dir.files
    {
      var i :| 0 <= i < |products| && products[i] == p;
      ImageOfEveryProduct(products, digest, i);
    }
    return Ok(TemplateInput(products, categories, keys));
  }
}
