# Catalog page generator: verified model of its core logic

The program reads a product catalog from `data/data.csv`. Each row holds a
name, a URL, a `+`-separated list of categories, a description and a
`+`-separated list of tags. The program:

1. Groups the products by category.
2. Takes a browser screenshot of every product URL that does not yet have
   a cached file under `processing/screenshots/`.
3. Renders `index.html` from the category map and the sorted category
   names.

This project models the decision logic of that pipeline in Dafny and proves
what it guarantees:

- `Text` gives Python's `str.strip()` (with `str.isspace`'s exact
  character set), `str.split` on one character, `sep.join`, and the
  code-point ordering that `sorted` uses on strings.
- `Products` holds the frozen `Product` record and `image_name`. It also
  holds `parse_list` and the row-to-product mapping of
  `load_products_csv`, which takes already-tokenized rows. An empty file
  and a row with fewer than five fields are error results.
- `Categories` holds the `defaultdict(list)` grouping loop of `generate`,
  written as a method over a map and specified by `Members` (file order,
  one entry per time a product lists the category). It also holds
  `sorted(categories.keys())`.
- `Screenshots` holds the skip-if-exists loop of `capture_screenshots`.
  The browser page is a class that records the URLs it navigated to. The
  screenshot directory is a class holding a set of file names. The loop
  is proved against `FetchPlan`, a function of the URL list and the
  initial directory.
- `Pipeline` holds `generate` from loading up to the template's
  `categories` and `category_keys`, returned with the loaded products.

The SHA-1 hex digest is a parameter `digest: string -> string`. It is
treated as deterministic. It is not assumed injective, so two URLs may
share a file name.

## Model

| member | source | states |
|---|---|---|
| Text.SkipSpaceForward | main.py:32 | the first index at or after the start that is not whitespace; every character before it is whitespace |
| Text.SkipSpaceBackward | main.py:32 | the end of the text once trailing whitespace is skipped, never below the start index; every character from it on is whitespace |
| Text.Strip | main.py:32 | `s.strip()` has no whitespace at either end, is `s` with only whitespace removed from the two ends, and contains only characters of `s` |
| Text.TrimIsUnique | main.py:32 | any two trimmings of `s` with no whitespace at their ends are equal, so the result of `strip` is determined by its contract |
| Text.Split | main.py:32 | `s.split(sep)` has one piece more than `s` has separators, and no piece contains the separator |
| Text.JoinSplit | main.py:32 | joining the pieces of `s.split(sep)` with `sep` gives `s` back, so the pieces are the segments of `s` in order |
| Text.SplitJoin | main.py:32 | splitting the join of separator-free pieces gives the pieces back |
| Text.LessIrreflexive | main.py:88 | no string sorts before itself |
| Text.LessAsymmetric | main.py:88 | two strings never each sort before the other |
| Text.LessTransitive | main.py:88 | the string order is transitive |
| Text.LessTotal | main.py:88 | of two different strings, one sorts before the other |
| Products.ParseList | main.py:31-32 | `parse_list(s)` has one item per `+` plus one, even for an empty `s`; every item has no surrounding whitespace and no `+` |
| Products.ParseListSegments | main.py:31-32 | item `i` is a whitespace trimming of segment `i` of `s.split('+')`, and the segments joined with `+` give `s` |
| Products.StripStripped | main.py:32 | `strip` leaves a string without surrounding whitespace unchanged |
| Products.ParseJoinedList | main.py:31-32 | `parse_list` of the `+`-join of stripped, `+`-free items returns exactly those items |
| Products.LoadProducts | main.py:29-45 | the result is a list of products exactly when the file has a header and every data row has five fields; the header is skipped, and product `i` comes from row `i + 1` by position, with both list columns parsed and extra columns ignored; an empty file is a missing-header error, otherwise the error names the first short row and its field count |
| Products.RowRoundTrip | main.py:37-43 | a product whose list fields hold stripped, `+`-free items is rebuilt exactly from the row that writes it out |
| Products.LoadIsUnique | main.py:35-44 | the loaded products are determined by the rows |
| Categories.Positions | main.py:78-81 | the file positions behind a category list are within the catalog and never decrease |
| Categories.MembersInFileOrder | main.py:79-81 | entry `k` of `categories[c]` is the product at file position `Positions[k]`, so the list is in file order |
| Categories.PositionsMultiplicity | main.py:80-81 | product `i` occurs in `categories[c]` exactly as many times as it lists `c`, with no deduplication |
| Categories.MembersMembership | main.py:79-81 | a product is in `categories[c]` exactly when it lists `c` |
| Categories.MembersOfUndeclared | main.py:78-81 | a category that no product lists has an empty list |
| Categories.GroupedTotal | main.py:78-81 | over distinct keys that cover every listed category, the list lengths sum to the total number of (product, category) pairs |
| Categories.AppendedKeys | main.py:80-81 | appending a product under its categories creates exactly the keys of those categories |
| Categories.AppendedLookup | main.py:80-81 | under each category, the product is appended once for each time it lists that category; reading a category through `Lookup` gives an absent key as an empty list, as `defaultdict(list)` does |
| Categories.AddProduct | main.py:80-81 | the inner loop adds `p` under each of its categories in order; the new keys are the old keys plus `p`'s categories, and each list read through `Lookup` (absent key as empty) gains one copy of `p` per listing |
| Categories.GroupByCategory | main.py:78-81 | the map's keys are exactly the categories some product lists, and `categories[c]` is `Members(ps, c)` |
| Categories.AscendingDistinct | main.py:88 | a sorted key list has no duplicates |
| Categories.Insert | main.py:88 | inserting a missing name into an ascending list keeps it ascending, adds one element, and adds exactly that name |
| Categories.SortedKeys | main.py:88 | `sorted(categories.keys())` is ascending and holds exactly the map's keys |
| Categories.AscendingUnique | main.py:88 | two ascending lists of the same strings are equal, so the sorted keys depend only on the key set |
| Categories.KeysCoverGroupedEntries | main.py:78-88 | the lists named by the sorted keys hold one entry per (product, category) pair in the catalog |
| Screenshots.FileName | main.py:53-56 | the screenshot file of a URL is `Products.ImageName` (`image_name`) of any product with that URL followed by `.png` |
| Screenshots.CaptureScreenshots | main.py:48-57 | afterwards the directory holds its old files plus the file of every URL; the browser visited exactly `FetchPlan` of the URLs, in order, the skip test being `ScreenshotDir.Exists` on the file name |
| Screenshots.FetchedPositions | main.py:52-56 | the positions of the visited URLs are within the list and strictly increasing |
| Screenshots.PlanFollowsPositions | main.py:52-56 | the navigations are the URLs at the fetched positions, in list order |
| Screenshots.FetchedPositionsExact | main.py:53-56 | a URL is navigated to exactly when its file is not in the directory beforehand and no earlier URL has the same file name |
| Screenshots.PlanSkipsCached | main.py:54 | a URL whose screenshot file already exists is never navigated to |
| Screenshots.PlanFetchesOnce | main.py:53-56 | no two navigations write the same file, so a repeated URL is navigated to at most once |
| Screenshots.PlanCoversAll | main.py:52-56 | the files present beforehand plus those written by the navigations cover every URL's file |
| Screenshots.SecondRunFetchesNothing | main.py:54 | a second run on the directory the first run left navigates nowhere |
| Screenshots.Page.Goto | main.py:55 | the page's history gains the URL |
| Screenshots.Page.Screenshot | main.py:56 | the directory gains the named file and nothing else |
| Pipeline.Urls | main.py:82 | one URL per product, in catalog order, repeated URLs kept |
| Pipeline.ImageOfEveryProduct | main.py:24-26 | the file written for a product's URL is the one its `image_name` (`Products.ImageName`) names, with `.png` appended |
| Pipeline.Generate | main.py:75-88 | on an empty file the result is the missing-header error, and on a short data row it names the first such row and its field count; in both cases nothing is fetched and the directory is unchanged; otherwise the products are the load of the rows, the map and the sorted keys are as above, the fetch loop runs over the product URLs, and every product's image file exists afterwards |

## Left out

- Browser launch, viewport, `close` and the `asyncio` event loop (main.py:49-51, 57, 83) are foreign asynchronous I/O. Only the navigate/skip decisions and the files written are modelled.
- Screenshots.CaptureScreenshots: a failing `page.goto` or `page.screenshot` aborts the loop in the source; here both always succeed.
- SHA-1 (FIPS 180-4) is a parameter function. Collisions are allowed, and the proofs do not rely on their absence.
- CSV tokenization (quoting, escaping) and opening `data/data.csv` belong to the `csv` module and the file system. Rows are given as sequences of fields.
- `resize_all_screenshots` (main.py:60-66) is a directory glob plus PIL's thumbnail arithmetic inside the imaging library.
- The Jinja2 rendering of `templates/index.htm`, the write of `index.html` and the `click` command wiring (main.py:69-76, 85-91) are library I/O. `Pipeline.Generate` returns the template's `categories` and `category_keys`, plus the loaded products, instead.
- The category map is a Dafny `map`, which has no key order. The insertion order of Python's dict (categories in order of first appearance), which the template also receives (main.py:88), is not modelled; only `category_keys` carries an order.
- A screenshot file is modelled by its name only; its image content is not represented.
