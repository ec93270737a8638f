/** The skip-if-exists loop of `capture_screenshots`: which URLs the browser
    visits and which files the screenshot directory holds afterwards. The
    browser itself is reduced to the list of pages it was sent to. */
module Screenshots {
  import opened Products

  /** Name of the file a screenshot of `url` is saved under: the hex digest
      of the URL (SHA-1 in the source, a parameter here) plus `.png`. */
  function FileName(url: string, digest: string -> string): (name: string)
    ensures forall p: Product :: p.url == url ==> name == ImageName(p, digest) + ".png"
  {
    digest(url) + ".png"
  }

  /** The file names of all of `urls`. */
  function Names(urls: seq<string>, digest: string -> string): set<string>
  {
    set i | 0 <= i < |urls| :: FileName(urls[i], digest)
  }

  /** The URLs the loop navigates to, in order, when the directory starts
      out holding `files`: a URL is visited when its file is neither in the
      directory beforehand nor written for an earlier URL of the list. */
  function FetchPlan(files: set<string>, urls: seq<string>, digest: string -> string): seq<string>
  {
    if urls == [] then []
    else
      var n := |urls| - 1;
      FetchPlan(files, urls[..n], digest)
        + if FileName(urls[n], digest) in files + Names(urls[..n], digest) then [] else [urls[n]]
  }

  /** The directory `processing/screenshots`, as the set of its file names. */
  class ScreenshotDir {
    var files: set<string>

    constructor (existing: set<string>)
      ensures files == existing
    {
      files := existing;
    }

    /** `os.path.exists` on a file of this directory. */
    predicate Exists(name: string)
      reads this
    {
      name in files
    }
  }

  /** The one browser page the loop reuses; `history` lists the URLs it was
      sent to. */
  class Page {
    var history: seq<string>

    constructor ()
      ensures history == []
    {
      history := [];
    }

    /** `page.goto(url)`. */
    method Goto(url: string)
      modifies this
      ensures history == old(history) + [url]
    {
      history := history + [url];
    }

    /** `page.screenshot({'path': ...})`: writes the file `name` into `dir`. */
    method Screenshot(dir: ScreenshotDir, name: string)
      modifies dir
      ensures dir.files == old(dir.files) + {name}
    {
      dir.files := dir.files + {name};
    }
  }

  lemma NamesSnoc(urls: seq<string>, digest: string -> string, i: nat)
    requires i < |urls|
    ensures Names(urls[..i + 1], digest) == Names(urls[..i], digest) + {FileName(urls[i], digest)}
  {
    var pre, pre1 := urls[..i], urls[..i + 1];
    forall f | f in Names(pre1, digest)
      ensures f in Names(pre, digest) + {FileName(urls[i], digest)}
    {
      var k :| 0 <= k < i + 1 && f == FileName(pre1[k], digest);
      if k < i {
        assert pre1[k] == pre[k];
      }
    }
    forall f | f in Names(pre, digest)
      ensures f in Names(pre1, digest)
    {
      var k :| 0 <= k < i && f == FileName(pre[k], digest);
      assert pre1[k] == pre[k];
    }
    assert FileName(urls[i], digest) == FileName(pre1[i], digest);
  }

  lemma PlanSnoc(files: set<string>, urls: seq<string>, digest: string -> string, i: nat)
    requires i < |urls|
    ensures FetchPlan(files, urls[..i + 1], digest) == FetchPlan(files, urls[..i], digest)
      + if FileName(urls[i], digest) in files + Names(urls[..i], digest) then [] else [urls[i]]
  {
    assert urls[..i + 1][..i] == urls[..i];
  }

  /** The loop of `capture_screenshots`: for each URL, in order, navigate
      and save a screenshot unless its file already exists. */
  method CaptureScreenshots(page: Page, dir: ScreenshotDir, websites: seq<string>, digest: string -> string)
    modifies page, dir
    ensures dir.files == old(dir.files) + Names(websites, digest)
    ensures page.history == old(page.history) + FetchPlan(old(dir.files), websites, digest)
  {
    ghost var files0 := dir.files;
    ghost var history0 := page.history;
    var i := 0;
    while i < |websites|
      invariant 0 <= i <= |websites|
      invariant dir.files == files0 + Names(websites[..i], digest)
      invariant page.history == history0 + FetchPlan(files0, websites[..i], digest)
    {
      var website := websites[i];
      var filename := FileName(website, digest);
      NamesSnoc(websites, digest, i);
      PlanSnoc(files0, websites, digest, i);
      if !dir.Exists(filename) {
        page.Goto(website);
        page.Screenshot(dir, filename);
      }
      i := i + 1;
    }
    assert websites[..i] == websites;
  }

  // ---------------------------------------------------------------------------
  // What the plan does and does not fetch.

  /** URL `i` of the list is fetched: its file is not in the directory
      beforehand and no earlier URL of the list has the same file name. */
  predicate Fetched(files: set<string>, urls: seq<string>, digest: string -> string, i: nat)
    requires i < |urls|
  {
    && FileName(urls[i], digest) !in files
    && forall j :: 0 <= j < i ==> FileName(urls[j], digest) != FileName(urls[i], digest)
  }

  /** Positions in `urls` of the URLs the loop navigates to. */
  function FetchedPositions(files: set<string>, urls: seq<string>, digest: string -> string): (r: seq<nat>)
    ensures forall k :: 0 <= k < |r| ==> r[k] < |urls|
    ensures forall k, l :: 0 <= k < l < |r| ==> r[k] < r[l]
  {
    if urls == [] then []
    else
      var n := |urls| - 1;
      FetchedPositions(files, urls[..n], digest)
        + if FileName(urls[n], digest) in files + Names(urls[..n], digest) then [] else [n]
  }

  lemma FetchedPrefix(files: set<string>, urls: seq<string>, digest: string -> string, i: nat, n: nat)
    requires i < n <= |urls|
    ensures Fetched(files, urls[..n], digest, i) <==> Fetched(files, urls, digest, i)
  {
    assert forall j :: 0 <= j <= i ==> urls[..n][j] == urls[j];
  }

  /** The navigations are exactly the URLs at the fetched positions, and
      in list order (the positions increase). */
  lemma {:induction false} PlanFollowsPositions(files: set<string>, urls: seq<string>, digest: string -> string)
    ensures |FetchPlan(files, urls, digest)| == |FetchedPositions(files, urls, digest)|
    ensures forall k :: 0 <= k < |FetchPlan(files, urls, digest)| ==>
      FetchPlan(files, urls, digest)[k] == urls[FetchedPositions(files, urls, digest)[k]]
    decreases |urls|
  {
    if urls != [] {
      var n := |urls| - 1;
      var init := urls[..n];
      PlanFollowsPositions(files, init, digest);
      var plan, pos := FetchPlan(files, urls, digest), FetchedPositions(files, urls, digest);
      var plan0, pos0 := FetchPlan(files, init, digest), FetchedPositions(files, init, digest);
      forall k | 0 <= k < |plan|
        ensures plan[k] == urls[pos[k]]
      {
        if k < |plan0| {
          assert plan[k] == plan0[k] && pos[k] == pos0[k];
          assert init[pos0[k]] == urls[pos0[k]];
        }
      }
    }
  }

  /** Position `i` is among the fetched positions exactly when `Fetched`
      holds of it. */
  lemma {:induction false} FetchedPositionsExact(files: set<string>, urls: seq<string>, digest: string -> string, i: nat)
    requires i < |urls|
    ensures i in FetchedPositions(files, urls, digest) <==> Fetched(files, urls, digest, i)
    decreases |urls|
  {
    var n := |urls| - 1;
    var init := urls[..n];
    var pos0 := FetchedPositions(files, init, digest);
    if i < n {
      FetchedPositionsExact(files, init, digest, i);
      FetchedPrefix(files, urls, digest, i, n);
      assert i != n;
    } else {
      assert n !in pos0;
      if FileName(urls[n], digest) in Names(init, digest) {
        var j :| 0 <= j < n && FileName(init[j], digest) == FileName(urls[n], digest);
        assert urls[j] == init[j];
      }
      if !Fetched(files, urls, digest, n) && FileName(urls[n], digest) !in files {
        var j :| 0 <= j < n && FileName(urls[j], digest) == FileName(urls[n], digest);
        assert init[j] == urls[j];
        assert FileName(urls[n], digest) in Names(init, digest);
      }
    }
  }

  /** A URL whose file already exists is never navigated to. */
  lemma PlanSkipsCached(files: set<string>, urls: seq<string>, digest: string -> string, k: nat)
    requires k < |FetchPlan(files, urls, digest)|
    ensures FileName(FetchPlan(files, urls, digest)[k], digest) !in files
  {
    PlanFollowsPositions(files, urls, digest);
    var i := FetchedPositions(files, urls, digest)[k];
    FetchedPositionsExact(files, urls, digest, i);
  }

  /** No two navigations write the same file; in particular a URL that is
      repeated in the list is navigated to at most once. */
  lemma PlanFetchesOnce(files: set<string>, urls: seq<string>, digest: string -> string, k: nat, l: nat)
    requires k < l < |FetchPlan(files, urls, digest)|
    ensures FileName(FetchPlan(files, urls, digest)[k], digest) != FileName(FetchPlan(files, urls, digest)[l], digest)
    ensures FetchPlan(files, urls, digest)[k] != FetchPlan(files, urls, digest)[l]
  {
    PlanFollowsPositions(files, urls, digest);
    var pos := FetchedPositions(files, urls, digest);
    FetchedPositionsExact(files, urls, digest, pos[l]);
    assert pos[k] < pos[l];
  }

  /** Every URL of the list gets its file: either it was there beforehand
      or one of the navigations wrote it. */
  lemma {:induction false} PlanCoversAll(files: set<string>, urls: seq<string>, digest: string -> string)
    ensures files + Names(FetchPlan(files, urls, digest), digest) == files + Names(urls, digest)
    decreases |urls|
  {
    if urls != [] {
      var n := |urls| - 1;
      var init := urls[..n];
      PlanCoversAll(files, init, digest);
      NamesSnoc(urls, digest, n);
      assert urls[..n + 1] == urls;
      var plan0 := FetchPlan(files, init, digest);
      if FileName(urls[n], digest) !in files + Names(init, digest) {
        NamesSnoc(plan0 + [urls[n]], digest, |plan0|);
        assert (plan0 + [urls[n]])[..|plan0|] == plan0;
        assert (plan0 + [urls[n]])[..|plan0| + 1] == plan0 + [urls[n]];
      } else {
        assert plan0 + [] == plan0;
      }
    }
  }

  /** A second run over the same list, on the directory the first run left,
      navigates nowhere. */
  lemma {:induction false} SecondRunFetchesNothing(files: set<string>, urls: seq<string>, digest: string -> string)
    requires Names(urls, digest) <= files
    ensures FetchPlan(files, urls, digest) == []
    decreases |urls|
  {
    if urls != [] {
      var n := |urls| - 1;
      assert FileName(urls[n], digest) in Names(urls, digest);
      assert Names(urls[..n], digest) <= Names(urls, digest) by {
        NamesSnoc(urls, digest, n);
        assert urls[..n + 1] == urls;
      }
      SecondRunFetchesNothing(files, urls[..n], digest);
    }
  }
}
