/** The category index built inside `generate`: a map from each category
    to the products that declare it, and the sorted list of its keys. */
module Categories {
  import opened Text
  import opened Products

  /** `categories[c]` once grouping is done: every product of `ps`, in file
      order, once for each time it lists `c`. */
  function Members(ps: seq<Product>, c: string): seq<Product>
  {
    if ps == [] then []
    else
      var last := ps[|ps| - 1];
      Members(ps[..|ps| - 1], c) + seq(Count(last.categories, c), _ => last)
  }

  /** Some product of `ps` lists `c`. */
  predicate Declared(ps: seq<Product>, c: string)
  {
    exists i :: 0 <= i < |ps| && c in ps[i].categories
  }

  /** The file positions behind `Members(ps, c)`: position `i` once for each
      time `ps[i]` lists `c`. */
  function Positions(ps: seq<Product>, c: string): (r: seq<nat>)
    ensures forall k :: 0 <= k < |r| ==> r[k] < |ps|
    ensures forall k, l :: 0 <= k < l < |r| ==> r[k] <= r[l]
  {
    if ps == [] then []
    else
      var n := |ps| - 1;
      Positions(ps[..n], c) + seq(Count(ps[n].categories, c), _ => n)
  }

  lemma MultisetOfCopies(n: nat, x: nat, y: nat)
    ensures multiset(seq(n, _ => x))[y] == if y == x then n else 0
  {
    if n > 0 {
      var s := seq(n, _ => x);
      assert s == seq(n - 1, _ => x) + [x];
      MultisetOfCopies(n - 1, x, y);
    }
  }

  /** Each category list holds the products in file order: entry `k` is the
      product at file position `Positions(ps, c)[k]`, and those positions
      never decrease. */
  lemma {:induction false} MembersInFileOrder(ps: seq<Product>, c: string)
    ensures |Members(ps, c)| == |Positions(ps, c)|
    ensures forall k :: 0 <= k < |Members(ps, c)| ==> Members(ps, c)[k] == ps[Positions(ps, c)[k]]
  {
    if ps != [] {
      var n := |ps| - 1;
      var init := ps[..n];
      MembersInFileOrder(init, c);
      var m := Members(ps, c);
      var pos := Positions(ps, c);
      var mi, pi := Members(init, c), Positions(init, c);
      assert m == mi + seq(Count(ps[n].categories, c), _ => ps[n]);
      assert pos == pi + seq(Count(ps[n].categories, c), _ => n);
      forall k | 0 <= k < |m|
        ensures m[k] == ps[pos[k]]
      {
        if k < |mi| {
          assert m[k] == mi[k] == init[pi[k]];
          assert pos[k] == pi[k];
        }
      }
    }
  }

  /** Product `i` occurs in `categories[c]` exactly as many times as it
      lists `c`. */
  lemma {:induction false} PositionsMultiplicity(ps: seq<Product>, c: string, i: nat)
    requires i < |ps|
    ensures multiset(Positions(ps, c))[i] == Count(ps[i].categories, c)
    decreases |ps|
  {
    var n := |ps| - 1;
    var init := ps[..n];
    var pi := Positions(init, c);
    var copies := seq(Count(ps[n].categories, c), _ => n);
    MultisetOfCopies(Count(ps[n].categories, c), n, i);
    assert Positions(ps, c) == pi + copies;
    assert multiset(Positions(ps, c)) == multiset(pi) + multiset(copies);
    if i == n {
      assert n !in pi;
    } else {
      PositionsMultiplicity(init, c, i);
      assert ps[i] == init[i];
    }
  }

  /** A product is in `categories[c]` exactly when it lists `c`. */
  lemma {:induction false} MembersMembership(ps: seq<Product>, c: string, p: Product)
    ensures p in Members(ps, c) <==> exists i :: 0 <= i < |ps| && ps[i] == p && c in p.categories
  {
    if ps != [] {
      var n := |ps| - 1;
      var init := ps[..n];
      MembersMembership(init, c, p);
      var tail := seq(Count(ps[n].categories, c), _ => ps[n]);
      assert Members(ps, c) == Members(init, c) + tail;
      if p in tail {
        assert p == ps[n] && c in p.categories;
      }
      if ps[n] == p && c in p.categories {
        assert tail[0] == p;
      }
      if exists i :: 0 <= i < |init| && init[i] == p && c in p.categories {
        var i :| 0 <= i < |init| && init[i] == p && c in p.categories;
        assert ps[i] == p;
      }
      if exists i :: 0 <= i < |ps| && ps[i] == p && c in p.categories {
        var i :| 0 <= i < |ps| && ps[i] == p && c in p.categories;
        if i < n {
          assert init[i] == p;
        }
      }
    }
  }

  /** Sum of the lengths of the category lists named in `keys`. */
  function ListedTotal(ps: seq<Product>, keys: seq<string>): nat
  {
    if keys == [] then 0 else |Members(ps, keys[0])| + ListedTotal(ps, keys[1..])
  }

  /** Sum of the lengths of every product's category list. */
  function DeclaredTotal(ps: seq<Product>): nat
  {
    if ps == [] then 0 else DeclaredTotal(ps[..|ps| - 1]) + |ps[|ps| - 1].categories|
  }

  /** Occurrences in `cats` of the strings in `keys`, summed. */
  function CountAll(cats: seq<string>, keys: seq<string>): nat
  {
    if keys == [] then 0 else Count(cats, keys[0]) + CountAll(cats, keys[1..])
  }

  predicate Distinct(keys: seq<string>)
  {
    forall k, l :: 0 <= k < l < |keys| ==> keys[k] != keys[l]
  }

  lemma {:induction false} CountDistinct(keys: seq<string>, x: string)
    requires Distinct(keys)
    ensures Count(keys, x) == if x in keys then 1 else 0
    decreases |keys|
  {
    if keys != [] {
      var n := |keys| - 1;
      var init := keys[..n];
      assert keys == init + [keys[n]];
      CountDistinct(init, x);
      if keys[n] == x {
        assert x !in init;
      }
    }
  }

  lemma {:induction false} CountAllSnoc(cats: seq<string>, x: string, keys: seq<string>)
    ensures CountAll(cats + [x], keys) == CountAll(cats, keys) + Count(keys, x)
    decreases |keys|
  {
    if keys != [] {
      CountAllSnoc(cats, x, keys[1..]);
      assert (cats + [x])[..|cats|] == cats;
      CountConcat([keys[0]], keys[1..], x);
      assert [keys[0]] + keys[1..] == keys;
    }
  }

  /** Distinct keys covering every string of `cats` count each of its
      elements once. */
  lemma {:induction false} CountAllCovering(cats: seq<string>, keys: seq<string>)
    requires Distinct(keys)
    requires forall x :: x in cats ==> x in keys
    ensures CountAll(cats, keys) == |cats|
    decreases |cats|
  {
    if cats == [] {
      CountAllNone(keys);
    } else {
      var n := |cats| - 1;
      var init := cats[..n];
      assert cats == init + [cats[n]];
      CountAllCovering(init, keys);
      CountAllSnoc(init, cats[n], keys);
      CountDistinct(keys, cats[n]);
    }
  }

  lemma {:induction false} CountAllNone(keys: seq<string>)
    ensures CountAll([], keys) == 0
    decreases |keys|
  {
    if keys != [] {
      CountAllNone(keys[1..]);
    }
  }

  lemma {:induction false} ListedTotalSnoc(ps: seq<Product>, keys: seq<string>)
    requires ps != []
    ensures ListedTotal(ps, keys)
      == ListedTotal(ps[..|ps| - 1], keys) + CountAll(ps[|ps| - 1].categories, keys)
    decreases |keys|
  {
    if keys != [] {
      ListedTotalSnoc(ps, keys[1..]);
    }
  }

  /** The category lists together hold one entry per (product, category)
      pair: their total length is the sum of the products' category counts. */
  lemma {:induction false} GroupedTotal(ps: seq<Product>, keys: seq<string>)
    requires Distinct(keys)
    requires forall c :: Declared(ps, c) ==> c in keys
    ensures ListedTotal(ps, keys) == DeclaredTotal(ps)
    decreases |ps|
  {
    if ps == [] {
      ListedTotalEmpty(keys);
    } else {
      var n := |ps| - 1;
      var init := ps[..n];
      forall c | Declared(init, c)
        ensures c in keys
      {
        var i :| 0 <= i < |init| && c in init[i].categories;
        assert ps[i] == init[i];
      }
      GroupedTotal(init, keys);
      ListedTotalSnoc(ps, keys);
      forall x | x in ps[n].categories
        ensures x in keys
      {
        assert Declared(ps, x);
      }
      CountAllCovering(ps[n].categories, keys);
    }
  }

  lemma {:induction false} ListedTotalEmpty(keys: seq<string>)
    ensures ListedTotal([], keys) == 0
    decreases |keys|
  {
    if keys != [] {
      ListedTotalEmpty(keys[1..]);
    }
  }

  lemma {:induction false} MembersOfUndeclared(ps: seq<Product>, c: string)
    requires !Declared(ps, c)
    ensures Members(ps, c) == []
    decreases |ps|
  {
    if ps != [] {
      var n := |ps| - 1;
      assert c !in ps[n].categories;
      assert !Declared(ps[..n], c);
      MembersOfUndeclared(ps[..n], c);
    }
  }

  lemma DeclaredSnoc(ps: seq<Product>, i: nat, c: string)
    requires i < |ps|
    ensures Declared(ps[..i + 1], c) <==> Declared(ps[..i], c) || c in ps[i].categories
  {
    var pre, pre1 := ps[..i], ps[..i + 1];
    if Declared(pre1, c) && c !in ps[i].categories {
      var m :| 0 <= m < i + 1 && c in pre1[m].categories;
      assert pre[m] == pre1[m];
    }
    if Declared(pre, c) {
      var m :| 0 <= m < i && c in pre[m].categories;
      assert pre1[m] == pre[m];
    }
    if c in ps[i].categories {
      assert pre1[i] == ps[i];
    }
  }

  lemma MembersSnoc(ps: seq<Product>, i: nat, c: string)
    requires i < |ps|
    ensures Members(ps[..i + 1], c) == Members(ps[..i], c) + seq(Count(ps[i].categories, c), _ => ps[i])
  {
    assert ps[..i + 1][..i] == ps[..i];
  }

  lemma CountSnoc(s: seq<string>, x: string, y: string)
    ensures Count(s + [x], y) == Count(s, y) + if x == y then 1 else 0
  {
    assert (s + [x])[..|s|] == s;
  }

  lemma CopiesSnoc(n: nat, p: Product)
    ensures seq(n + 1, _ => p) == seq(n, _ => p) + [p]
  {
  }

  /** `categories[c]` of a `defaultdict(list)`: an absent key reads as an
      empty list. */
  function Lookup(index: map<string, seq<Product>>, c: string): seq<Product>
  {
    if c in index then index[c] else []
  }

  /** `index` with `p` appended, in order, to the list of each category in
      `cats`. */
  function Appended(index: map<string, seq<Product>>, cats: seq<string>, p: Product): map<string, seq<Product>>
  {
    if cats == [] then index
    else
      var m := Appended(index, cats[..|cats| - 1], p);
      var c := cats[|cats| - 1];
      m[c := Lookup(m, c) + [p]]
  }

  lemma AppendedSnoc(index: map<string, seq<Product>>, cats: seq<string>, p: Product, j: nat)
    requires j < |cats|
    ensures Appended(index, cats[..j + 1], p)
      == var m := Appended(index, cats[..j], p); m[cats[j] := Lookup(m, cats[j]) + [p]]
  {
    assert cats[..j + 1][..j] == cats[..j];
  }

  /** Appending creates exactly the keys of the categories named. */
  lemma {:induction false} AppendedKeys(index: map<string, seq<Product>>, cats: seq<string>, p: Product, c: string)
    ensures c in Appended(index, cats, p) <==> c in index || c in cats
    decreases |cats|
  {
    if cats != [] {
      var init := cats[..|cats| - 1];
      AppendedKeys(index, init, p, c);
      assert cats == init + [cats[|cats| - 1]];
    }
  }

  /** Under every category, `p` is appended once per time `cats` names it. */
  lemma {:induction false} AppendedLookup(index: map<string, seq<Product>>, cats: seq<string>, p: Product, c: string)
    ensures Lookup(Appended(index, cats, p), c) == Lookup(index, c) + seq(Count(cats, c), _ => p)
    decreases |cats|
  {
    if cats != [] {
      var n := |cats| - 1;
      var init := cats[..n];
      AppendedLookup(index, init, p, c);
      assert cats == init + [cats[n]];
      CountSnoc(init, cats[n], c);
      if cats[n] == c {
        CopiesSnoc(Count(init, c), p);
      }
    }
  }

  /** One pass of the inner loop of `generate`: append `p` to the list of
      each category it names, in order. */
  method AddProduct(index: map<string, seq<Product>>, p: Product)
    returns (index': map<string, seq<Product>>)
    ensures index' == Appended(index, p.categories, p)
    ensures forall c :: c in index' <==> c in index || c in p.categories
    ensures forall c :: Lookup(index', c) == Lookup(index, c) + seq(Count(p.categories, c), _ => p)
  {
    index' := index;
    var cats := p.categories;
    var j := 0;
    while j < |cats|
      invariant 0 <= j <= |cats|
      invariant index' == Appended(index, cats[..j], p)
    {
      var c := cats[j];
      var list: seq<Product> := [];
      if c in index' {
        list := index'[c];
      }
      AppendedSnoc(index, cats, p, j);
      index' := index'[c := list + [p]];
      j := j + 1;
    }
    assert cats[..j] == cats;
    forall c
      ensures c in index' <==> c in index || c in cats
      ensures Lookup(index', c) == Lookup(index, c) + seq(Count(cats, c), _ => p)
    {
      AppendedKeys(index, cats, p, c);
      AppendedLookup(index, cats, p, c);
    }
  }

  /** The grouping loop of `generate`: for each product, for each of its
      categories, append the product to that category's list (a
      `defaultdict(list)`, so a new key starts empty). */
  method GroupByCategory(ps: seq<Product>) returns (index: map<string, seq<Product>>)
    ensures forall c :: c in index <==> Declared(ps, c)
    ensures forall c :: c in index ==> index[c] == Members(ps, c)
  {
    index := map[];
    var i := 0;
    while i < |ps|
      invariant 0 <= i <= |ps|
      invariant forall c :: c in index <==> Declared(ps[..i], c)
      invariant forall c :: Lookup(index, c) == Members(ps[..i], c)
    {
      index := AddProduct(index, ps[i]);
      forall c
        ensures c in index <==> Declared(ps[..i + 1], c)
        ensures Lookup(index, c) == Members(ps[..i + 1], c)
      {
        DeclaredSnoc(ps, i, c);
        MembersSnoc(ps, i, c);
      }
      i := i + 1;
    }
    assert ps[..i] == ps;
  }

  // ---------------------------------------------------------------------------
  // category_keys = sorted(categories.keys())

  /** Strictly ascending in Python's string order (so also free of
      duplicates). */
  predicate Ascending(keys: seq<string>)
  {
    forall k, l :: 0 <= k < l < |keys| ==> Less(keys[k], keys[l])
  }

  lemma AscendingDistinct(keys: seq<string>)
    requires Ascending(keys)
    ensures Distinct(keys)
  {
    forall k, l | 0 <= k < l < |keys|
      ensures keys[k] != keys[l]
    {
      LessIrreflexive(keys[k]);
    }
  }

  lemma BelowAscending(c: string, keys: seq<string>)
    requires Ascending(keys) && keys != [] && Less(c, keys[0])
    ensures forall k :: 0 <= k < |keys| ==> Less(c, keys[k])
  {
    forall k | 0 < k < |keys|
      ensures Less(c, keys[k])
    {
      LessTransitive(c, keys[0], keys[k]);
    }
  }

  /** `c` inserted into an ascending list of strings that lacks it. */
  function Insert(keys: seq<string>, c: string): (r: seq<string>)
    requires Ascending(keys) && c !in keys
    ensures Ascending(r) && |r| == |keys| + 1
    ensures forall x :: x in r <==> x in keys || x == c
  {
    if keys == [] then [c]
    else if Less(c, keys[0]) then
      BelowAscending(c, keys);
      [c] + keys
    else
      LessTotal(c, keys[0]);
      var r := Insert(keys[1..], c);
      assert forall x :: x in keys[1..] ==> x in keys;
      assert forall x :: x in r ==> Less(keys[0], x);
      [keys[0]] + r
  }

  /** `sorted(categories.keys())`: the keys of `index`, each once, in
      ascending order. */
  method SortedKeys(index: map<string, seq<Product>>) returns (keys: seq<string>)
    ensures Ascending(keys)
    ensures forall c :: c in keys <==> c in index
  {
    keys := [];
    var rest := index.Keys;
    while rest != {}
      invariant rest <= index.Keys
      invariant Ascending(keys)
      invariant forall c :: c in keys <==> c in index && c !in rest
      decreases |rest|
    {
      var c :| c in rest;
      keys := Insert(keys, c);
      rest := rest - {c};
    }
  }

  /** Every element of an ascending list is its head or above it. */
  lemma AscendingHead(x: string, keys: seq<string>)
    requires Ascending(keys) && x in keys
    ensures x == keys[0] || Less(keys[0], x)
  {
    var i :| 0 <= i < |keys| && keys[i] == x;
    if i > 0 {
      assert Less(keys[0], keys[i]);
    }
  }

  lemma SameElementsEmpty(a: seq<string>, b: seq<string>)
    requires forall x :: x in a <==> x in b
    ensures a == [] <==> b == []
  {
    if a != [] {
      assert a[0] in b;
    }
    if b != [] {
      assert b[0] in a;
    }
  }

  /** Two ascending lists of the same strings are equal: the sorted key
      list is determined by the key set alone. */
  lemma {:induction false} AscendingUnique(a: seq<string>, b: seq<string>)
    requires Ascending(a) && Ascending(b)
    requires forall x :: x in a <==> x in b
    ensures a == b
    decreases |a|
  {
    SameElementsEmpty(a, b);
    if a != [] {
      assert a[0] in a && b[0] in b;
      AscendingHead(a[0], b);
      AscendingHead(b[0], a);
      LessAsymmetric(a[0], b[0]);
      AscendingDistinct(a);
      AscendingDistinct(b);
      forall x
        ensures x in a[1..] <==> x in b[1..]
      {
        assert x in a[1..] <==> x in a && x != a[0];
        assert x in b[1..] <==> x in b && x != b[0];
      }
      AscendingUnique(a[1..], b[1..]);
      assert a == [a[0]] + a[1..] && b == [b[0]] + b[1..];
    }
  }

  /** The sorted key list names every grouped entry once: the lengths of
      the lists it names add up to the number of (product, category) pairs
      in the catalog. */
  lemma KeysCoverGroupedEntries(ps: seq<Product>, keys: seq<string>)
    requires Ascending(keys)
    requires forall c :: c in keys <==> Declared(ps, c)
    ensures ListedTotal(ps, keys) == DeclaredTotal(ps)
  {
    AscendingDistinct(keys);
    GroupedTotal(ps, keys);
  }
}
