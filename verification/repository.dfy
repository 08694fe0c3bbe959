/** The keyed product repository (src/adapters/repository.py).
    `InMemoryRepository` and `CsvRepository` hold the same dictionary from sku
    to product and share the same `add`, `get` and `list` code; both are
    modelled by the functions here. */
module Repository {
  import opened Wrappers
  import opened Domain
  import opened StringOrder

  /** Every entry is stored under its own product's sku. */
  predicate WellKeyed(m: map<string, Product>) {
    forall k | k in m :: m[k].sku == k
  }

  /** The repository's `_products` dictionary. */
  type Repo = m: map<string, Product> | WellKeyed(m) witness map[]

  const Empty: Repo := map[]

  /** `get`: the product stored under `sku`, or `None`. */
  function Get(repo: Repo, sku: string): (r: Option<Product>)
    ensures r.Some? <==> sku in repo
    ensures r.Some? ==> r.value.sku == sku
  {
    if sku in repo then Some(repo[sku]) else None
  }

  /** `add`: insert, or overwrite the entry with the same sku. */
  function Add(repo: Repo, p: Product): (r: Repo)
    ensures Get(r, p.sku) == Some(p)
    ensures forall k | k != p.sku :: Get(r, k) == Get(repo, k)
    ensures r.Keys == repo.Keys + {p.sku}
  {
    repo[p.sku := p]
  }

  /** `InMemoryRepository(products)`: the comprehension `{p.sku: p for p in
      products}`, so a later product replaces an earlier one with its sku. */
  function FromProducts(ps: seq<Product>): (r: Repo)
    ensures forall i | 0 <= i < |ps| :: ps[i].sku in r
    ensures forall k | k in r :: exists i | 0 <= i < |ps| :: ps[i].sku == k
    ensures forall i | 0 <= i < |ps| && LastWithSku(ps, i) :: r[ps[i].sku] == ps[i]
  {
    if |ps| == 0 then Empty
    else
      var prev := FromProducts(ps[..|ps| - 1]);
      FromProductsStep(ps, prev);
      Add(prev, ps[|ps| - 1])
  }

  /** The inductive step of `FromProducts`: adding the last product to the
      repository built from the others. */
  lemma FromProductsStep(ps: seq<Product>, prev: Repo)
    requires |ps| > 0
    requires var init := ps[..|ps| - 1];
      && (forall i | 0 <= i < |init| :: init[i].sku in prev)
      && (forall k | k in prev :: exists i | 0 <= i < |init| :: init[i].sku == k)
      && (forall i | 0 <= i < |init| && LastWithSku(init, i) :: prev[init[i].sku] == init[i])
    ensures var r := Add(prev, ps[|ps| - 1]);
      && (forall i | 0 <= i < |ps| :: ps[i].sku in r)
      && (forall k | k in r :: exists i | 0 <= i < |ps| :: ps[i].sku == k)
      && (forall i | 0 <= i < |ps| && LastWithSku(ps, i) :: r[ps[i].sku] == ps[i])
  {
    var n := |ps| - 1;
    var init := ps[..n];
    var r := Add(prev, ps[n]);
    assert forall i | 0 <= i < n :: init[i] == ps[i];
    assert forall k | k in r :: exists i | 0 <= i < |ps| :: ps[i].sku == k by {
      forall k | k in r ensures exists i | 0 <= i < |ps| :: ps[i].sku == k {
        if k != ps[n].sku {
          var i :| 0 <= i < n && init[i].sku == k;
          assert ps[i].sku == k;
        }
      }
    }
    assert forall i | 0 <= i < |ps| && LastWithSku(ps, i) :: r[ps[i].sku] == ps[i] by {
      forall i | 0 <= i < |ps| && LastWithSku(ps, i) ensures r[ps[i].sku] == ps[i] {
        if i < n {
          assert LastWithSku(init, i);
        }
      }
    }
  }

  /** No product after position `i` of `ps` has the sku of `ps[i]`. */
  predicate LastWithSku(ps: seq<Product>, i: int)
    requires 0 <= i < |ps|
  {
    forall j | i < j < |ps| :: ps[j].sku != ps[i].sku
  }

  // ---------------------------------------------------------------------
  // Listing

  /** Strictly ascending by sku (skus in a repository are distinct). */
  predicate SortedBySku(s: seq<Product>) {
    forall i, j | 0 <= i < j < |s| :: Less(s[i].sku, s[j].sku)
  }

  function Skus(s: seq<Product>): set<string> {
    set i | 0 <= i < |s| :: s[i].sku
  }

  /** `s` is what `list()` returns for `repo`: every stored product exactly
      once, in ascending sku order. */
  predicate IsListing(repo: Repo, s: seq<Product>) {
    && SortedBySku(s)
    && Skus(s) == repo.Keys
    && forall i | 0 <= i < |s| :: Get(repo, s[i].sku) == Some(s[i])
  }

  /** The skus of a sequence with a product in front. */
  lemma SkusCons(x: Product, s: seq<Product>)
    ensures Skus([x] + s) == {x.sku} + Skus(s)
  {
    var r := [x] + s;
    assert r[0].sku == x.sku;
    forall k | k in Skus(r) ensures k in {x.sku} + Skus(s) {
      var j :| 0 <= j < |r| && r[j].sku == k;
      if j > 0 { assert s[j - 1].sku == k; }
    }
    forall k | k in Skus(s) ensures k in Skus(r) {
      var j :| 0 <= j < |s| && s[j].sku == k;
      assert r[j + 1].sku == k;
    }
  }

  /** Places `p` into a sorted sequence that does not yet hold its sku. */
  function Insert(s: seq<Product>, p: Product): (r: seq<Product>)
    requires SortedBySku(s)
    requires p.sku !in Skus(s)
    ensures SortedBySku(r)
    ensures |r| == |s| + 1
    ensures forall x :: x in r <==> x == p || x in s
    ensures Skus(r) == Skus(s) + {p.sku}
  {
    if |s| == 0 then
      SkusCons(p, s);
      [p] + s
    else
      var tail := s[1..];
      assert s == [s[0]] + tail;
      SkusCons(s[0], tail);
      if Less(p.sku, s[0].sku) then
        assert forall j | 0 < j < |s| :: Less(p.sku, s[j].sku) by {
          forall j | 0 < j < |s| ensures Less(p.sku, s[j].sku) {
            LessTransitive(p.sku, s[0].sku, s[j].sku);
          }
        }
        SkusCons(p, s);
        [p] + s
      else
        LessTotal(p.sku, s[0].sku);
        var rest := Insert(tail, p);
        forall j | 0 <= j < |rest| ensures Less(s[0].sku, rest[j].sku) {
          assert rest[j] in rest;
          if rest[j] != p {
            var m :| 0 <= m < |tail| && tail[m] == rest[j];
            assert s[m + 1] == tail[m];
          }
        }
        SkusCons(s[0], rest);
        [s[0]] + rest
  }

  /** `list()`: all stored products, sorted ascending by sku. */
  method List(repo: Repo) returns (r: seq<Product>)
    ensures IsListing(repo, r)
    ensures |r| == |repo|
  {
    r := [];
    var rest := repo.Keys;
    while rest != {}
      invariant rest <= repo.Keys
      invariant SortedBySku(r)
      invariant Skus(r) == repo.Keys - rest
      invariant forall i | 0 <= i < |r| :: Get(repo, r[i].sku) == Some(r[i])
      invariant |r| + |rest| == |repo.Keys|
      decreases rest
    {
      var k :| k in rest;
      var old_r := r;
      r := Insert(r, repo[k]);
      forall i | 0 <= i < |r| ensures Get(repo, r[i].sku) == Some(r[i]) {
        assert r[i] in r;
        if r[i] != repo[k] {
          var m :| 0 <= m < |old_r| && old_r[m] == r[i];
        }
      }
      assert |rest - {k}| == |rest| - 1;
      rest := rest - {k};
    }
  }

  // ---------------------------------------------------------------------
  // Properties of the listing

  /** A strictly sorted sequence holds each sku once, so it is as long as
      its set of skus. */
  lemma {:induction false} SortedSkusCardinality(s: seq<Product>)
    requires SortedBySku(s)
    ensures |Skus(s)| == |s|
  {
    if |s| > 0 {
      var tail := s[1..];
      SortedSkusCardinality(tail);
      assert Skus(s) == {s[0].sku} + Skus(tail) by {
        forall k | k in Skus(s) ensures k in {s[0].sku} + Skus(tail) {
          var j :| 0 <= j < |s| && s[j].sku == k;
          if j > 0 { assert tail[j - 1].sku == k; }
        }
        forall k | k in Skus(tail) ensures k in Skus(s) {
          var j :| 0 <= j < |tail| && tail[j].sku == k;
          assert s[j + 1].sku == k;
        }
      }
      if s[0].sku in Skus(tail) {
        var j :| 0 <= j < |tail| && tail[j].sku == s[0].sku;
        assert Less(s[0].sku, s[j + 1].sku);
        LessIrreflexive(s[0].sku);
      }
    }
  }

  /** A listing has one entry per stored sku. */
  lemma ListingLength(repo: Repo, s: seq<Product>)
    requires IsListing(repo, s)
    ensures |s| == |repo|
  {
    SortedSkusCardinality(s);
    assert |repo.Keys| == |repo|;
  }

  /** Two sorted sequences over the same skus whose entries agree with the
      same repository are equal. */
  lemma {:induction false} SortedAgreeingEqual(repo: Repo, s1: seq<Product>, s2: seq<Product>)
    requires SortedBySku(s1) && SortedBySku(s2)
    requires Skus(s1) == Skus(s2)
    requires forall i | 0 <= i < |s1| :: Get(repo, s1[i].sku) == Some(s1[i])
    requires forall i | 0 <= i < |s2| :: Get(repo, s2[i].sku) == Some(s2[i])
    ensures s1 == s2
    decreases |s1|
  {
    SortedSkusCardinality(s1);
    SortedSkusCardinality(s2);
    if |s1| > 0 {
      assert s1[0].sku in Skus(s1);
      assert s2[0].sku in Skus(s2);
      var j :| 0 <= j < |s2| && s2[j].sku == s1[0].sku;
      var i :| 0 <= i < |s1| && s1[i].sku == s2[0].sku;
      if i > 0 && j > 0 {
        assert Less(s1[0].sku, s2[0].sku);
        assert Less(s2[0].sku, s1[0].sku);
        LessAsymmetric(s1[0].sku, s2[0].sku);
      }
      assert s1[0].sku == s2[0].sku;
      assert s1[0] == s2[0];
      var t1, t2 := s1[1..], s2[1..];
      SkusOfTail(s1);
      SkusOfTail(s2);
      SortedAgreeingEqual(repo, t1, t2);
      assert s1 == [s1[0]] + t1 && s2 == [s2[0]] + t2;
    }
  }

  /** Dropping the head of a sorted sequence drops exactly its sku. */
  lemma SkusOfTail(s: seq<Product>)
    requires SortedBySku(s) && |s| > 0
    ensures Skus(s[1..]) == Skus(s) - {s[0].sku}
  {
    var tail := s[1..];
    forall k | k in Skus(tail) ensures k in Skus(s) && k != s[0].sku {
      var j :| 0 <= j < |tail| && tail[j].sku == k;
      assert s[j + 1].sku == k;
      assert Less(s[0].sku, s[j + 1].sku);
      LessIrreflexive(k);
    }
    forall k | k in Skus(s) && k != s[0].sku ensures k in Skus(tail) {
      var j :| 0 <= j < |s| && s[j].sku == k;
      assert tail[j - 1].sku == k;
    }
  }

  /** `list()` is deterministic: a repository has exactly one listing. */
  lemma ListingUnique(repo: Repo, s1: seq<Product>, s2: seq<Product>)
    requires IsListing(repo, s1) && IsListing(repo, s2)
    ensures s1 == s2
  {
    SortedAgreeingEqual(repo, s1, s2);
  }

  // ---------------------------------------------------------------------
  // Properties of add and get

  /** After `add(p)`, `get(p.sku)` returns `p`, and a listing holds `p`. */
  lemma AddThenGet(repo: Repo, p: Product, s: seq<Product>)
    requires IsListing(Add(repo, p), s)
    ensures Get(Add(repo, p), p.sku) == Some(p)
    ensures p in s
  {
  }

  /** Adding products with different skus in either order gives the same
      repository, hence (by `ListingUnique`) the same listing. */
  lemma AddCommutes(repo: Repo, p: Product, q: Product)
    requires p.sku != q.sku
    ensures Add(Add(repo, p), q) == Add(Add(repo, q), p)
  {
  }

  /** Products with pairwise distinct skus. */
  predicate DistinctSkus(ps: seq<Product>) {
    forall i, j | 0 <= i < j < |ps| :: ps[i].sku != ps[j].sku
  }

  /** Building a repository from products with distinct skus does not depend
      on their order. */
  lemma FromProductsOrderIndependent(ps: seq<Product>, qs: seq<Product>)
    requires DistinctSkus(ps) && DistinctSkus(qs)
    requires multiset(ps) == multiset(qs)
    ensures FromProducts(ps) == FromProducts(qs)
  {
    var a, b := FromProducts(ps), FromProducts(qs);
    forall k | k in a ensures k in b && a[k] == b[k] {
      var i :| 0 <= i < |ps| && ps[i].sku == k;
      assert LastWithSku(ps, i);
      assert ps[i] in multiset(qs);
      var j :| 0 <= j < |qs| && qs[j] == ps[i];
      assert LastWithSku(qs, j);
    }
    forall k | k in b ensures k in a {
      var j :| 0 <= j < |qs| && qs[j].sku == k;
      assert qs[j] in multiset(ps);
    }
  }
}
