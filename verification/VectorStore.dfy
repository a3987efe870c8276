/** src/vector/VectorStore.cpp and the aggregation of search results in src/main.cpp. Scores
    are real numbers; square roots are supplied by the caller. */
module VectorStore {
  datatype Document = Document(
    chunkId: string, fileId: int, content: string, filename: string, embedding: seq<real>, chunkIndex: int)

  datatype SearchResult = SearchResult(
    fileId: int, filename: string, content: string, score: real, chunkIndex: int)

  // ------------------------------------------------------------ cosine similarity

  function Dot(a: seq<real>, b: seq<real>): real
    requires |a| == |b|
  {
    if a == [] then 0.0
    else
      var n := |a| - 1;
      Dot(a[..n], b[..n]) + a[n] * b[n]
  }

  method Accumulate(a: seq<real>, b: seq<real>) returns (dot: real, normA: real, normB: real)
    requires |a| == |b|
    ensures dot == Dot(a, b) && normA == Dot(a, a) && normB == Dot(b, b)
  {
    dot, normA, normB := 0.0, 0.0, 0.0;
    for i := 0 to |a|
      invariant dot == Dot(a[..i], b[..i]) && normA == Dot(a[..i], a[..i]) && normB == Dot(b[..i], b[..i])
    {
      assert a[..i + 1][..i] == a[..i] && b[..i + 1][..i] == b[..i];
      dot := dot + a[i] * b[i];
      normA := normA + a[i] * a[i];
      normB := normB + b[i] * b[i];
    }
    assert a[..|a|] == a && b[..|b|] == b;
  }

  lemma SquareMonotone(t: real, s: real)
    requires s >= 0.0 && t * t <= s * s
    ensures t <= s
  {
    var u, v := t - s, t + s;
    assert u * v == t * t - s * s;
    assert u > 0.0 ==> u * v > 0.0;
  }

  lemma ProductOfSquares(x: real, y: real)
    ensures (x * y) * (x * y) == (x * x) * (y * y)
  {}

  lemma SquareNonNegative(x: real)
    ensures x * x >= 0.0
  {}

  lemma ScaleInequality(a: real, b: real, c: real)
    requires a <= b && c >= 0.0
    ensures a * c <= b * c
  {}

  /** With p = a * y² and q = b * x², the cross term 2dxy is at most p + q. */
  lemma CrossTerm(d: real, a: real, b: real, x: real, y: real)
    requires a >= 0.0 && b >= 0.0 && d * d <= a * b
    ensures 2.0 * (d * (x * y)) <= a * (y * y) + b * (x * x)
  {
    var xx, yy, m := x * x, y * y, x * y;
    SquareNonNegative(x);
    SquareNonNegative(y);
    SquareNonNegative(m);
    ProductOfSquares(x, y);
    var p, q, t := a * yy, b * xx, 2.0 * (d * m);
    assert t * t == 4.0 * ((d * d) * (m * m)) by {
      ProductOfSquares(d, m);
      assert t * t == 4.0 * ((d * m) * (d * m));
    }
    ScaleInequality(d * d, a * b, m * m);
    assert (a * b) * (m * m) == p * q by {
      assert m * m == xx * yy;
      Regroup(a, b, xx, yy);
    }
    SquareNonNegative(p - q);
    assert (p + q) * (p + q) - 4.0 * (p * q) == (p - q) * (p - q);
    ScaleInequality(0.0, a, yy);
    ScaleInequality(0.0, b, xx);
    SquareMonotone(t, p + q);
  }

  lemma Regroup(a: real, b: real, xx: real, yy: real)
    ensures (a * b) * (xx * yy) == (a * yy) * (b * xx)
  {}

  lemma OneMoreTerm(d: real, a: real, b: real, x: real, y: real)
    requires a >= 0.0 && b >= 0.0 && d * d <= a * b
    ensures (d + x * y) * (d + x * y) <= (a + x * x) * (b + y * y)
  {
    CrossTerm(d, a, b, x, y);
    ProductOfSquares(x, y);
    var m, xx, yy := x * y, x * x, y * y;
    assert (d + m) * (d + m) == d * d + 2.0 * (d * m) + m * m;
    assert (a + xx) * (b + yy) == a * b + a * yy + b * xx + xx * yy;
  }

  /** The Cauchy-Schwarz inequality for the three accumulators. */
  lemma {:induction false} CauchySchwarz(a: seq<real>, b: seq<real>)
    requires |a| == |b|
    ensures Dot(a, a) >= 0.0 && Dot(b, b) >= 0.0
    ensures Dot(a, b) * Dot(a, b) <= Dot(a, a) * Dot(b, b)
  {
    if a != [] {
      var n := |a| - 1;
      CauchySchwarz(a[..n], b[..n]);
      OneMoreTerm(Dot(a[..n], b[..n]), Dot(a[..n], a[..n]), Dot(b[..n], b[..n]), a[n], b[n]);
      SquareNonNegative(a[n]);
      SquareNonNegative(b[n]);
    }
  }

  /** `cosineSimilarity`, `rootA` and `rootB` being the square roots of the two norms. */
  function Cosine(a: seq<real>, b: seq<real>, rootA: real, rootB: real): real {
    if |a| != |b| || a == [] then 0.0
    else if rootA * rootB < 0.0000000001 then 0.0
    else Dot(a, b) / (rootA * rootB)
  }

  ghost predicate IsRoot(root: real, x: real) { root >= 0.0 && root * root == x }

  lemma {:induction false} DotSymmetric(a: seq<real>, b: seq<real>)
    requires |a| == |b|
    ensures Dot(a, b) == Dot(b, a)
  {
    if a != [] { DotSymmetric(a[..|a| - 1], b[..|a| - 1]); }
  }

  lemma QuotientBound(d: real, m: real)
    requires m > 0.0 && -m <= d <= m
    ensures -1.0 <= d / m <= 1.0
  {
    var r := d / m;
    assert r * m == d;
    assert r > 1.0 ==> (r - 1.0) * m > 0.0;
    assert r < -1.0 ==> (r + 1.0) * m < 0.0;
  }

  lemma UnitSquare(r: real)
    requires -1.0 <= r <= 1.0
    ensures r * r <= 1.0
  {
    if r >= 0.0 {
      ScaleInequality(r, 1.0, r);
    } else {
      var p := -r;
      ScaleInequality(p, 1.0, p);
      assert p * p == r * r;
    }
  }

  lemma RatioBound(d: real, m: real)
    requires m > 0.0 && d * d <= m * m
    ensures (d / m) * (d / m) <= 1.0
  {
    SquareMonotone(d, m);
    assert (-d) * (-d) == d * d;
    SquareMonotone(-d, m);
    QuotientBound(d, m);
    UnitSquare(d / m);
  }

  /** The product of the roots is the root of the product. */
  lemma RootsMultiply(rootA: real, rootB: real, x: real, y: real)
    requires IsRoot(rootA, x) && IsRoot(rootB, y)
    ensures IsRoot(rootA * rootB, x * y)
  {
    ProductOfSquares(rootA, rootB);
    ScaleInequality(0.0, rootA, rootB);
  }

  lemma RatioToRoot(d: real, m: real, n: real)
    requires IsRoot(m, n) && m > 0.0 && d * d <= n
    ensures (d / m) * (d / m) <= 1.0
  {
    RatioBound(d, m);
  }

  ghost predicate IsProduct(m: real, a: real, b: real) { m == a * b }
  ghost predicate SquareWithin(d: real, n: real) { d * d <= n }
  ghost predicate IsQuotient(c: real, d: real, m: real) { m > 0.0 && c == d / m }

  /** What Cauchy-Schwarz means for the quotient by the product of the roots. */
  lemma RatioToRoots(c: real, d: real, x: real, y: real, rootA: real, rootB: real, m: real, n: real)
    requires IsRoot(rootA, x) && IsRoot(rootB, y) && IsProduct(m, rootA, rootB) && IsProduct(n, x, y)
    requires SquareWithin(d, n) && IsQuotient(c, d, m)
    ensures SquareWithin(c, 1.0)
  {
    assert IsRoot(m, n) by { RootsMultiply(rootA, rootB, x, y); }
    RatioToRoot(d, m, n);
  }

  lemma CosineQuotient(a: seq<real>, b: seq<real>, rootA: real, rootB: real) returns (m: real, n: real)
    requires |a| == |b| && a != [] && rootA * rootB >= 0.0000000001
    ensures IsProduct(m, rootA, rootB) && IsProduct(n, Dot(a, a), Dot(b, b)) && SquareWithin(Dot(a, b), n)
    ensures IsQuotient(Cosine(a, b, rootA, rootB), Dot(a, b), m)
    ensures Cosine(a, b, rootA, rootB) == Cosine(b, a, rootB, rootA)
  {
    CauchySchwarz(a, b);
    DotSymmetric(a, b);
    hide Dot;
    m, n := rootA * rootB, Dot(a, a) * Dot(b, b);
    assert rootB * rootA == m;
  }

  /** The similarity lies between -1 and 1 and does not depend on the order. */
  lemma CosineBounded(a: seq<real>, b: seq<real>, rootA: real, rootB: real)
    requires |a| == |b| ==> IsRoot(rootA, Dot(a, a)) && IsRoot(rootB, Dot(b, b))
    ensures var c := Cosine(a, b, rootA, rootB);
            && c * c <= 1.0
            && c == Cosine(b, a, rootB, rootA)
  {
    var c := Cosine(a, b, rootA, rootB);
    if |a| == |b| && a != [] && rootA * rootB >= 0.0000000001 {
      hide Dot, IsRoot, Cosine, IsProduct, IsQuotient;
      var m, n := CosineQuotient(a, b, rootA, rootB);
      RatioToRoots(c, Dot(a, b), Dot(a, a), Dot(b, b), rootA, rootB, m, n);
      assert SquareWithin(c, 1.0);
    } else {
      hide Dot, IsRoot;
    }
  }

  /** Products add up over any split of the vectors. */
  lemma {:induction false} DotSplits(a: seq<real>, b: seq<real>, c: seq<real>, d: seq<real>)
    requires |a| == |b| && |c| == |d|
    ensures Dot(a + c, b + d) == Dot(a, b) + Dot(c, d)
    ensures forall x: real, y: real :: Dot([x], [y]) == x * y
    ensures Dot([], []) == 0.0
  {
    if c == [] {
      assert a + c == a && b + d == b;
    } else {
      var n := |c| - 1;
      assert (a + c)[..|a + c| - 1] == a + c[..n] && (b + d)[..|b + d| - 1] == b + d[..n];
      DotSplits(a, b, c[..n], d[..n]);
    }
  }

  /** The similarity is the inner product over the product of the lengths, and 0 for vectors
      of different lengths, empty ones, and ones that are too short to divide by. */
  lemma CosineMeaning(a: seq<real>, b: seq<real>, rootA: real, rootB: real)
    ensures var c := Cosine(a, b, rootA, rootB);
            var divides := |a| == |b| && a != [] && rootA * rootB >= 0.0000000001;
            && (!divides ==> c == 0.0)
            && (divides ==> c * (rootA * rootB) == Dot(a, b))
  {
    if |a| == |b| && a != [] && rootA * rootB >= 0.0000000001 {
      hide Dot;
      TimesQuotient(Dot(a, b), rootA * rootB);
    }
  }

  lemma TimesQuotient(d: real, m: real)
    requires m > 0.0
    ensures d / m * m == d
  {}

  /** `root` stands for `std::sqrt`. */
  method CosineSimilarity(a: seq<real>, b: seq<real>, root: real -> real) returns (c: real)
    ensures |a| != |b| ==> c == 0.0
    ensures |a| == |b| ==> c == Cosine(a, b, root(Dot(a, a)), root(Dot(b, b)))
  {
    if |a| != |b| || a == [] {
      return 0.0;
    }
    var dot, normA, normB := Accumulate(a, b);
    var denom := root(normA) * root(normB);
    CosineCases(a, b, root(normA), root(normB), denom);
    hide Cosine, Dot;
    if denom < 0.0000000001 {
      return 0.0;
    }
    c := dot / denom;
  }

  lemma CosineCases(a: seq<real>, b: seq<real>, rootA: real, rootB: real, denom: real)
    requires |a| == |b| && a != [] && denom == rootA * rootB
    ensures denom < 0.0000000001 ==> Cosine(a, b, rootA, rootB) == 0.0
    ensures denom >= 0.0000000001 ==> Cosine(a, b, rootA, rootB) == Dot(a, b) / denom
  {}

  // ----------------------------------------------------------------- top-k search

  /** The scored chunks, those without an embedding left out. */
  function Scored(index: seq<Document>, query: seq<real>, score: (seq<real>, seq<real>) -> real)
    : (r: seq<SearchResult>)
  {
    if index == [] then []
    else
      var n := |index| - 1;
      var d := index[n];
      Scored(index[..n], query, score)
      + if d.embedding == [] then []
        else [ResultOf(d, query, score)]
  }

  function ResultOf(d: Document, query: seq<real>, score: (seq<real>, seq<real>) -> real): SearchResult {
    SearchResult(d.fileId, d.filename, d.content, score(query, d.embedding), d.chunkIndex)
  }

  function Embedded(index: seq<Document>): seq<Document> {
    if index == [] then []
    else
      var n := |index| - 1;
      Embedded(index[..n]) + if index[n].embedding == [] then [] else [index[n]]
  }

  lemma CountSnoc(s: seq<Document>, x: Document, d: Document)
    ensures multiset(s + [x])[d] == multiset(s)[d] + if x == d then 1 else 0
  {}

  /** Exactly the chunks with an embedding are kept, each as often as it is indexed. */
  lemma {:induction false} EmbeddedIsExact(index: seq<Document>, d: Document)
    ensures multiset(Embedded(index))[d] == if d.embedding == [] then 0 else multiset(index)[d]
  {
    if index != [] {
      var n := |index| - 1;
      assert index == index[..n] + [index[n]];
      EmbeddedIsExact(index[..n], d);
      CountSnoc(index[..n], index[n], d);
      CountSnoc(Embedded(index[..n]), index[n], d);
    }
  }

  lemma {:induction false} EmbeddedInOrder(a: seq<Document>, b: seq<Document>)
    ensures Embedded(a + b) == Embedded(a) + Embedded(b)
  {
    if b == [] {
      assert a + b == a;
    } else {
      assert (a + b)[..|a + b| - 1] == a + b[..|b| - 1];
      EmbeddedInOrder(a, b[..|b| - 1]);
    }
  }

  /** A result carries the file, name, text and number of a chunk with an embedding, and its
      score. */
  lemma {:induction false} ScoredFromIndex(index: seq<Document>, query: seq<real>,
                                           score: (seq<real>, seq<real>) -> real)
    ensures forall r :: r in Scored(index, query, score) ==>
              exists d :: d in index && d.embedding != [] && r.fileId == d.fileId && r.filename == d.filename
                          && r.content == d.content && r.chunkIndex == d.chunkIndex
                          && r.score == score(query, d.embedding)
    ensures |Scored(index, query, score)| == |Embedded(index)|
  {
    if index != [] {
      var n := |index| - 1;
      assert index == index[..n] + [index[n]];
      ScoredFromIndex(index[..n], query, score);
    }
  }

  lemma {:induction false} ChunkIsScored(index: seq<Document>, query: seq<real>,
                                         score: (seq<real>, seq<real>) -> real, d: Document)
    requires d in index && d.embedding != []
    ensures SearchResult(d.fileId, d.filename, d.content, score(query, d.embedding), d.chunkIndex)
            in Scored(index, query, score)
  {
    var n := |index| - 1;
    assert index == index[..n] + [index[n]];
    if d != index[n] { ChunkIsScored(index[..n], query, score, d); }
  }

  /** Every chunk with an embedding gets its own result, in index order. */
  lemma {:induction false} ScoredIsExact(index: seq<Document>, query: seq<real>, score: (seq<real>, seq<real>) -> real)
    ensures var e := Embedded(index);
            Scored(index, query, score) == seq(|e|, i requires 0 <= i < |e| => ResultOf(e[i], query, score))
  {
    if index != [] {
      ScoredIsExact(index[..|index| - 1], query, score);
    }
  }

  predicate Descending(s: seq<SearchResult>) {
    forall i, j :: 0 <= i < j < |s| ==> s[i].score >= s[j].score
  }

  function Clamped(k: int, n: nat): nat { if k <= 0 then 0 else if k < n then k else n }

  /** `results` are `k` best elements of `all`, best first. */
  ghost predicate IsTopK(results: seq<SearchResult>, all: seq<SearchResult>, k: int) {
    && Descending(results)
    && |results| == Clamped(k, |all|)
    && multiset(results) <= multiset(all)
    && forall x, r :: x in multiset(all) - multiset(results) && r in results ==> x.score <= r.score
  }

  lemma CutMultiset(s: seq<SearchResult>, n: nat)
    requires n <= |s|
    ensures multiset(s) == multiset(s[..n]) + multiset(s[n..])
    ensures multiset(s) - multiset(s[..n]) == multiset(s[n..])
  {
    assert s == s[..n] + s[n..];
  }

  lemma TailBelowHead(s: seq<SearchResult>, n: nat, x: SearchResult, r: SearchResult)
    requires Descending(s) && n <= |s| && x in s[n..] && r in s[..n]
    ensures x.score <= r.score
  {
    var j :| 0 <= j < |s| - n && s[n..][j] == x;
    var i :| 0 <= i < n && s[..n][i] == r;
    assert s[n + j] == x && s[i] == r;
  }

  lemma SameSize(a: seq<SearchResult>, b: seq<SearchResult>)
    requires multiset(a) == multiset(b)
    ensures |a| == |b|
  {
    assert |multiset(a)| == |a| && |multiset(b)| == |b|;
  }

  lemma EmptyDescends()
    ensures Descending([])
  {}

  /** Cutting any descending arrangement gives a top-k list. */
  lemma PrefixIsTopK(sorted: seq<SearchResult>, all: seq<SearchResult>, k: int)
    requires Descending(sorted) && multiset(sorted) == multiset(all)
    ensures IsTopK(sorted[..Clamped(k, |sorted|)], all, k)
  {
    var n := Clamped(k, |sorted|);
    var results, rest := sorted[..n], sorted[n..];
    SameSize(sorted, all);
    CutMultiset(sorted, n);
    assert Descending(results);
    forall x: SearchResult, r: SearchResult | x in multiset(rest) && r in results ensures x.score <= r.score {
      hide Descending;
      TailBelowHead(sorted, n, x, r);
    }
  }

  /** Stands for std::sort: some descending arrangement. */
  method SortByScore(s: seq<SearchResult>) returns (r: seq<SearchResult>)
    ensures Descending(r) && multiset(r) == multiset(s)
  {
    r := [];
    for i := 0 to |s|
      invariant Descending(r) && multiset(r) == multiset(s[..i])
    {
      assert s[..i + 1] == s[..i] + [s[i]];
      r := Insert(r, s[i]);
    }
    assert s[..|s|] == s;
  }

  lemma InsertedDescending(s: seq<SearchResult>, at: nat, x: SearchResult)
    requires Descending(s) && at <= |s|
    requires forall i :: 0 <= i < at ==> s[i].score >= x.score
    requires at < |s| ==> s[at].score < x.score
    ensures Descending(s[..at] + [x] + s[at..])
  {
    forall i | at <= i < |s| ensures s[i].score <= x.score { assert s[at].score >= s[i].score || i == at; }
  }

  method Insert(s: seq<SearchResult>, x: SearchResult) returns (r: seq<SearchResult>)
    requires Descending(s)
    ensures Descending(r) && multiset(r) == multiset(s) + multiset{x}
  {
    var at := 0;
    while at < |s| && s[at].score >= x.score
      invariant 0 <= at <= |s|
      invariant forall i :: 0 <= i < at ==> s[i].score >= x.score
    {
      at := at + 1;
    }
    r := s[..at] + [x] + s[at..];
    InsertedDescending(s, at, x);
    InsertedMultiset(s, at, x);
  }

  lemma InsertedMultiset(s: seq<SearchResult>, at: nat, x: SearchResult)
    requires at <= |s|
    ensures multiset(s[..at] + [x] + s[at..]) == multiset(s) + multiset{x}
  {
    hide *;
    assert s == s[..at] + s[at..];
    assert multiset(s[..at] + [x] + s[at..]) == multiset(s[..at]) + multiset{x} + multiset(s[at..]);
  }

  // ------------------------------------------------------------------ aggregation

  /** The best result of each file, as handleSearch collects them. */
  function BestPerFile(results: seq<SearchResult>): map<int, SearchResult> {
    if results == [] then map[]
    else
      var n := |results| - 1;
      var best, r := BestPerFile(results[..n]), results[n];
      if r.fileId !in best || r.score > best[r.fileId].score then best[r.fileId := r] else best
  }

  method Aggregate(results: seq<SearchResult>) returns (best: map<int, SearchResult>)
    ensures best == BestPerFile(results)
  {
    best := map[];
    for i := 0 to |results|
      invariant best == BestPerFile(results[..i])
    {
      assert results[..i + 1][..i] == results[..i];
      var r := results[i];
      if r.fileId !in best || r.score > best[r.fileId].score {
        best := best[r.fileId := r];
      }
    }
    assert results[..|results|] == results;
  }

  lemma {:induction false} BestIsBest(results: seq<SearchResult>)
    ensures var best := BestPerFile(results);
            && (forall r :: r in results ==> r.fileId in best && r.score <= best[r.fileId].score)
            && forall f :: f in best ==> best[f].fileId == f && best[f] in results
  {
    if results != [] {
      var n := |results| - 1;
      BestIsBest(results[..n]);
      assert results == results[..n] + [results[n]];
    }
  }

  /** Among equal scores the first result of a file is kept. */
  lemma {:induction false} BestIsFirst(results: seq<SearchResult>, f: int) returns (i: nat)
    requires f in BestPerFile(results)
    ensures i < |results| && results[i] == BestPerFile(results)[f]
    ensures forall j :: 0 <= j < i && results[j].fileId == f ==> results[j].score < results[i].score
  {
    var n := |results| - 1;
    var before := BestPerFile(results[..n]);
    BestIsBest(results[..n]);
    assert results == results[..n] + [results[n]];
    if f in before && BestPerFile(results)[f] == before[f] {
      i := BestIsFirst(results[..n], f);
    } else {
      i := n;
      forall j | 0 <= j < n && results[j].fileId == f ensures results[j].score < results[n].score {
        assert results[j] in results[..n];
      }
    }
  }

  /** Each file found appears once, under its own id, with the best score any of its chunks
      in the whole index has; and no chunk of a file that is not listed beats a listed one. */
  lemma AggregationIsGlobal(all: seq<SearchResult>, results: seq<SearchResult>, k: int)
    requires IsTopK(results, all, k)
    ensures var best := BestPerFile(results);
            && (forall f :: f in best ==> best[f].fileId == f && best[f] in all)
            && (forall f, x :: f in best && x in all && x.fileId == f ==> x.score <= best[f].score)
            && (forall f, x :: f in best && x in all && x.fileId !in best ==> x.score <= best[f].score)
  {
    BestIsBest(results);
    var best := BestPerFile(results);
    forall f | f in best ensures best[f] in all {
      assert best[f] in multiset(results);
      assert best[f] in multiset(all);
    }
    forall f, x | f in best && x in all && x !in results ensures x.score <= best[f].score {
      assert x in multiset(all) && x !in multiset(results);
      assert x in multiset(all) - multiset(results);
    }
  }

  /** The same of the index itself: each file kept is described by one of its own chunks,
      has the best score of all its chunks in the index, and no chunk of a file that is not
      kept beats a kept one. */
  lemma SearchIsGlobal(index: seq<Document>, query: seq<real>, score: (seq<real>, seq<real>) -> real,
                       results: seq<SearchResult>, k: int)
    requires IsTopK(results, Scored(index, query, score), k)
    ensures var best := BestPerFile(results);
            && (forall f :: f in best ==>
                  exists d :: d in index && d.embedding != [] && d.fileId == f == best[f].fileId
                              && best[f].filename == d.filename && best[f].content == d.content
                              && best[f].chunkIndex == d.chunkIndex && best[f].score == score(query, d.embedding))
            && (forall d :: d in index && d.embedding != [] && d.fileId in best ==>
                  score(query, d.embedding) <= best[d.fileId].score)
            && (forall d, f :: d in index && d.embedding != [] && d.fileId !in best && f in best ==>
                  score(query, d.embedding) <= best[f].score)
  {
    var best := BestPerFile(results);
    BestIsDescribed(index, query, score, results, k);
    forall d | d in index && d.embedding != []
      ensures d.fileId in best ==> score(query, d.embedding) <= best[d.fileId].score
      ensures forall f :: d.fileId !in best && f in best ==> score(query, d.embedding) <= best[f].score
    {
      BestIsHighest(index, query, score, results, k, d);
    }
  }

  lemma BestIsDescribed(index: seq<Document>, query: seq<real>, score: (seq<real>, seq<real>) -> real,
                        results: seq<SearchResult>, k: int)
    requires IsTopK(results, Scored(index, query, score), k)
    ensures var best := BestPerFile(results);
            forall f :: f in best ==>
              exists d :: d in index && d.embedding != [] && d.fileId == f == best[f].fileId
                          && best[f].filename == d.filename && best[f].content == d.content
                          && best[f].chunkIndex == d.chunkIndex && best[f].score == score(query, d.embedding)
  {
    AggregationIsGlobal(Scored(index, query, score), results, k);
    ScoredFromIndex(index, query, score);
  }

  lemma BestIsHighest(index: seq<Document>, query: seq<real>, score: (seq<real>, seq<real>) -> real,
                      results: seq<SearchResult>, k: int, d: Document)
    requires IsTopK(results, Scored(index, query, score), k) && d in index && d.embedding != []
    ensures var best := BestPerFile(results);
            && (d.fileId in best ==> score(query, d.embedding) <= best[d.fileId].score)
            && (d.fileId !in best ==> forall f :: f in best ==> score(query, d.embedding) <= best[f].score)
  {
    AggregationIsGlobal(Scored(index, query, score), results, k);
    ChunkIsScored(index, query, score, d);
  }

  // -------------------------------------------------------------------- the class

  function WithoutFile(index: seq<Document>, fileId: int): (r: seq<Document>) {
    if index == [] then []
    else
      var n := |index| - 1;
      WithoutFile(index[..n], fileId) + if index[n].fileId == fileId then [] else [index[n]]
  }

  /** Removing a file leaves exactly the other documents, each as often as before. */
  lemma {:induction false} RemovalIsExact(index: seq<Document>, fileId: int, d: Document)
    ensures multiset(WithoutFile(index, fileId))[d] == if d.fileId == fileId then 0 else multiset(index)[d]
  {
    if index != [] {
      var n := |index| - 1;
      RemovalIsExact(index[..n], fileId, d);
      CountSnoc(index[..n], index[n], d);
      CountSnoc(WithoutFile(index[..n], fileId), index[n], d);
      assert index == index[..n] + [index[n]];
    }
  }

  lemma {:induction false} RemovalKeepsOrder(a: seq<Document>, b: seq<Document>, fileId: int)
    ensures WithoutFile(a + b, fileId) == WithoutFile(a, fileId) + WithoutFile(b, fileId)
  {
    if b == [] {
      assert a + b == a;
    } else {
      assert (a + b)[..|a + b| - 1] == a + b[..|b| - 1];
      RemovalKeepsOrder(a, b[..|b| - 1], fileId);
    }
  }

  /** What a search answers, said of the index: at most `topK` results, as many as there are
      chunks to fill them, each one a chunk's own, best first, and nothing better left out. */
  lemma TopKOfIndex(index: seq<Document>, query: seq<real>, score: (seq<real>, seq<real>) -> real,
                    results: seq<SearchResult>, topK: int)
    requires IsTopK(results, Scored(index, query, score), topK)
    ensures var n := |Embedded(index)|;
            |results| == if topK <= 0 then 0 else if topK < n then topK else n
    ensures forall i, j :: 0 <= i < j < |results| ==> results[i].score >= results[j].score
    ensures forall r :: r in results ==>
              exists d :: d in index && d.embedding != [] && r.fileId == d.fileId && r.filename == d.filename
                          && r.content == d.content && r.chunkIndex == d.chunkIndex
                          && r.score == score(query, d.embedding)
    ensures forall d :: d in index && d.embedding != [] ==>
              || SearchResult(d.fileId, d.filename, d.content, score(query, d.embedding), d.chunkIndex) in results
              || forall r :: r in results ==> score(query, d.embedding) <= r.score
  {
    TopKFromIndex(index, query, score, results, topK);
    forall d | d in index && d.embedding != []
      ensures || SearchResult(d.fileId, d.filename, d.content, score(query, d.embedding), d.chunkIndex) in results
              || forall r :: r in results ==> score(query, d.embedding) <= r.score
    {
      ChunkIsScored(index, query, score, d);
      var all := Scored(index, query, score);
      var x := SearchResult(d.fileId, d.filename, d.content, score(query, d.embedding), d.chunkIndex);
      if x !in results {
        assert x in multiset(all) && x !in multiset(results);
        assert x in multiset(all) - multiset(results);
      }
    }
  }

  lemma TopKFromIndex(index: seq<Document>, query: seq<real>, score: (seq<real>, seq<real>) -> real,
                      results: seq<SearchResult>, topK: int)
    requires IsTopK(results, Scored(index, query, score), topK)
    ensures |results| == Clamped(topK, |Embedded(index)|)
    ensures forall r :: r in results ==>
              exists d :: d in index && d.embedding != [] && r.fileId == d.fileId && r.filename == d.filename
                          && r.content == d.content && r.chunkIndex == d.chunkIndex
                          && r.score == score(query, d.embedding)
  {
    ScoredFromIndex(index, query, score);
    forall r | r in results ensures r in Scored(index, query, score) {
      assert r in multiset(results);
      assert r in multiset(Scored(index, query, score));
    }
  }

  class VectorStore {
    var index: seq<Document>

    constructor ()
      ensures index == []
    {
      index := [];
    }

    method AddDocument(doc: Document)
      modifies this
      ensures index == old(index) + [doc]
    {
      index := index + [doc];
    }

    method RemoveByFileId(fileId: int)
      modifies this
      ensures index == WithoutFile(old(index), fileId)
    {
      var kept := [];
      for i := 0 to |index|
        invariant index == old(index) && kept == WithoutFile(index[..i], fileId)
      {
        assert index[..i + 1][..i] == index[..i];
        if index[i].fileId != fileId {
          kept := kept + [index[i]];
        }
      }
      assert index[..|index|] == index;
      index := kept;
    }

    method Search(query: seq<real>, topK: int, score: (seq<real>, seq<real>) -> real)
      returns (results: seq<SearchResult>)
      ensures query == [] ==> results == []
      ensures query != [] ==> IsTopK(results, Scored(index, query, score), topK)
      ensures query != [] ==>
                |results| == if topK <= 0 then 0 else if topK < |Embedded(index)| then topK else |Embedded(index)|
      ensures forall r :: r in results ==>
                exists d :: d in index && d.embedding != [] && r.fileId == d.fileId && r.filename == d.filename
                            && r.content == d.content && r.chunkIndex == d.chunkIndex
                            && r.score == score(query, d.embedding)
    {
      hide Descending;
      if index == [] || query == [] {
        results := [];
        assert Descending([]) by { EmptyDescends(); }
        PrefixIsTopK([], [], topK);
        return;
      }
      var scored := [];
      for i := 0 to |index|
        invariant scored == Scored(index[..i], query, score)
      {
        assert index[..i + 1][..i] == index[..i];
        var d := index[i];
        if d.embedding != [] {
          scored := scored + [ResultOf(d, query, score)];
        }
      }
      assert index[..|index|] == index;
      var all := scored;
      scored := SortByScore(scored);
      var count := if topK < |scored| then topK else |scored|;
      results := [];
      for i := 0 to if count < 0 then 0 else count
        invariant results == scored[..i]
      {
        results := results + [scored[i]];
      }
      PrefixIsTopK(scored, all, topK);
      TopKOfIndex(index, query, score, results, topK);
    }
  }
}
