/** Incident memory search: the cosine helper, and the index-style path against the simple one. */
module Memory {
  import opened Wrappers
  import opened Sorting
  import opened Lists
  import opened Rounding

  type Vector = seq<real>

  function Dot(a: Vector, b: Vector): real
    requires |a| == |b|
  {
    if a == [] then 0.0 else a[0] * b[0] + Dot(a[1..], b[1..])
  }

  /** `n` is `sqrt(sum(x * x))`. */
  ghost predicate IsNorm(n: real, v: Vector) {
    n >= 0.0 && n * n == Dot(v, v)
  }

  /** `calculate_cosine_similarity`, given the two square roots. */
  function Cosine(a: Vector, b: Vector, normA: real, normB: real): real {
    if a == [] || b == [] || |a| != |b| then 0.0
    else if normA == 0.0 || normB == 0.0 then 0.0
    else Dot(a, b) / (normA * normB)
  }

  // ----- Cauchy-Schwarz -----

  /** `p * a - q * b`, component by component. */
  function Combine(p: real, a: Vector, q: real, b: Vector): (c: Vector)
    requires |a| == |b|
    ensures |c| == |a|
  {
    if a == [] then [] else [p * a[0] - q * b[0]] + Combine(p, a[1..], q, b[1..])
  }

  lemma SquareExpands(p: real, x: real, q: real, y: real)
    ensures (p * x - q * y) * (p * x - q * y) == p * p * (x * x) - 2.0 * (p * q) * (x * y) + q * q * (y * y)
  {
  }

  lemma Distributes(k: real, x: real, y: real)
    ensures k * (x + y) == k * x + k * y
  {
  }

  lemma SquareStep(p: real, x: real, q: real, y: real, aa: real, ab: real, bb: real)
    ensures (p * x - q * y) * (p * x - q * y) + (p * p * aa - 2.0 * (p * q) * ab + q * q * bb)
         == p * p * (x * x + aa) - 2.0 * (p * q) * (x * y + ab) + q * q * (y * y + bb)
  {
    SquareExpands(p, x, q, y);
    Distributes(p * p, x * x, aa);
    Distributes(2.0 * (p * q), x * y, ab);
    Distributes(q * q, y * y, bb);
  }

  lemma {:induction false} CombineSquare(p: real, a: Vector, q: real, b: Vector)
    requires |a| == |b|
    ensures Dot(Combine(p, a, q, b), Combine(p, a, q, b))
         == p * p * Dot(a, a) - 2.0 * (p * q) * Dot(a, b) + q * q * Dot(b, b)
  {
    if a == [] {
    } else {
      CombineSquare(p, a[1..], q, b[1..]);
      SquareStep(p, a[0], q, b[0], Dot(a[1..], a[1..]), Dot(a[1..], b[1..]), Dot(b[1..], b[1..]));
      assert Combine(p, a, q, b)[1..] == Combine(p, a[1..], q, b[1..]);
    }
  }

  lemma {:induction false} SquareNonNegative(v: Vector)
    ensures Dot(v, v) >= 0.0
  {
    if v == [] {
    } else {
      SquareNonNegative(v[1..]);
      assert v[0] * v[0] >= 0.0;
    }
  }

  lemma PositiveProduct(x: real, y: real, product: real)
    requires product == x * y && ((x > 0.0 && y > 0.0) || (x < 0.0 && y < 0.0))
    ensures product > 0.0
  {
  }

  lemma SquarePositive(x: real, square: real)
    requires square == x * x && x != 0.0
    ensures square > 0.0
  {
    PositiveProduct(x, x, square);
  }

  lemma ZeroFromSquares(x: real, square: real, rest: real)
    requires square == x * x && square + rest == 0.0 && rest >= 0.0
    ensures x == 0.0
  {
    if x != 0.0 {
      SquarePositive(x, square);
    }
  }

  lemma {:induction false} ZeroVectorDot(a: Vector, b: Vector)
    requires |a| == |b| && Dot(b, b) == 0.0
    ensures Dot(a, b) == 0.0
  {
    if b == [] {
    } else {
      SquareNonNegative(b[1..]);
      ZeroFromSquares(b[0], b[0] * b[0], Dot(b[1..], b[1..]));
      ZeroVectorDot(a[1..], b[1..]);
    }
  }

  /** (sum a*b)^2 <= (sum a^2)(sum b^2), for all real vectors of equal length. */
  lemma CauchySchwarz(a: Vector, b: Vector)
    requires |a| == |b|
    ensures Dot(a, b) * Dot(a, b) <= Dot(a, a) * Dot(b, b)
  {
    hide Dot, Combine;
    SquareNonNegative(b);
    if Dot(b, b) == 0.0 {
      ZeroVectorDot(a, b);
    } else {
      CombineSquare(Dot(b, b), a, Dot(a, b), b);
      var c := Combine(Dot(b, b), a, Dot(a, b), b);
      SquareNonNegative(c);
      Discriminant(Dot(a, a), Dot(a, b), Dot(b, b), Dot(c, c));
    }
  }

  lemma Discriminant(aa: real, ab: real, bb: real, cc: real)
    requires bb > 0.0 && cc == bb * bb * aa - 2.0 * (bb * ab) * ab + ab * ab * bb && cc >= 0.0
    ensures ab * ab <= aa * bb
  {
    var gap := ab * ab - aa * bb;
    assert cc == -(bb * gap);
    if gap > 0.0 {
      PositiveProduct(bb, gap, bb * gap);
    }
  }

  lemma UpperFromSquares(x: real, m: real)
    requires m > 0.0 && x * x <= m * m
    ensures x <= m
  {
    if x > m {
      PositiveProduct(x - m, x + m, x * x - m * m);
    }
  }

  lemma QuotientAtMostOne(x: real, m: real)
    requires m > 0.0 && x <= m
    ensures x / m <= 1.0
  {
    var q := x / m;
    assert q * m == x;
    if q > 1.0 {
      PositiveProduct(q - 1.0, m, q * m - m);
    }
  }

  lemma QuotientOfNegation(x: real, m: real)
    requires m > 0.0
    ensures (-x) / m == -(x / m)
  {
    var (q, p) := (x / m, (-x) / m);
    assert q * m == x && p * m == -x;
    assert (p + q) * m == 0.0;
    if p + q > 0.0 {
      PositiveProduct(p + q, m, 0.0);
    } else if p + q < 0.0 {
      PositiveProduct(p + q, -m, 0.0);
    }
  }

  lemma SquareOfProduct(x: real, y: real)
    ensures (x * y) * (x * y) == (x * x) * (y * y)
  {
  }

  /** The helper's result is a cosine. */
  lemma CosineBounded(a: Vector, b: Vector, normA: real, normB: real)
    requires IsNorm(normA, a) && IsNorm(normB, b)
    ensures -1.0 <= Cosine(a, b, normA, normB) <= 1.0
  {
    if a != [] && |a| == |b| && normA != 0.0 && normB != 0.0 {
      var (m, d) := (normA * normB, Dot(a, b));
      PositiveProduct(normA, normB, m);
      CauchySchwarz(a, b);
      SquareOfProduct(normA, normB);
      assert (-d) * (-d) == d * d;
      UpperFromSquares(d, m);
      UpperFromSquares(-d, m);
      QuotientAtMostOne(d, m);
      QuotientAtMostOne(-d, m);
      QuotientOfNegation(d, m);
    }
  }

  /** A non-zero vector has similarity exactly 1 with itself. */
  lemma SelfSimilarity(v: Vector, norm: real)
    requires IsNorm(norm, v) && exists i | 0 <= i < |v| :: v[i] != 0.0
    ensures Cosine(v, v, norm, norm) == 1.0
  {
    var i :| 0 <= i < |v| && v[i] != 0.0;
    NonZeroSquare(v, i);
    var d := Dot(v, v);
    assert norm * norm == d && d > 0.0;
    assert norm != 0.0;
    assert d / d == 1.0;
  }

  lemma {:induction false} NonZeroSquare(v: Vector, i: nat)
    requires i < |v| && v[i] != 0.0
    ensures Dot(v, v) > 0.0
  {
    assert v[0] * v[0] >= 0.0;
    if i == 0 {
      SquareNonNegative(v[1..]);
      if Dot(v, v) == 0.0 {
        ZeroFromSquares(v[0], v[0] * v[0], Dot(v[1..], v[1..]));
      }
    } else {
      NonZeroSquare(v[1..], i - 1);
    }
  }

  // ----- The two search paths -----

  datatype Record = Record(id: string, service: string, classification: string, incident: string, embedding: Option<Vector>)

  datatype Criteria = Criteria(service: Option<string>, classification: Option<string>, excludeIncident: Option<string>)

  predicate Admits(f: Criteria, r: Record) {
    && (f.service.Some? && f.service.value != "" ==> r.service == f.service.value)
    && (f.classification.Some? && f.classification.value != "" ==> r.classification == f.classification.value)
    && (f.excludeIncident.Some? ==> r.incident != f.excludeIncident.value)
  }

  function Take(s: seq<Record>, n: nat): seq<Record> {
    if n <= |s| then s[..n] else s
  }

  /** Descending similarity, which is ascending cosine distance. */
  function Nearer(sim: Record -> real): (Record, Record) -> bool {
    (x: Record, y: Record) => sim(x) >= sim(y)
  }

  lemma NearerTotal(sim: Record -> real)
    ensures TotalPreorder(Nearer(sim))
  {
  }

  /** What the loop over the database's rows keeps: passing rows, until `k` of them are found. */
  function Pick(rows: seq<Record>, k: nat, min: real, sim: Record -> real): seq<Record> {
    if rows == [] || k == 0 then []
    else if sim(rows[0]) >= min then [rows[0]] + Pick(rows[1..], k - 1, min, sim)
    else Pick(rows[1..], k, min, sim)
  }

  function HasEmbedding(r: Record): bool {
    r.embedding.Some? && r.embedding.value != []
  }

  function Where(f: Criteria): Record -> bool {
    r => Admits(f, r)
  }

  function Above(min: real, sim: Record -> real): Record -> bool {
    r => sim(r) >= min
  }

  function Scored(f: Criteria, min: real, sim: Record -> real): Record -> bool {
    r => Admits(f, r) && HasEmbedding(r) && sim(r) >= min
  }

  /** The fallback: filter everything, sort, cut. */
  function SearchAll(rs: seq<Record>, f: Criteria, k: nat, min: real, sim: Record -> real): seq<Record> {
    Take(Sort(Filter(rs, Scored(f, min, sim)), Nearer(sim)), k)
  }

  /** The database's answer to ORDER BY distance LIMIT 2k over the rows the WHERE clause admits; the
      order of rows at equal distance is the database's choice. */
  ghost predicate NearestRows(rows: seq<Record>, ordered: seq<Record>, rs: seq<Record>, f: Criteria, k: nat, sim: Record -> real) {
    && multiset(ordered) == multiset(Filter(rs, Where(f)))
    && SortedBy(ordered, Nearer(sim))
    && rows == Take(ordered, 2 * k)
  }

  /** Every row the WHERE clause admits has an embedding. */
  ghost predicate Embedded(rs: seq<Record>, f: Criteria) {
    forall r | r in rs && Admits(f, r) :: HasEmbedding(r)
  }

  /** The PostgreSQL branch of `search_similar`, given the rows the query returned. */
  method SearchDatabase(rows: seq<Record>, k: nat, min: real, sim: Record -> real) returns (results: seq<Record>)
    requires |rows| <= 2 * k
    ensures results == Pick(rows, k, min, sim)
  {
    results := [];
    var i := 0;
    while i < |rows|
      invariant 0 <= i <= |rows|
      invariant |results| < k || rows == []
      invariant |results| <= k
      invariant results + Pick(rows[i..], k - |results|, min, sim) == Pick(rows, k, min, sim)
    {
      var r := rows[i];
      assert rows[i..][1..] == rows[i + 1..];
      if sim(r) >= min {
        assert results + ([r] + Pick(rows[i + 1..], k - |results| - 1, min, sim))
            == (results + [r]) + Pick(rows[i + 1..], k - |results| - 1, min, sim);
        results := results + [r];
        if |results| >= k {
          return;
        }
      }
      i := i + 1;
    }
  }

  /** The fallback branch of `search_similar`. */
  method SearchInMemory(rs: seq<Record>, f: Criteria, k: nat, min: real, sim: Record -> real) returns (results: seq<Record>)
    ensures results == SearchAll(rs, f, k, min, sim)
  {
    hide Sort;
    var scored: seq<Record> := [];
    for i := 0 to |rs|
      invariant scored == Filter(rs[..i], Scored(f, min, sim))
    {
      assert rs[..i + 1] == rs[..i] + [rs[i]];
      FilterAppend(rs[..i], rs[i], Scored(f, min, sim));
      if HasEmbedding(rs[i]) && Admits(f, rs[i]) {
        if sim(rs[i]) >= min {
          scored := scored + [rs[i]];
        }
      }
    }
    assert rs[..|rs|] == rs;
    results := Take(Sort(scored, Nearer(sim)), k);
  }

  lemma {:induction false} NonePass(s: seq<Record>, k: nat, min: real, sim: Record -> real)
    requires forall i | 0 <= i < |s| :: sim(s[i]) < min
    ensures Filter(s, Above(min, sim)) == []
    ensures Pick(s, k, min, sim) == []
  {
    if s == [] {
    } else {
      NonePass(s[1..], k, min, sim);
    }
  }

  /** On a sorted list the passing rows come first, so the loop finds the first `k` of them before it
      looks past row `k`: the 2k window loses nothing. */
  lemma {:induction false} PickSorted(s: seq<Record>, m: nat, k: nat, min: real, sim: Record -> real)
    requires SortedBy(s, Nearer(sim)) && k <= m
    ensures Pick(Take(s, m), k, min, sim) == Take(Filter(s, Above(min, sim)), k)
  {
    if s != [] && k > 0 {
      if sim(s[0]) >= min {
        assert Take(s, m)[0] == s[0] && Take(s, m)[1..] == Take(s[1..], m - 1);
        PickSorted(s[1..], m - 1, k - 1, min, sim);
      } else {
        forall i | 0 <= i < |s| ensures sim(s[i]) < min {
          assert i > 0 ==> Nearer(sim)(s[0], s[i]);
        }
        NonePass(s, k, min, sim);
        NonePass(Take(s, m), k, min, sim);
      }
    }
  }

  /** Both paths sort the same rows: the passing ones. */
  lemma SamePassingRows(ordered: seq<Record>, rs: seq<Record>, f: Criteria, min: real, sim: Record -> real)
    requires multiset(ordered) == multiset(Filter(rs, Where(f))) && Embedded(rs, f)
    ensures multiset(Filter(ordered, Above(min, sim))) == multiset(Filter(rs, Scored(f, min, sim)))
  {
    hide Filter;
    var (a, b) := (Filter(ordered, Above(min, sim)), Filter(rs, Scored(f, min, sim)));
    forall x ensures multiset(a)[x] == multiset(b)[x] {
      FilterCount(ordered, Above(min, sim), x);
      FilterCount(rs, Where(f), x);
      FilterCount(rs, Scored(f, min, sim), x);
      assert x in rs <==> x in multiset(rs);
    }
  }

  lemma {:induction false} FilterSorted(s: seq<Record>, p: Record -> bool, leq: (Record, Record) -> bool)
    requires SortedBy(s, leq)
    ensures SortedBy(Filter(s, p), leq)
  {
    if s == [] {
    } else {
      FilterSorted(s[1..], p, leq);
      var rest := Filter(s[1..], p);
      forall j | 0 <= j < |rest| ensures leq(s[0], rest[j]) {
        FilterMember(s[1..], p, rest[j]);
        var i :| 0 <= i < |s[1..]| && s[1..][i] == rest[j];
        var n := i + 1;
        assert s[n] == rest[j];
      }
    }
  }

  /** What both paths cut at `k`: two sorted arrangements of the same rows. */
  lemma BothSorted(rows: seq<Record>, ordered: seq<Record>, rs: seq<Record>, f: Criteria, k: nat, min: real, sim: Record -> real)
    returns (a: seq<Record>, b: seq<Record>)
    requires NearestRows(rows, ordered, rs, f, k, sim) && Embedded(rs, f)
    ensures a == Filter(ordered, Above(min, sim)) && b == Sort(Filter(rs, Scored(f, min, sim)), Nearer(sim))
    ensures Pick(rows, k, min, sim) == Take(a, k) && SearchAll(rs, f, k, min, sim) == Take(b, k)
    ensures SortedBy(a, Nearer(sim)) && SortedBy(b, Nearer(sim)) && multiset(a) == multiset(b)
  {
    hide Filter, SortedBy, Admits, Pick, Nearer;
    PickSorted(ordered, 2 * k, k, min, sim);
    SamePassingRows(ordered, rs, f, min, sim);
    NearerTotal(sim);
    SortSorted(Filter(rs, Scored(f, min, sim)), Nearer(sim));
    FilterSorted(ordered, Above(min, sim), Nearer(sim));
    a, b := Filter(ordered, Above(min, sim)), Sort(Filter(rs, Scored(f, min, sim)), Nearer(sim));
  }

  ghost predicate DistinctScores(rs: seq<Record>, sim: Record -> real) {
    forall x, y | x in rs && y in rs && sim(x) == sim(y) :: x == y
  }

  /** With distinct similarities among the rows that pass filter and threshold, the database path returns
      exactly the fallback's list. */
  lemma SearchPathsAgree(rows: seq<Record>, ordered: seq<Record>, rs: seq<Record>, f: Criteria, k: nat, min: real, sim: Record -> real)
    requires NearestRows(rows, ordered, rs, f, k, sim) && Embedded(rs, f)
    requires DistinctScores(Filter(rs, Scored(f, min, sim)), sim)
    ensures Pick(rows, k, min, sim) == SearchAll(rs, f, k, min, sim)
  {
    hide Filter, SortedBy, Admits, Pick, Sort;
    var a, b := BothSorted(rows, ordered, rs, f, k, min, sim);
    var passing := Filter(rs, Scored(f, min, sim));
    NearerTotal(sim);
    forall x | x in a ensures x in passing {
      SameMembers(a, passing, x);
    }
    NoTies(a, passing, sim);
    SortedUnique(a, b, Nearer(sim));
  }

  lemma NoTies(a: seq<Record>, passing: seq<Record>, sim: Record -> real)
    requires (forall x | x in a :: x in passing) && DistinctScores(passing, sim)
    ensures TieFree(a, Nearer(sim))
  {
  }

  // ----- Ties -----

  function Scores(s: seq<Record>, sim: Record -> real): seq<real> {
    if s == [] then [] else [sim(s[0])] + Scores(s[1..], sim)
  }

  lemma {:induction false} ScoresAt(s: seq<Record>, sim: Record -> real)
    ensures |Scores(s, sim)| == |s|
    ensures forall i | 0 <= i < |s| :: Scores(s, sim)[i] == sim(s[i])
  {
    if s == [] {
    } else {
      ScoresAt(s[1..], sim);
    }
  }

  lemma {:induction false} ScoresConcat(s: seq<Record>, t: seq<Record>, sim: Record -> real)
    ensures Scores(s + t, sim) == Scores(s, sim) + Scores(t, sim)
  {
    if s == [] {
      assert s + t == t;
    } else {
      assert (s + t)[1..] == s[1..] + t;
      ScoresConcat(s[1..], t, sim);
    }
  }

  /** Rearranging records rearranges their similarities. */
  lemma {:induction false} ScoresMultiset(s: seq<Record>, t: seq<Record>, sim: Record -> real)
    requires multiset(s) == multiset(t)
    ensures multiset(Scores(s, sim)) == multiset(Scores(t, sim))
  {
    hide Scores;
    assert |multiset(s)| == |s| && |multiset(t)| == |t|;
    if s == [] {
    } else {
      SameMembers(s, t, s[0]);
      var i :| 0 <= i < |t| && t[i] == s[0];
      var (front, back) := (t[..i], t[i + 1..]);
      assert s == [s[0]] + s[1..] && t == front + ([s[0]] + back);
      Removed(s, t, s[0], s[1..], front, back);
      ScoresMultiset(s[1..], front + back, sim);
      ScoresConcat(front, back, sim);
      ScoresConcat(front, [s[0]] + back, sim);
      ScoresConcat([s[0]], back, sim);
      ScoresConcat([s[0]], s[1..], sim);
    }
  }

  lemma Removed(s: seq<Record>, t: seq<Record>, x: Record, rest: seq<Record>, front: seq<Record>, back: seq<Record>)
    requires multiset(s) == multiset(t) && s == [x] + rest && t == front + ([x] + back)
    ensures multiset(rest) == multiset(front + back)
  {
    assert multiset(rest) == multiset(s) - multiset{x};
    assert multiset(front + back) == multiset(t) - multiset{x};
  }

  function Descending(): (real, real) -> bool {
    (x: real, y: real) => x >= y
  }

  lemma {:induction false} ScoresSorted(s: seq<Record>, sim: Record -> real)
    requires SortedBy(s, Nearer(sim))
    ensures SortedBy(Scores(s, sim), Descending())
  {
    ScoresAt(s, sim);
    forall i, j | 0 <= i < j < |s| ensures Descending()(Scores(s, sim)[i], Scores(s, sim)[j]) {
      assert Nearer(sim)(s[i], s[j]);
    }
  }

  lemma ScoresTake(s: seq<Record>, k: nat, sim: Record -> real)
    ensures Scores(Take(s, k), sim) == if k <= |Scores(s, sim)| then Scores(s, sim)[..k] else Scores(s, sim)
  {
    ScoresAt(s, sim);
    ScoresAt(Take(s, k), sim);
  }

  /** Ties or not, whatever order the database breaks them in, both paths return the same similarities. */
  lemma SearchPathsSameScores(rows: seq<Record>, ordered: seq<Record>, rs: seq<Record>, f: Criteria, k: nat, min: real, sim: Record -> real)
    requires NearestRows(rows, ordered, rs, f, k, sim) && Embedded(rs, f)
    ensures Scores(Pick(rows, k, min, sim), sim) == Scores(SearchAll(rs, f, k, min, sim), sim)
  {
    hide Filter, SortedBy, Admits, Pick, Sort, Scores, NearestRows, Embedded, SearchAll, Take;
    var a, b := BothSorted(rows, ordered, rs, f, k, min, sim);
    ScoresMultiset(a, b, sim);
    ScoresSorted(a, sim);
    ScoresSorted(b, sim);
    assert TotalPreorder(Descending());
    SortedUnique(Scores(a, sim), Scores(b, sim), Descending());
    ScoresTake(a, k, sim);
    ScoresTake(b, k, sim);
  }

  // ----- Returned similarities -----

  /** With a non-negative threshold every returned similarity lies in [0, 1]. */
  lemma ResultSimilarityInRange(query: Vector, norm: real, norms: Record -> real, rs: seq<Record>, f: Criteria, k: nat, min: real,
                                sim: Record -> real, r: Record)
    requires min >= 0.0 && IsNorm(norm, query)
    requires forall x | x in rs && HasEmbedding(x) ::
               IsNorm(norms(x), x.embedding.value) && sim(x) == Cosine(query, x.embedding.value, norm, norms(x))
    requires r in SearchAll(rs, f, k, min, sim)
    ensures 0.0 <= Round4(sim(r)) <= 1.0
  {
    hide Filter, Sort, Cosine, IsNorm, Round4, Admits;
    var kept := Filter(rs, Scored(f, min, sim));
    SameMembers(kept, Sort(kept, Nearer(sim)), r);
    FilterMember(rs, Scored(f, min, sim), r);
    CosineBounded(query, r.embedding.value, norm, norms(r));
    Round4Unit(sim(r));
  }

  // ----- The results, told without the code's helpers -----

  /** The dot product is the sum of the componentwise products. */
  lemma {:induction false} DotSnoc(a: Vector, b: Vector, x: real, y: real)
    requires |a| == |b|
    ensures Dot([], []) == 0.0
    ensures Dot(a + [x], b + [y]) == Dot(a, b) + x * y
  {
    if a == [] {
      assert [x][1..] == [] && [y][1..] == [];
      assert a + [x] == [x] && b + [y] == [y];
    } else {
      assert (a + [x])[1..] == a[1..] + [x] && (b + [y])[1..] == b[1..] + [y];
      DotSnoc(a[1..], b[1..], x, y);
    }
  }

  /** The similarity is the number that, times both norms, gives the dot product; without a norm it is zero. */
  lemma CosineIs(a: Vector, b: Vector, normA: real, normB: real)
    requires |a| == |b| && a != [] && normA > 0.0 && normB > 0.0
    ensures Cosine(a, b, normA, normB) * (normA * normB) == Dot(a, b)
    ensures Cosine(a, b, 0.0, normB) == 0.0 && Cosine(a, b, normA, 0.0) == 0.0
  {
    PositiveProduct(normA, normB, normA * normB);
    var m := normA * normB;
    assert Dot(a, b) / m * m == Dot(a, b);
  }

  lemma CosineOfMismatch(a: Vector, b: Vector, normA: real, normB: real)
    requires |a| != |b|
    ensures Cosine(a, b, normA, normB) == 0.0
  {
  }

  /** The record meets every criterion that is set, has an embedding and reaches the threshold. */
  ghost predicate Eligible(r: Record, f: Criteria, min: real, sim: Record -> real) {
    && (match f.service
        case None => true
        case Some(name) => name == "" || r.service == name)
    && (match f.classification
        case None => true
        case Some(name) => name == "" || r.classification == name)
    && (match f.excludeIncident
        case None => true
        case Some(id) => r.incident != id)
    && (match r.embedding
        case None => false
        case Some(v) => v != [])
    && sim(r) >= min
  }

  lemma ScoredIff(r: Record, f: Criteria, min: real, sim: Record -> real)
    ensures Scored(f, min, sim)(r) <==> Eligible(r, f, min, sim)
  {
    AdmitsIff(r, f);
    assert Scored(f, min, sim)(r) == (Admits(f, r) && HasEmbedding(r) && sim(r) >= min);
  }

  lemma AdmitsIff(r: Record, f: Criteria)
    ensures Admits(f, r) <==>
            && (match f.service
                case None => true
                case Some(name) => name == "" || r.service == name)
            && (match f.classification
                case None => true
                case Some(name) => name == "" || r.classification == name)
            && (match f.excludeIncident
                case None => true
                case Some(id) => r.incident != id)
  {
  }

  lemma Taken(s: seq<Record>, k: nat, n: nat)
    requires n < k && n < |s|
    ensures s[n] in Take(s, k)
  {
    assert Take(s, k)[n] == s[n];
  }

  /** What a search returns: eligible records only, most similar first, at most `k` of them; and whatever
      eligible record it leaves out, it returns `k` others at least as similar. */
  lemma SearchIs(rs: seq<Record>, f: Criteria, k: nat, min: real, sim: Record -> real)
    ensures var found := SearchAll(rs, f, k, min, sim);
            && |found| <= k
            && (forall r | r in found :: r in rs && Eligible(r, f, min, sim))
            && (forall i, j | 0 <= i < j < |found| :: sim(found[i]) >= sim(found[j]))
            && (forall r | r in rs && Eligible(r, f, min, sim) && r !in found ::
                  |found| == k && forall x | x in found :: sim(x) >= sim(r))
  {
    hide Sort, Filter, Admits, Eligible;
    var kept := Filter(rs, Scored(f, min, sim));
    var sorted := Sort(kept, Nearer(sim));
    var found := SearchAll(rs, f, k, min, sim);
    NearerTotal(sim);
    SortSorted(kept, Nearer(sim));
    forall r ensures r in sorted <==> r in rs && Eligible(r, f, min, sim) {
      SameMembers(kept, sorted, r);
      FilterMember(rs, Scored(f, min, sim), r);
      ScoredIff(r, f, min, sim);
    }
    forall i, j | 0 <= i < j < |sorted| ensures sim(sorted[i]) >= sim(sorted[j]) {
      assert Nearer(sim)(sorted[i], sorted[j]);
    }
    forall r | r in sorted && r !in found ensures |found| == k && forall x | x in found :: sim(x) >= sim(r) {
      var n :| 0 <= n < |sorted| && sorted[n] == r;
      if n < k {
        Taken(sorted, k, n);
      }
      forall x | x in found ensures sim(x) >= sim(r) {
        var m :| 0 <= m < |found| && found[m] == x;
        assert sorted[m] == x && m < n;
      }
    }
  }
}
