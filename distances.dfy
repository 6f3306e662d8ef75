/** Pairwise species distances accumulated over a stream of value records
    (src/distances.py). Both distance functions walk every record, visit the
    unordered pairs of its species, file each observation under an
    orientation chosen by whether its first species already heads a row
    (the `Filing`), and finish every entry as sqrt(sum)/sqrt(size). They
    differ only in what one observation adds to the sum: that is the
    `Measure`. */
module Distances {
  import opened Common

  /** `defaultdict(dict)` of floats: species -> species -> value. */
  type Nested = map<string, map<string, real>>

  /** The finished distances, doubly keyed on species. */
  type Table = map<string, map<string, Dist>>

  /** The entry (a, b), or 0 when there is none. */
  function Get(m: Nested, a: string, b: string): real {
    if Has2(m, a, b) then m[a][b] else 0.0
  }

  // ---------------------------------------------------------------------
  // What one observation contributes
  // ---------------------------------------------------------------------

  /** `RatioL2` is scaled_ratio_l2; `AsWrittenCount` is scaled_count_pairs as
      written; `IntendedCount` is the comparison its documentation
      describes. */
  datatype Measure =
    | RatioL2
    | AsWrittenCount(threshold: real, above: bool)
    | IntendedCount(threshold: real, above: bool)

  /** mi/ma, or 0 when the larger value is 0. */
  function Ratio(x: real, y: real): real {
    if Max(x, y) == 0.0 then 0.0 else Min(x, y) / Max(x, y)
  }

  /** The two branches of scaled_count_pairs: an `above` comparison, then a
      `below` one that is tried whatever `above` says. */
  predicate CountedAsWritten(ratio: real, threshold: real, above: bool) {
    (above && ratio >= threshold) || ratio <= threshold
  }

  /** The documented reading: `above` selects which side of the threshold
      counts. */
  predicate CountedIntended(ratio: real, threshold: real, above: bool) {
    if above then ratio >= threshold else ratio <= threshold
  }

  function Increment(m: Measure, x: real, y: real): real {
    match m
    case RatioL2 => Term(x, y)
    case AsWrittenCount(t, above) =>
      if CountedAsWritten(Ratio(x, y), t, above) then 1.0 else 0.0
    case IntendedCount(t, above) =>
      if CountedIntended(Ratio(x, y), t, above) then 1.0 else 0.0
  }

  lemma IncrementSymmetric(m: Measure, x: real, y: real)
    ensures Increment(m, x, y) == Increment(m, y, x)
  {
    TermProperties(x, y);
  }

  /** As written, a count with `above` set counts every observation. */
  lemma AboveCountsEverything(t: real, x: real, y: real)
    ensures Increment(AsWrittenCount(t, true), x, y) == 1.0
  {
  }

  /** The intended count adds one exactly when the ratio lies on the side of
      the threshold that `above` selects, and nothing otherwise. */
  lemma IntendedCountsSelectedSide(t: real, above: bool, x: real, y: real)
    ensures Increment(IntendedCount(t, above), x, y) == 1.0
            <==> (if above then Ratio(x, y) >= t else Ratio(x, y) <= t)
    ensures Increment(IntendedCount(t, above), x, y) == 0.0
            <==> (if above then Ratio(x, y) < t else Ratio(x, y) > t)
  {
  }

  /** When `above` is not set the two readings agree. */
  lemma BelowReadingsAgree(t: real, x: real, y: real)
    ensures Increment(AsWrittenCount(t, false), x, y) == Increment(IntendedCount(t, false), x, y)
  {
  }

  /** The increment of a measure as a function value. The accumulation
      below is proved for any increment that ignores the orientation of the
      pair, which keeps the arithmetic of each measure out of its proofs. */
  function Measured(m: Measure): (real, real) -> real {
    (x, y) => Increment(m, x, y)
  }

  ghost predicate Commutes(f: (real, real) -> real) {
    forall x, y :: f(x, y) == f(y, x)
  }

  lemma MeasuredCommutes(m: Measure)
    ensures Commutes(Measured(m))
  {
    forall x, y
      ensures Measured(m)(x, y) == Measured(m)(y, x)
    {
      IncrementSymmetric(m, x, y);
    }
  }

  /** The contribution of record `v` to the pair {a, b}: zero unless both
      species are keys with numeric values. */
  function Inc(v: Record, a: string, b: string, f: (real, real) -> real): real {
    if Has(v, a, b) && v.vals[a].Num? && v.vals[b].Num?
    then f(v.vals[a].v, v.vals[b].v) else 0.0
  }

  lemma IncSymmetric(v: Record, a: string, b: string, f: (real, real) -> real)
    requires Commutes(f)
    ensures Inc(v, a, b, f) == Inc(v, b, a, f)
  {
  }

  // ---------------------------------------------------------------------
  // Specification over the whole stream
  // ---------------------------------------------------------------------

  /** Number of records in which both species occur. */
  function Co(values: seq<Record>, a: string, b: string): nat {
    if values == [] then 0
    else Co(values[..|values| - 1], a, b) + (if Has(values[|values| - 1], a, b) then 1 else 0)
  }

  /** Sum of the contributions of all records to the pair {a, b}. */
  function Total(values: seq<Record>, a: string, b: string, f: (real, real) -> real): real {
    if values == [] then 0.0
    else Total(values[..|values| - 1], a, b, f) + Inc(values[|values| - 1], a, b, f)
  }

  /** One of the two species of pair `p` has a NaN value in `v`. */
  predicate PairNaN(v: Record, p: (string, string)) {
    (p.0 in v.vals && v.vals[p.0].NaN?) || (p.1 in v.vals && v.vals[p.1].NaN?)
  }

  /** Scanning the pairs of `v` meets a NaN. */
  predicate RecordNaN(v: Record) {
    exists k :: 0 <= k < |Pairs(v.keys)| && PairNaN(v, Pairs(v.keys)[k])
  }

  /** The record NaNinValuesError is raised with: the first one whose pairs
      meet a NaN. */
  function FirstNaNRecord(values: seq<Record>): Option<Record> {
    if values == [] then None
    else if FirstNaNRecord(values[..|values| - 1]).Some? then FirstNaNRecord(values[..|values| - 1])
    else if RecordNaN(values[|values| - 1]) then Some(values[|values| - 1])
    else None
  }

  /** A record raises exactly when it has at least two species and one of its
      values is NaN: a single-species record forms no pair. */
  lemma RecordNaNMeans(v: Record)
    requires WellFormed(v)
    ensures RecordNaN(v) <==> (|v.keys| >= 2 && exists i :: 0 <= i < |v.keys| && v.vals[v.keys[i]].NaN?)
  {
    var ps := Pairs(v.keys);
    if RecordNaN(v) {
      var k :| 0 <= k < |ps| && PairNaN(v, ps[k]);
      assert ps[k] in ps;
      PairsMembership(v.keys, ps[k]);
      var i, j :| 0 <= i < j < |v.keys| && ps[k] == (v.keys[i], v.keys[j]);
      if v.vals[v.keys[i]].NaN? {
      } else {
        assert v.vals[v.keys[j]].NaN?;
      }
    }
    if |v.keys| >= 2 && exists i :: 0 <= i < |v.keys| && v.vals[v.keys[i]].NaN? {
      var i :| 0 <= i < |v.keys| && v.vals[v.keys[i]].NaN?;
      var j := if i == 0 then 1 else 0;
      assert v.keys[i] != v.keys[j];
      PairsCover(v.keys, v.keys[i], v.keys[j]);
      var p := if (v.keys[i], v.keys[j]) in ps then (v.keys[i], v.keys[j]) else (v.keys[j], v.keys[i]);
      assert p in ps && PairNaN(v, p);
      var k :| 0 <= k < |ps| && ps[k] == p;
    }
  }

  /** FirstNaNRecord picks the earliest raising record. */
  lemma {:induction false} FirstNaNRecordMeans(values: seq<Record>)
    ensures FirstNaNRecord(values).None? <==> forall i :: 0 <= i < |values| ==> !RecordNaN(values[i])
    ensures FirstNaNRecord(values).Some? ==>
              exists i :: 0 <= i < |values| && values[i] == FirstNaNRecord(values).value
                          && RecordNaN(values[i]) && forall j :: 0 <= j < i ==> !RecordNaN(values[j])
  {
    if values != [] {
      var n := |values|;
      FirstNaNRecordMeans(values[..n - 1]);
      if FirstNaNRecord(values[..n - 1]).Some? {
        var pre := values[..n - 1];
        var i :| 0 <= i < n - 1 && pre[i] == FirstNaNRecord(pre).value
                 && RecordNaN(pre[i]) && forall j :: 0 <= j < i ==> !RecordNaN(pre[j]);
        assert values[i] == pre[i];
        assert forall j :: 0 <= j < i ==> values[j] == pre[j];
      } else {
        assert forall j :: 0 <= j < n - 1 ==> values[j] == values[..n - 1][j];
      }
    }
  }

  /** Once a prefix raises, the whole stream raises with the same record. */
  lemma {:induction false} FirstNaNRecordPrefix(values: seq<Record>, n: nat)
    requires n <= |values| && FirstNaNRecord(values[..n]).Some?
    ensures FirstNaNRecord(values) == FirstNaNRecord(values[..n])
  {
    if n < |values| {
      var k := |values|;
      assert values[..k - 1][..n] == values[..n];
      FirstNaNRecordPrefix(values[..k - 1], n);
    } else {
      assert values[..n] == values;
    }
  }

  /** Every record contributes at most one to each pair's sum. */
  ghost predicate UnitIncrements(values: seq<Record>, f: (real, real) -> real) {
    forall i, a, b :: 0 <= i < |values| ==> 0.0 <= Inc(values[i], a, b, f) <= 1.0
  }

  /** No negative value in any record. */
  ghost predicate NonNegative(values: seq<Record>) {
    forall i, sp :: 0 <= i < |values| && sp in values[i].vals && values[i].vals[sp].Num?
                    ==> values[i].vals[sp].v >= 0.0
  }

  lemma RatioL2Unit(values: seq<Record>)
    ensures NonNegative(values) ==> UnitIncrements(values, Measured(RatioL2))
  {
    forall i, a, b | 0 <= i < |values| && NonNegative(values)
      ensures 0.0 <= Inc(values[i], a, b, Measured(RatioL2)) <= 1.0
    {
      var v := values[i];
      if Has(v, a, b) && v.vals[a].Num? && v.vals[b].Num? {
        TermProperties(v.vals[a].v, v.vals[b].v);
      }
    }
  }

  lemma CountsUnit(values: seq<Record>, m: Measure)
    requires !m.RatioL2?
    ensures UnitIncrements(values, Measured(m))
  {
  }

  /** In a record that raises nothing, two of its species both have numeric
      values, so the as-written count with `above` set adds one. */
  lemma AboveCountsRecord(v: Record, t: real, a: string, b: string)
    requires WellFormed(v) && !RecordNaN(v) && a != b && Has(v, a, b)
    ensures Inc(v, a, b, Measured(AsWrittenCount(t, true))) == 1.0
  {
    RecordNaNMeans(v);
    var i :| 0 <= i < |v.keys| && v.keys[i] == a;
    var j :| 0 <= j < |v.keys| && v.keys[j] == b;
    assert i != j;
  }

  /** With `above` set, the as-written count sums one per co-occurrence. */
  lemma {:induction false} AboveTotalIsCo(values: seq<Record>, t: real, a: string, b: string)
    requires forall i :: 0 <= i < |values| ==> WellFormed(values[i]) && !RecordNaN(values[i])
    requires a != b
    ensures Total(values, a, b, Measured(AsWrittenCount(t, true))) == Co(values, a, b) as real
  {
    if values != [] {
      var n := |values|;
      assert forall i :: 0 <= i < n - 1 ==> values[..n - 1][i] == values[i];
      AboveTotalIsCo(values[..n - 1], t, a, b);
      if Has(values[n - 1], a, b) {
        AboveCountsRecord(values[n - 1], t, a, b);
      }
    }
  }

  // ---------------------------------------------------------------------
  // Where an observation is filed
  // ---------------------------------------------------------------------

  /** How an observation (p, q) picks its orientation. `ByHead` is the
      source: it stays (p, q) when p already heads a row of the dicts and
      becomes (q, p) otherwise. `ByEntry` is what the comment beside that
      test takes for granted: a pair filed before keeps its orientation, and
      a new pair is oriented as `ByHead` does. */
  datatype Filing = ByHead | ByEntry

  /** The entries filed so far, and the species heading a row. */
  datatype Layout = Layout(entries: set<(string, string)>, heads: set<string>)

  function Orient(filing: Filing, l: Layout, p: (string, string)): (string, string) {
    if (filing == ByEntry && (p.1, p.0) in l.entries) || p.0 !in l.heads then (p.1, p.0) else p
  }

  /** The layout after filing the observations `obs` in order. */
  function LayoutOf(filing: Filing, obs: seq<(string, string)>): Layout {
    if obs == [] then Layout({}, {})
    else
      var l := LayoutOf(filing, obs[..|obs| - 1]);
      var o := Orient(filing, l, obs[|obs| - 1]);
      Layout(l.entries + {o}, l.heads + {o.0})
  }

  /** Every observation of the stream: the pairs of each record in turn. */
  function Observations(values: seq<Record>): seq<(string, string)> {
    if values == [] then []
    else Observations(values[..|values| - 1]) + Pairs(values[|values| - 1].keys)
  }

  /** The heads are exactly the species that start an entry. */
  lemma {:induction false} LayoutHeads(filing: Filing, obs: seq<(string, string)>)
    ensures forall a, b :: (a, b) in LayoutOf(filing, obs).entries ==> a in LayoutOf(filing, obs).heads
    ensures forall a :: a in LayoutOf(filing, obs).heads ==> exists b :: (a, b) in LayoutOf(filing, obs).entries
  {
    if obs != [] {
      var l := LayoutOf(filing, obs[..|obs| - 1]);
      LayoutHeads(filing, obs[..|obs| - 1]);
      var o := Orient(filing, l, obs[|obs| - 1]);
      assert o in LayoutOf(filing, obs).entries;
    }
  }

  /** Every observation is filed in one orientation or the other, and every
      entry is an observation in one orientation or the other. */
  lemma {:induction false} LayoutEntries(filing: Filing, obs: seq<(string, string)>)
    ensures forall k :: 0 <= k < |obs| ==>
              obs[k] in LayoutOf(filing, obs).entries || (obs[k].1, obs[k].0) in LayoutOf(filing, obs).entries
    ensures forall a, b :: (a, b) in LayoutOf(filing, obs).entries ==> (a, b) in obs || (b, a) in obs
  {
    if obs != [] {
      var pre := obs[..|obs| - 1];
      LayoutEntries(filing, pre);
      assert forall k :: 0 <= k < |pre| ==> obs[k] == pre[k];
      assert obs[|obs| - 1] in obs;
    }
  }

  /** With `ByEntry`, no pair of two species is filed both ways. */
  lemma {:induction false} ByEntryOneWay(obs: seq<(string, string)>)
    ensures forall a, b :: a != b && (a, b) in LayoutOf(ByEntry, obs).entries
              ==> (b, a) !in LayoutOf(ByEntry, obs).entries
  {
    if obs != [] {
      var pre := obs[..|obs| - 1];
      ByEntryOneWay(pre);
      LayoutHeads(ByEntry, pre);
    }
  }

  /** The records {a, b}, {c, a}, {a, b} as `ByHead` files them: the first
      observation becomes (b, a), since no row exists yet; the second
      becomes (a, c) and makes a head a row; the third then stays (a, b).
      The pair {a, b} ends up filed both ways. */
  lemma ByHeadSplitsPair()
    ensures var l := LayoutOf(ByHead, Observations(SplitExample()));
            ("a", "b") in l.entries && ("b", "a") in l.entries
  {
    SplitExampleObservations();
    var obs := [("a", "b"), ("c", "a"), ("a", "b")];
    assert obs[..2][..1] == [("a", "b")] && obs[..2][..1][..0] == [];
    assert LayoutOf(ByHead, obs[..2][..1]) == Layout({("b", "a")}, {"b"});
    assert LayoutOf(ByHead, obs[..2]) == Layout({("b", "a"), ("a", "c")}, {"b", "a"});
  }

  lemma SplitExampleObservations()
    ensures Observations(SplitExample()) == [("a", "b"), ("c", "a"), ("a", "b")]
  {
    var v := SplitExample();
    assert Pairs(v[0].keys) == [("a", "b")];
    assert Pairs(v[1].keys) == [("c", "a")];
    assert Observations(v[..1]) == [("a", "b")] by {
      assert v[..1][..0] == [];
    }
    assert Observations(v[..2]) == [("a", "b"), ("c", "a")] by {
      assert v[..2][..1] == v[..1];
    }
    assert v[..2] == v[..|v| - 1];
  }

  /** No record of the example raises. */
  lemma SplitExampleClean()
    ensures FirstNaNRecord(SplitExample()).None?
  {
    var values := SplitExample();
    forall i | 0 <= i < |values|
      ensures !RecordNaN(values[i])
    {
      RecordNaNMeans(values[i]);
    }
    FirstNaNRecordMeans(values);
  }

  /** The three records of ByHeadSplitsPair, every value numeric. */
  function SplitExample(): (v: seq<Record>)
    ensures |v| == 3 && forall i :: 0 <= i < 3 ==> WellFormed(v[i])
  {
    var ab := Record(["a", "b"], map["a" := Num(1.0), "b" := Num(2.0)]);
    [ab, Record(["c", "a"], map["c" := Num(1.0), "a" := Num(1.0)]), ab]
  }

  // ---------------------------------------------------------------------
  // The accumulation
  // ---------------------------------------------------------------------

  /** The two dicts have the same entries; every entry is an off-diagonal
      pair observed at least once. */
  ghost predicate ShapeOK(d: Nested, s: Nested) {
    (forall a :: a in d <==> a in s)
    && (forall a :: a in d ==> d[a].Keys == s[a].Keys)
    && (forall a, b :: Has2(s, a, b) ==> a != b && s[a][b] >= 1.0)
  }

  /** Every sum lies between 0 and its size. */
  ghost predicate Bounded(d: Nested, s: Nested) {
    forall a, b :: Has2(s, a, b) ==> Has2(d, a, b) && 0.0 <= d[a][b] <= s[a][b]
  }

  /** `g[p][q] += w` on a defaultdict, the entry being created with 0 first
      when it is missing. */
  method AddAt(g0: Nested, p: string, q: string, w: real) returns (g: Nested)
    ensures forall a :: a in g <==> a in g0 || a == p
    ensures forall a, b :: Has2(g, a, b) <==> Has2(g0, a, b) || (a == p && b == q)
    ensures forall a, b :: Get(g, a, b) == Get(g0, a, b) + (if a == p && b == q then w else 0.0)
  {
    var row := if p in g0 then g0[p] else map[];
    if q !in row {
      row := row[q := 0.0];
    }
    g := g0[p := row[q := row[q] + w]];
    forall a, b
      ensures Has2(g, a, b) <==> Has2(g0, a, b) || (a == p && b == q)
      ensures Get(g, a, b) == Get(g0, a, b) + (if a == p && b == q then w else 0.0)
    {
      if a == p && b != q {
        assert Has2(g, a, b) <==> Has2(g0, a, b);
      }
    }
  }

  /** Files one observation under the entry (p, q): one more unit of size,
      `inc` more of sum, the entry being created first when it is missing. */
  method Observe(d0: Nested, s0: Nested, p: string, q: string, inc: real)
    returns (d: Nested, s: Nested)
    requires ShapeOK(d0, s0) && p != q
    ensures ShapeOK(d, s)
    ensures forall a :: a in s <==> a in s0 || a == p
    ensures forall a, b :: Has2(s, a, b) <==> Has2(s0, a, b) || (a == p && b == q)
    ensures forall a, b :: Get(s, a, b) == Get(s0, a, b) + (if a == p && b == q then 1.0 else 0.0)
    ensures forall a, b :: Get(d, a, b) == Get(d0, a, b) + (if a == p && b == q then inc else 0.0)
    ensures Bounded(d0, s0) && 0.0 <= inc <= 1.0 ==> Bounded(d, s)
  {
    d := AddAt(d0, p, q, inc);
    s := AddAt(s0, p, q, 1.0);
    forall a | a in d
      ensures d[a].Keys == s[a].Keys
    {
      assert forall b :: b in d[a] <==> Has2(d, a, b);
      assert forall b :: b in s[a] <==> Has2(s, a, b);
    }
    forall a, b | Has2(s, a, b)
      ensures a != b && s[a][b] >= 1.0
      ensures Bounded(d0, s0) && 0.0 <= inc <= 1.0 ==> 0.0 <= d[a][b] <= s[a][b]
    {
      assert Get(s, a, b) == s[a][b] && Get(d, a, b) == d[a][b];
    }
  }

  /** What one observation of {a, b} in `v` adds: 1 to a size (`unit`),
      the contribution to a sum otherwise. */
  function Weight(v: Record, a: string, b: string, f: (real, real) -> real, unit: bool): real {
    if unit then 1.0 else Inc(v, a, b, f)
  }

  /** `g` is `g0` plus one weight for every pair {a, b} among the first `j`
      pairs of the record. */
  ghost predicate Accounted(g: Nested, g0: Nested, v: Record, f: (real, real) -> real, unit: bool,
                            ps: seq<(string, string)>, j: nat)
    requires j <= |ps|
  {
    forall a, b :: a != b ==>
      Get(g, a, b) + Get(g, b, a)
      == Get(g0, a, b) + Get(g0, b, a) + (if CountUnordered(ps[..j], a, b) > 0 then Weight(v, a, b, f, unit) else 0.0)
  }

  /** A pair of the record's pairs is met at most once. */
  lemma PrefixCountAtMostOne(v: Record, j: nat, a: string, b: string)
    requires WellFormed(v) && a != b && j <= |Pairs(v.keys)|
    ensures CountUnordered(Pairs(v.keys)[..j], a, b) <= 1
  {
    var ps := Pairs(v.keys);
    CountUnorderedAppend(ps[..j], ps[j..], a, b);
    assert ps[..j] + ps[j..] == ps;
    CountPairs(v.keys, a, b);
  }

  /** Filing pair `ps[j]` as (p, q) keeps the accounting of the pair {a, b}. */
  lemma AccountedStepAt(g0: Nested, g1: Nested, g: Nested, v: Record, f: (real, real) -> real, unit: bool,
                        ps: seq<(string, string)>, j: nat, p: string, q: string, w: real, a: string, b: string)
    requires WellFormed(v) && ps == Pairs(v.keys) && j < |ps| && Commutes(f) && a != b
    requires ps[j] == (p, q) || ps[j] == (q, p)
    requires w == Weight(v, p, q, f, unit)
    requires Get(g1, a, b) + Get(g1, b, a)
             == Get(g0, a, b) + Get(g0, b, a)
                + (if CountUnordered(ps[..j], a, b) > 0 then Weight(v, a, b, f, unit) else 0.0)
    requires Get(g, a, b) == Get(g1, a, b) + (if a == p && b == q then w else 0.0)
    requires Get(g, b, a) == Get(g1, b, a) + (if b == p && a == q then w else 0.0)
    ensures Get(g, a, b) + Get(g, b, a)
            == Get(g0, a, b) + Get(g0, b, a)
               + (if CountUnordered(ps[..j + 1], a, b) > 0 then Weight(v, a, b, f, unit) else 0.0)
  {
    var hit := ps[j] == (a, b) || ps[j] == (b, a);
    assert CountUnordered(ps[..j + 1], a, b) == CountUnordered(ps[..j], a, b) + (if hit then 1 else 0) by {
      assert ps[..j + 1][..j] == ps[..j];
    }
    PrefixCountAtMostOne(v, j + 1, a, b);
    if hit {
      WeightOriented(v, f, unit, a, b, p, q);
    } else {
      assert !(a == p && b == q) && !(b == p && a == q);
    }
  }

  lemma WeightOriented(v: Record, f: (real, real) -> real, unit: bool, a: string, b: string, p: string, q: string)
    requires Commutes(f)
    requires (a, b) == (p, q) || (a, b) == (q, p)
    ensures Weight(v, a, b, f, unit) == Weight(v, p, q, f, unit)
  {
    IncSymmetric(v, a, b, f);
  }

  /** Filing pair `ps[j]`, in either orientation, keeps the accounting. */
  lemma AccountedStep(g0: Nested, g1: Nested, g: Nested, v: Record, f: (real, real) -> real, unit: bool,
                      ps: seq<(string, string)>, j: nat, p: string, q: string, w: real)
    requires WellFormed(v) && ps == Pairs(v.keys) && j < |ps| && Commutes(f)
    requires ps[j] == (p, q) || ps[j] == (q, p)
    requires w == Weight(v, p, q, f, unit)
    requires Accounted(g1, g0, v, f, unit, ps, j)
    requires forall a, b :: Get(g, a, b) == Get(g1, a, b) + (if a == p && b == q then w else 0.0)
    ensures Accounted(g, g0, v, f, unit, ps, j + 1)
  {
    forall a, b | a != b
      ensures Get(g, a, b) + Get(g, b, a)
              == Get(g0, a, b) + Get(g0, b, a)
                 + (if CountUnordered(ps[..j + 1], a, b) > 0 then Weight(v, a, b, f, unit) else 0.0)
    {
      AccountedStepAt(g0, g1, g, v, f, unit, ps, j, p, q, w, a, b);
    }
  }

  /** After all the pairs, each pair {a, b} of the record counted once. */
  lemma AccountedDone(g: Nested, g0: Nested, v: Record, f: (real, real) -> real, unit: bool)
    requires WellFormed(v) && Accounted(g, g0, v, f, unit, Pairs(v.keys), |Pairs(v.keys)|)
    ensures forall a, b :: a != b ==>
              Get(g, a, b) + Get(g, b, a)
              == Get(g0, a, b) + Get(g0, b, a) + (if Has(v, a, b) then Weight(v, a, b, f, unit) else 0.0)
  {
    var ps := Pairs(v.keys);
    assert ps[..|ps|] == ps;
    forall a, b | a != b
      ensures Get(g, a, b) + Get(g, b, a)
              == Get(g0, a, b) + Get(g0, b, a) + (if Has(v, a, b) then Weight(v, a, b, f, unit) else 0.0)
    {
      CountPairs(v.keys, a, b);
      assert a in v.keys <==> a in v.vals;
      assert b in v.keys <==> b in v.vals;
    }
  }

  /** No pair of the record adds more than one to a sum. */
  ghost predicate UnitRecord(v: Record, f: (real, real) -> real) {
    forall a, b :: 0.0 <= Inc(v, a, b, f) <= 1.0
  }

  /** The dicts' entries and row heads are those of layout `l`. */
  ghost predicate Keyed(s: Nested, l: Layout) {
    (forall a, b :: Has2(s, a, b) <==> (a, b) in l.entries)
    && (forall a :: a in s <==> a in l.heads)
  }

  /** The test of the pairs loop, read on dicts keyed by layout `l`, picks
      the orientation `Orient` does. */
  lemma OrientKeyed(filing: Filing, obs: seq<(string, string)>, d: Nested, s: Nested, p: string, q: string)
    requires ShapeOK(d, s) && Keyed(s, LayoutOf(filing, obs))
    ensures Orient(filing, LayoutOf(filing, obs), (p, q))
            == if (filing == ByEntry && q in s && p in s[q]) || p !in d then (q, p) else (p, q)
  {
  }

  /** Filing pair `ps[j]` as `Orient` says extends the layout by it. */
  lemma KeyedStep(filing: Filing, pre: seq<(string, string)>, ps: seq<(string, string)>, j: nat,
                  s0: Nested, s: Nested)
    requires j < |ps| && Keyed(s0, LayoutOf(filing, pre + ps[..j]))
    requires var o := Orient(filing, LayoutOf(filing, pre + ps[..j]), ps[j]);
             (forall a :: a in s <==> a in s0 || a == o.0)
             && (forall a, b :: Has2(s, a, b) <==> Has2(s0, a, b) || (a == o.0 && b == o.1))
    ensures Keyed(s, LayoutOf(filing, pre + ps[..j + 1]))
  {
    var obs := pre + ps[..j + 1];
    assert obs[..|obs| - 1] == pre + ps[..j];
    assert obs[|obs| - 1] == ps[j];
  }

  /** One turn of the pairs loop: pair `ps[j]` is oriented by `filing`,
      tested for NaN, and filed. `pre` are the observations of the earlier
      records. The entry is created before the NaN test in the source; on a
      NaN the dicts are dropped, so the model tests first. */
  method FilePair(v: Record, f: (real, real) -> real, filing: Filing, ghost pre: seq<(string, string)>,
                  ps: seq<(string, string)>, j: nat, d0: Nested, s0: Nested, d1: Nested, s1: Nested)
    returns (nan: bool, d: Nested, s: Nested)
    requires WellFormed(v) && ps == Pairs(v.keys) && j < |ps| && Commutes(f)
    requires CleanUpTo(v, ps, j) && Filed(v, f, ps, j, d0, s0, d1, s1)
    requires Keyed(s1, LayoutOf(filing, pre + ps[..j]))
    ensures nan <==> PairNaN(v, ps[j])
    ensures nan ==> RecordNaN(v)
    ensures !nan ==> CleanUpTo(v, ps, j + 1) && Filed(v, f, ps, j + 1, d0, s0, d, s)
    ensures !nan ==> Keyed(s, LayoutOf(filing, pre + ps[..j + 1]))
  {
    var p, q := ps[j].0, ps[j].1;
    assert ps[j] in ps;
    PairsOriented(v.keys, p, q);
    PairsMembership(v.keys, ps[j]);
    ghost var o := Orient(filing, LayoutOf(filing, pre + ps[..j]), ps[j]);
    OrientKeyed(filing, pre + ps[..j], d1, s1, p, q);
    if (filing == ByEntry && q in s1 && p in s1[q]) || p !in d1 {
      p, q := q, p;
    }
    if v.vals[p].NaN? || v.vals[q].NaN? {
      assert PairNaN(v, ps[j]);
      return true, d1, s1;
    }
    var inc := f(v.vals[p].v, v.vals[q].v);
    assert inc == Inc(v, p, q, f);
    d, s := Observe(d1, s1, p, q, inc);
    AccountedStep(s0, s1, s, v, f, true, ps, j, p, q, 1.0);
    AccountedStep(d0, d1, d, v, f, false, ps, j, p, q, inc);
    KeyedStep(filing, pre, ps, j, s1, s);
    nan := false;
  }

  /** The dicts (d, s) are (d0, s0) after filing the first `j` pairs `ps`
      of record `v`. */
  ghost predicate Filed(v: Record, f: (real, real) -> real, ps: seq<(string, string)>, j: nat,
                        d0: Nested, s0: Nested, d: Nested, s: Nested)
    requires j <= |ps|
  {
    ShapeOK(d, s)
    && Accounted(s, s0, v, f, true, ps, j) && Accounted(d, d0, v, f, false, ps, j)
    && (Bounded(d0, s0) && UnitRecord(v, f) ==> Bounded(d, s))
  }

  lemma FiledStart(v: Record, f: (real, real) -> real, d0: Nested, s0: Nested)
    requires ShapeOK(d0, s0)
    ensures Filed(v, f, Pairs(v.keys), 0, d0, s0, d0, s0)
  {
    assert Pairs(v.keys)[..0] == [];
  }

  /** (d, s) are (d0, s0) after all the pairs of record `v`: each unordered
      pair it holds has one more observation and its increment, and the
      dicts keep their shape and, for unit increments, their bounds. */
  ghost predicate Added(v: Record, f: (real, real) -> real, d0: Nested, s0: Nested, d: Nested, s: Nested) {
    && ShapeOK(d, s)
    && (forall a, b :: a != b ==>
          Get(s, a, b) + Get(s, b, a) == Get(s0, a, b) + Get(s0, b, a) + (if Has(v, a, b) then 1.0 else 0.0))
    && (forall a, b :: a != b ==>
          Get(d, a, b) + Get(d, b, a) == Get(d0, a, b) + Get(d0, b, a) + Inc(v, a, b, f))
    && (Bounded(d0, s0) && UnitRecord(v, f) ==> Bounded(d, s))
  }

  lemma AddedDone(d: Nested, d0: Nested, s: Nested, s0: Nested, v: Record, f: (real, real) -> real)
    requires WellFormed(v)
    requires CleanUpTo(v, Pairs(v.keys), |Pairs(v.keys)|)
    requires Filed(v, f, Pairs(v.keys), |Pairs(v.keys)|, d0, s0, d, s)
    ensures !RecordNaN(v)
    ensures Added(v, f, d0, s0, d, s)
  {
    AccountedDone(s, s0, v, f, true);
    AccountedDone(d, d0, v, f, false);
  }

  /** None of the first `j` pairs meets a NaN. */
  ghost predicate CleanUpTo(v: Record, ps: seq<(string, string)>, j: nat)
    requires j <= |ps|
  {
    forall k :: 0 <= k < j ==> !PairNaN(v, ps[k])
  }

  lemma PrefixEnds(pre: seq<(string, string)>, ps: seq<(string, string)>)
    ensures pre + ps[..0] == pre && pre + ps[..|ps|] == pre + ps
  {
    assert ps[..|ps|] == ps;
  }

  /** The pairs loop over one record, starting from the dicts (d0, s0).
      `nan` reports that NaNinValuesError is raised on this record. */
  method AddRecord(v: Record, f: (real, real) -> real, filing: Filing, ghost pre: seq<(string, string)>,
                   d0: Nested, s0: Nested)
    returns (nan: bool, d: Nested, s: Nested)
    requires WellFormed(v) && ShapeOK(d0, s0) && Commutes(f)
    requires Keyed(s0, LayoutOf(filing, pre))
    ensures nan <==> RecordNaN(v)
    ensures !nan ==> Added(v, f, d0, s0, d, s)
    ensures !nan ==> Keyed(s, LayoutOf(filing, pre + Pairs(v.keys)))
  {
    var ps := Pairs(v.keys);
    d, s := d0, s0;
    var j := 0;
    FiledStart(v, f, d0, s0);
    PrefixEnds(pre, ps);
    while j < |ps|
      invariant 0 <= j <= |ps|
      invariant CleanUpTo(v, ps, j)
      invariant Filed(v, f, ps, j, d0, s0, d, s)
      invariant Keyed(s, LayoutOf(filing, pre + ps[..j]))
    {
      var nan1, d1, s1 := FilePair(v, f, filing, pre, ps, j, d0, s0, d, s);
      if nan1 {
        return true, d, s;
      }
      d, s := d1, s1;
      j := j + 1;
    }
    AddedDone(d, d0, s, s0, v, f);
    PrefixEnds(pre, ps);
    nan := false;
  }

  /** The closing loops: each entry becomes sqrt(sum)/sqrt(size), or the
      constant 1.0 when its size is zero. */
  method FinaliseAll(d: Nested, s: Nested) returns (r: Table)
    requires ShapeOK(d, s)
    ensures forall a, b :: Has2(r, a, b) <==> Has2(s, a, b)
    ensures forall a, b :: Has2(r, a, b) ==> r[a][b] == Finalise(d[a][b], s[a][b])
  {
    r := map[];
    var outer := s.Keys;
    while outer != {}
      invariant outer <= s.Keys
      invariant forall a :: a in r <==> a in s && a !in outer
      invariant forall a, b :: a in r ==> (b in r[a] <==> b in s[a])
      invariant forall a, b :: Has2(r, a, b) ==> r[a][b] == Finalise(d[a][b], s[a][b])
      decreases outer
    {
      var a :| a in outer;
      assert d[a].Keys == s[a].Keys;
      var row: map<string, Dist> := map[];
      var inner := s[a].Keys;
      while inner != {}
        invariant inner <= s[a].Keys
        invariant forall b :: b in row <==> b in s[a] && b !in inner
        invariant forall b :: b in row ==> row[b] == Finalise(d[a][b], s[a][b])
        decreases inner
      {
        var b :| b in inner;
        assert Has2(s, a, b);
        row := row[b := Finalise(d[a][b], s[a][b])];
        inner := inner - {b};
      }
      r := r[a := row];
      outer := outer - {a};
    }
  }

  /** Size of the finished entry (a, b), or 0 when there is none. */
  function SizeIn(r: Table, a: string, b: string): real {
    if Has2(r, a, b) && r[a][b].Root? then r[a][b].size else 0.0
  }

  /** Sum of the finished entry (a, b), or 0 when there is none. */
  function SumIn(r: Table, a: string, b: string): real {
    if Has2(r, a, b) && r[a][b].Root? then r[a][b].sum else 0.0
  }

  /** The dicts hold, for every pair {a, b}, the co-occurrences and the
      summed contributions of the first `n` records. */
  ghost predicate Tallied(d: Nested, s: Nested, values: seq<Record>, n: nat, f: (real, real) -> real)
    requires n <= |values|
  {
    forall a, b :: a != b ==>
      Get(s, a, b) + Get(s, b, a) == Co(values[..n], a, b) as real
      && Get(d, a, b) + Get(d, b, a) == Total(values[..n], a, b, f)
  }

  /** Adding record `values[n]` extends the tally by one record. */
  lemma TalliedStep(d0: Nested, s0: Nested, d: Nested, s: Nested, values: seq<Record>, n: nat,
                    f: (real, real) -> real)
    requires n < |values| && Tallied(d0, s0, values, n, f)
    requires Added(values[n], f, d0, s0, d, s)
    ensures Tallied(d, s, values, n + 1, f)
  {
    assert values[..n + 1][..n] == values[..n];
    assert values[..n + 1][n] == values[n];
  }

  /** One turn of the records loop: the pairs of record `values[n]` are
      added to a tally of the first `n` records. */
  method TallyRecord(values: seq<Record>, n: nat, f: (real, real) -> real, filing: Filing,
                     d0: Nested, s0: Nested)
    returns (nan: bool, d: Nested, s: Nested)
    requires n < |values| && WellFormed(values[n]) && Commutes(f)
    requires ShapeOK(d0, s0) && Tallied(d0, s0, values, n, f)
    requires Keyed(s0, LayoutOf(filing, Observations(values[..n])))
    requires FirstNaNRecord(values[..n]).None?
    ensures nan <==> RecordNaN(values[n])
    ensures nan ==> FirstNaNRecord(values) == Some(values[n])
    ensures !nan ==> FirstNaNRecord(values[..n + 1]).None?
    ensures !nan ==> ShapeOK(d, s) && Tallied(d, s, values, n + 1, f)
    ensures !nan ==> Keyed(s, LayoutOf(filing, Observations(values[..n + 1])))
    ensures !nan && UnitIncrements(values, f) && Bounded(d0, s0) ==> Bounded(d, s)
  {
    assert UnitIncrements(values, f) ==> UnitRecord(values[n], f);
    nan, d, s := AddRecord(values[n], f, filing, Observations(values[..n]), d0, s0);
    assert values[..n + 1][..n] == values[..n] && values[..n + 1][n] == values[n];
    if nan {
      FirstNaNRecordPrefix(values, n + 1);
    } else {
      TalliedStep(d0, s0, d, s, values, n, f);
    }
  }

  /** The records loop shared by scaled_ratio_l2 and scaled_count_pairs:
      `err` is the record NaNinValuesError is raised with, if any. */
  method Accumulate(values: seq<Record>, f: (real, real) -> real, filing: Filing)
    returns (err: Option<Record>, d: Nested, s: Nested)
    requires forall i :: 0 <= i < |values| ==> WellFormed(values[i])
    requires Commutes(f)
    ensures err == FirstNaNRecord(values)
    ensures err.None? ==> ShapeOK(d, s)
    ensures err.None? ==> Tallied(d, s, values, |values|, f)
    ensures err.None? ==> Keyed(s, LayoutOf(filing, Observations(values)))
    ensures err.None? && UnitIncrements(values, f) ==> Bounded(d, s)
  {
    d, s := map[], map[];
    var i := 0;
    assert values[..0] == [];
    while i < |values|
      invariant 0 <= i <= |values|
      invariant FirstNaNRecord(values[..i]).None?
      invariant ShapeOK(d, s)
      invariant Tallied(d, s, values, i, f)
      invariant Keyed(s, LayoutOf(filing, Observations(values[..i])))
      invariant UnitIncrements(values, f) ==> Bounded(d, s)
    {
      var nan, d', s' := TallyRecord(values, i, f, filing, d, s);
      if nan {
        return Some(values[i]), d, s;
      }
      d, s := d', s';
      i := i + 1;
    }
    assert values[..i] == values;
    err := None;
  }

  /** scaled_ratio_l2 and scaled_count_pairs for the increment `f`, each
      observation filed as `filing` says. Sizes and sums are stated over
      both orientations of a pair; with `ByEntry` a pair has one entry, which
      holds them whole. */
  method ScaledPairs(values: seq<Record>, f: (real, real) -> real, filing: Filing)
    returns (r: Result<Table, Record>)
    requires forall i :: 0 <= i < |values| ==> WellFormed(values[i])
    requires Commutes(f)
    ensures r.Err? <==> FirstNaNRecord(values).Some?
    ensures r.Err? ==> r.error == FirstNaNRecord(values).value
    ensures r.Ok? ==> forall a, b :: Has2(r.value, a, b) <==> (a, b) in LayoutOf(filing, Observations(values)).entries
    ensures r.Ok? ==> forall a, b :: Has2(r.value, a, b) ==>
              a != b && r.value[a][b].Root? && r.value[a][b].size >= 1.0
    ensures r.Ok? ==> forall a, b :: a != b ==>
              SizeIn(r.value, a, b) + SizeIn(r.value, b, a) == Co(values, a, b) as real
    ensures r.Ok? ==> forall a, b :: a != b ==>
              SumIn(r.value, a, b) + SumIn(r.value, b, a) == Total(values, a, b, f)
    ensures r.Ok? && UnitIncrements(values, f) ==> forall a, b :: Has2(r.value, a, b) ==>
              r.value[a][b].sum <= r.value[a][b].size && InUnit(r.value[a][b])
    ensures r.Ok? && filing == ByEntry ==> forall a, b :: Has2(r.value, a, b) ==>
              r.value[a][b].size == Co(values, a, b) as real && r.value[a][b].sum == Total(values, a, b, f)
  {
    var err, d, s := Accumulate(values, f, filing);
    if err.Some? {
      return Err(err.value);
    }
    assert values[..|values|] == values;
    var t := FinaliseAll(d, s);
    forall a, b | Has2(t, a, b)
      ensures t[a][b] == Root(d[a][b], s[a][b])
    {
    }
    forall a, b
      ensures SizeIn(t, a, b) == Get(s, a, b) && SumIn(t, a, b) == Get(d, a, b)
    {
    }
    if filing == ByEntry {
      ByEntryOneWay(Observations(values));
      forall a, b | Has2(t, a, b)
        ensures SizeIn(t, b, a) == 0.0 && SumIn(t, b, a) == 0.0
      {
      }
    }
    r := Ok(t);
  }

  // ---------------------------------------------------------------------
  // The two distance functions
  // ---------------------------------------------------------------------

  /** scaled_ratio_l2: sqrt of the summed squared (1 - mi/ma) terms over the
      number of co-occurrences, filed as the source files them. */
  method ScaledRatioL2(values: seq<Record>) returns (r: Result<Table, Record>)
    requires forall i :: 0 <= i < |values| ==> WellFormed(values[i])
    ensures r.Err? <==> FirstNaNRecord(values).Some?
    ensures r.Err? ==> r.error == FirstNaNRecord(values).value
    ensures r.Ok? ==> forall a, b :: Has2(r.value, a, b) <==> (a, b) in LayoutOf(ByHead, Observations(values)).entries
    ensures r.Ok? ==> forall a, b :: Has2(r.value, a, b) ==>
              a != b && r.value[a][b].Root? && r.value[a][b].size >= 1.0
    ensures r.Ok? ==> forall a, b :: a != b ==>
              (Has2(r.value, a, b) || Has2(r.value, b, a) <==> Co(values, a, b) > 0)
    ensures r.Ok? ==> forall a, b :: a != b ==>
              SizeIn(r.value, a, b) + SizeIn(r.value, b, a) == Co(values, a, b) as real
    ensures r.Ok? ==> forall a, b :: a != b ==>
              SumIn(r.value, a, b) + SumIn(r.value, b, a) == Total(values, a, b, Measured(RatioL2))
    ensures r.Ok? && NonNegative(values) ==> forall a, b :: Has2(r.value, a, b) ==> InUnit(r.value[a][b])
  {
    RatioL2Unit(values);
    MeasuredCommutes(RatioL2);
    r := ScaledPairs(values, Measured(RatioL2), ByHead);
    if r.Ok? {
      forall a, b | a != b
        ensures Has2(r.value, a, b) || Has2(r.value, b, a) <==> Co(values, a, b) > 0
      {
      }
    }
  }

  /** scaled_ratio_l2 on the records of ByHeadSplitsPair: the pair {a, b}
      gets two entries, each holding part of its observations. */
  method SplitPairShown() returns (r: Result<Table, Record>)
    ensures r.Ok? && Has2(r.value, "a", "b") && Has2(r.value, "b", "a")
  {
    var values := SplitExample();
    SplitExampleClean();
    r := ScaledRatioL2(values);
    ByHeadSplitsPair();
  }

  /** scaled_ratio_l2 with every pair kept in the orientation it was first
      filed under: each pair present has one entry, holding its number of
      co-occurrences and its summed terms. */
  method ScaledRatioL2Intended(values: seq<Record>) returns (r: Result<Table, Record>)
    requires forall i :: 0 <= i < |values| ==> WellFormed(values[i])
    ensures r.Err? <==> FirstNaNRecord(values).Some?
    ensures r.Err? ==> r.error == FirstNaNRecord(values).value
    ensures r.Ok? ==> forall a, b :: Has2(r.value, a, b) ==> a != b && !Has2(r.value, b, a)
    ensures r.Ok? ==> forall a, b :: a != b ==>
              (Has2(r.value, a, b) || Has2(r.value, b, a) <==> Co(values, a, b) > 0)
    ensures r.Ok? ==> forall a, b :: Has2(r.value, a, b) ==>
              r.value[a][b] == Root(Total(values, a, b, Measured(RatioL2)), Co(values, a, b) as real)
    ensures r.Ok? && NonNegative(values) ==> forall a, b :: Has2(r.value, a, b) ==> InUnit(r.value[a][b])
  {
    RatioL2Unit(values);
    MeasuredCommutes(RatioL2);
    r := ScaledPairs(values, Measured(RatioL2), ByEntry);
    if r.Ok? {
      ByEntryOneWay(Observations(values));
      forall a, b | a != b
        ensures Has2(r.value, a, b) || Has2(r.value, b, a) <==> Co(values, a, b) > 0
      {
      }
    }
  }

  /** scaled_count_pairs as written: with `above` set every observation is
      counted, so every distance is 1. */
  method ScaledCountPairs(values: seq<Record>, threshold: real, above: bool)
    returns (r: Result<Table, Record>)
    requires forall i :: 0 <= i < |values| ==> WellFormed(values[i])
    ensures r.Err? <==> FirstNaNRecord(values).Some?
    ensures r.Err? ==> r.error == FirstNaNRecord(values).value
    ensures r.Ok? ==> forall a, b :: Has2(r.value, a, b) <==> (a, b) in LayoutOf(ByHead, Observations(values)).entries
    ensures r.Ok? ==> forall a, b :: Has2(r.value, a, b) ==>
              a != b && r.value[a][b].Root? && InUnit(r.value[a][b])
    ensures r.Ok? ==> forall a, b :: a != b ==>
              SizeIn(r.value, a, b) + SizeIn(r.value, b, a) == Co(values, a, b) as real
    ensures r.Ok? ==> forall a, b :: a != b ==>
              SumIn(r.value, a, b) + SumIn(r.value, b, a) == Total(values, a, b, Measured(AsWrittenCount(threshold, above)))
    ensures r.Ok? && above ==> forall a, b :: Has2(r.value, a, b) ==> IsOne(r.value[a][b])
  {
    CountsUnit(values, AsWrittenCount(threshold, above));
    MeasuredCommutes(AsWrittenCount(threshold, above));
    r := ScaledPairs(values, Measured(AsWrittenCount(threshold, above)), ByHead);
    if r.Ok? && above {
      FirstNaNRecordMeans(values);
      forall a, b | Has2(r.value, a, b)
        ensures IsOne(r.value[a][b])
      {
        AboveTotalIsCo(values, threshold, a, b);
        AboveTotalIsCo(values, threshold, b, a);
      }
    }
  }

  /** scaled_count_pairs as its documentation describes it: only ratios on
      the side of the threshold selected by `above` are counted, and every
      pair keeps the orientation it was first filed under. */
  method ScaledCountPairsIntended(values: seq<Record>, threshold: real, above: bool)
    returns (r: Result<Table, Record>)
    requires forall i :: 0 <= i < |values| ==> WellFormed(values[i])
    ensures r.Err? <==> FirstNaNRecord(values).Some?
    ensures r.Err? ==> r.error == FirstNaNRecord(values).value
    ensures r.Ok? ==> forall a, b :: Has2(r.value, a, b) ==> a != b && !Has2(r.value, b, a)
    ensures r.Ok? ==> forall a, b :: Has2(r.value, a, b) ==> InUnit(r.value[a][b])
    ensures r.Ok? ==> forall a, b :: Has2(r.value, a, b) ==>
              r.value[a][b] == Root(Total(values, a, b, Measured(IntendedCount(threshold, above))), Co(values, a, b) as real)
  {
    CountsUnit(values, IntendedCount(threshold, above));
    MeasuredCommutes(IntendedCount(threshold, above));
    r := ScaledPairs(values, Measured(IntendedCount(threshold, above)), ByEntry);
    if r.Ok? {
      ByEntryOneWay(Observations(values));
    }
  }
}
