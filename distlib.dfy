/** The shared distance engine of `src/distlib.py`: the scaled L2 norm over
    every pair of species, and the record filter by constraint. */
module DistLib {
  import opened Common

  type Pair = (string, string)

  // ---------------------------------------------------------------------
  // What scaled_L2norm accumulates, per pair
  // ---------------------------------------------------------------------

  /** The record has a value for both species of the pair. */
  predicate Contributes(v: Record, p: Pair)
  {
    p.0 in v.vals && p.1 in v.vals
  }

  /** A contributing record holding NaN for one of the two species. */
  predicate HasNaN(v: Record, p: Pair)
  {
    Contributes(v, p) && (v.vals[p.0].NaN? || v.vals[p.1].NaN?)
  }

  /** The term a contributing record adds to the pair's sum. */
  function PairTerm(v: Record, p: Pair): real
    requires Contributes(v, p)
  {
    match (v.vals[p.0], v.vals[p.1])
    case (Num(x), Num(y)) => Term(x, y)
    case _ => 0.0
  }

  /** What one record adds to the pair's sum and to its count. */
  function Contribution(v: Record, p: Pair): real
  {
    if Contributes(v, p) then PairTerm(v, p) else 0.0
  }

  function Hit(v: Record, p: Pair): real
  {
    if Contributes(v, p) then 1.0 else 0.0
  }

  /** The sum accumulated for the pair over the records. */
  function SumOf(values: seq<Record>, p: Pair): real
  {
    if values == [] then 0.0
    else
      var v := values[|values| - 1];
      SumOf(values[..|values| - 1], p) + Contribution(v, p)
  }

  /** The number of records contributing to the pair. */
  function CountOf(values: seq<Record>, p: Pair): nat
  {
    if values == [] then 0
    else
      var v := values[|values| - 1];
      CountOf(values[..|values| - 1], p) + (if Contributes(v, p) then 1 else 0)
  }

  /** The first pair of `ps` on which the record holds NaN. */
  function RecordError(v: Record, ps: seq<Pair>): Option<Pair>
  {
    if ps == [] then None
    else
      match RecordError(v, ps[..|ps| - 1])
      case Some(q) => Some(q)
      case None => if HasNaN(v, ps[|ps| - 1]) then Some(ps[|ps| - 1]) else None
  }

  /** The pair the ValueError names: the first NaN met, records in order
      and pairs in order within a record. */
  function FirstError(values: seq<Record>, ps: seq<Pair>): Option<Pair>
  {
    if values == [] then None
    else
      match FirstError(values[..|values| - 1], ps)
      case Some(q) => Some(q)
      case None => RecordError(values[|values| - 1], ps)
  }

  lemma {:induction false} RecordErrorMeans(v: Record, ps: seq<Pair>)
    ensures RecordError(v, ps).None? <==> forall j :: 0 <= j < |ps| ==> !HasNaN(v, ps[j])
    ensures RecordError(v, ps).Some? ==> RecordError(v, ps).value in ps && HasNaN(v, RecordError(v, ps).value)
  {
    if ps != [] {
      var init := ps[..|ps| - 1];
      RecordErrorMeans(v, init);
      assert forall j :: 0 <= j < |init| ==> init[j] == ps[j];
    }
  }

  /** The computation fails exactly when some record holds NaN for a pair
      whose two species it both has, and then names such a pair. */
  lemma {:induction false} FirstErrorMeans(values: seq<Record>, ps: seq<Pair>)
    ensures FirstError(values, ps).None? <==>
              forall i, j :: 0 <= i < |values| && 0 <= j < |ps| ==> !HasNaN(values[i], ps[j])
    ensures FirstError(values, ps).Some? ==>
              FirstError(values, ps).value in ps
              && exists i :: 0 <= i < |values| && HasNaN(values[i], FirstError(values, ps).value)
  {
    if values != [] {
      var init, v := values[..|values| - 1], values[|values| - 1];
      FirstErrorMeans(init, ps);
      RecordErrorMeans(v, ps);
      assert forall i :: 0 <= i < |init| ==> init[i] == values[i];
      if FirstError(init, ps).Some? {
        var i :| 0 <= i < |init| && HasNaN(init[i], FirstError(values, ps).value);
        assert HasNaN(values[i], FirstError(values, ps).value);
      } else if RecordError(v, ps).Some? {
        assert HasNaN(values[|values| - 1], FirstError(values, ps).value);
      }
    }
  }

  // ---------------------------------------------------------------------
  // scaled_L2norm
  // ---------------------------------------------------------------------

  /** `scaled_L2norm(species, values)`: one distance per pair of
      `combinations(species, 2)`, the sentinel 1.0 for a pair without any
      contributing record, sqrt(sum)/sqrt(count) otherwise; a ValueError
      naming the first NaN met (`species` is the set's iteration order). */
  method ScaledL2Norm(species: seq<string>, values: seq<Record>) returns (r: Result<map<Pair, Dist>, Pair>)
    requires Distinct(species)
    ensures r.Err? <==> FirstError(values, Pairs(species)).Some?
    ensures r.Err? ==> r.error == FirstError(values, Pairs(species)).value
    ensures r.Ok? ==> r.value.Keys == set p | p in Pairs(species)
    ensures r.Ok? ==> forall p :: p in r.value ==>
                        r.value[p] == Finalise(SumOf(values, p), CountOf(values, p) as real)
  {
    var ps := Pairs(species);
    PairsDistinct(species);
    var distances, sizes := ZeroSums(ps);
    var i := 0;
    while i < |values|
      invariant i <= |values|
      invariant FirstError(values[..i], ps).None?
      invariant forall q :: 0 <= q < |ps| ==> ps[q] in distances && ps[q] in sizes
      invariant forall q :: 0 <= q < |ps| ==>
                  distances[ps[q]] == SumOf(values[..i], ps[q]) && sizes[ps[q]] == CountOf(values[..i], ps[q]) as real
    {
      assert values[..i + 1][..i] == values[..i];
      var err;
      err, distances, sizes := AddRecord(values[i], ps, distances, sizes);
      if err.Some? {
        assert ps[..|ps|] == ps;
        PrefixError(values, ps, i, |ps|);
        return Err(err.value);
      }
      i := i + 1;
    }
    assert values[..i] == values;

    var res := FinaliseAll(ps, distances, sizes);
    r := Ok(res);
    forall p | p in res
      ensures res[p] == Finalise(SumOf(values, p), CountOf(values, p) as real)
    {
      var q :| 0 <= q < |ps| && ps[q] == p;
    }
    assert forall p :: p in res <==> p in ps by {
      forall p
        ensures p in res <==> p in ps
      {
        if p in ps {
          var q :| 0 <= q < |ps| && ps[q] == p;
        }
      }
    }
  }

  /** The first loop of `scaled_L2norm`: a zero sum and count for each pair. */
  method ZeroSums(ps: seq<Pair>) returns (distances: map<Pair, real>, sizes: map<Pair, real>)
    ensures forall q :: 0 <= q < |ps| ==> ps[q] in distances && ps[q] in sizes
    ensures forall q :: 0 <= q < |ps| ==> distances[ps[q]] == 0.0 && sizes[ps[q]] == 0.0
  {
    distances, sizes := map[], map[];
    var j := 0;
    while j < |ps|
      invariant j <= |ps|
      invariant forall q :: 0 <= q < j ==> ps[q] in distances && ps[q] in sizes
      invariant forall q :: 0 <= q < j ==> distances[ps[q]] == 0.0 && sizes[ps[q]] == 0.0
    {
      distances := distances[ps[j] := 0.0];
      sizes := sizes[ps[j] := 0.0];
      j := j + 1;
    }
  }

  /** One pass of the inner loop of `scaled_L2norm` over the pairs for the
      record v; stops at the first pair holding NaN. */
  method AddRecord(v: Record, ps: seq<Pair>, d0: map<Pair, real>, s0: map<Pair, real>)
    returns (err: Option<Pair>, distances: map<Pair, real>, sizes: map<Pair, real>)
    requires Distinct(ps)
    requires forall q :: 0 <= q < |ps| ==> ps[q] in d0 && ps[q] in s0
    ensures err == RecordError(v, ps)
    ensures err.None? ==> forall q :: 0 <= q < |ps| ==> ps[q] in distances && ps[q] in sizes
    ensures err.None? ==> forall q :: 0 <= q < |ps| ==> distances[ps[q]] == d0[ps[q]] + Contribution(v, ps[q])
    ensures err.None? ==> forall q :: 0 <= q < |ps| ==> sizes[ps[q]] == s0[ps[q]] + Hit(v, ps[q])
  {
    distances, sizes := d0, s0;
    var j := 0;
    while j < |ps|
      invariant j <= |ps|
      invariant RecordError(v, ps[..j]).None?
      invariant forall q :: 0 <= q < |ps| ==> ps[q] in distances && ps[q] in sizes
      invariant forall q :: 0 <= q < j ==> distances[ps[q]] == d0[ps[q]] + Contribution(v, ps[q])
      invariant forall q :: j <= q < |ps| ==> distances[ps[q]] == d0[ps[q]]
      invariant forall q :: 0 <= q < j ==> sizes[ps[q]] == s0[ps[q]] + Hit(v, ps[q])
      invariant forall q :: j <= q < |ps| ==> sizes[ps[q]] == s0[ps[q]]
    {
      var (sp1, sp2) := ps[j];
      RecordErrorStep(v, ps, j);
      if sp1 in v.vals && sp2 in v.vals {
        if v.vals[sp1].NaN? || v.vals[sp2].NaN? {
          RecordErrorPrefix(v, ps, j + 1);
          return Some(ps[j]), distances, sizes;
        }
        var term := Term(v.vals[sp1].v, v.vals[sp2].v);
        distances := distances[ps[j] := distances[ps[j]] + term];
        sizes := sizes[ps[j] := sizes[ps[j]] + 1.0];
      } else {
        assert Contribution(v, ps[j]) == 0.0 && Hit(v, ps[j]) == 0.0;
      }
      j := j + 1;
    }
    assert ps[..j] == ps;
    err := None;
  }

  lemma RecordErrorStep(v: Record, ps: seq<Pair>, j: nat)
    requires j < |ps| && RecordError(v, ps[..j]).None?
    ensures RecordError(v, ps[..j + 1]) == if HasNaN(v, ps[j]) then Some(ps[j]) else None
  {
    assert ps[..j + 1][..j] == ps[..j];
  }

  /** The last loop of `scaled_L2norm`: 1.0 for a pair with count 0, else
      sqrt(sum)/sqrt(count). */
  method FinaliseAll(ps: seq<Pair>, distances: map<Pair, real>, sizes: map<Pair, real>) returns (res: map<Pair, Dist>)
    requires forall q :: 0 <= q < |ps| ==> ps[q] in distances && ps[q] in sizes
    ensures res.Keys == set q | 0 <= q < |ps| :: ps[q]
    ensures forall p :: p in res ==> res[p] == Finalise(distances[p], sizes[p])
  {
    res := map[];
    var j := 0;
    while j < |ps|
      invariant j <= |ps|
      invariant res.Keys == set q | 0 <= q < j :: ps[q]
      invariant forall p :: p in res ==> res[p] == Finalise(distances[p], sizes[p])
    {
      if sizes[ps[j]] == 0.0 {
        res := res[ps[j] := Sentinel];
      } else {
        res := res[ps[j] := Root(distances[ps[j]], sizes[ps[j]])];
      }
      j := j + 1;
    }
  }

  /** A NaN met at pair j of record i is the first error of the whole run
      when nothing failed before it. */
  lemma PrefixError(values: seq<Record>, ps: seq<Pair>, i: nat, j: nat)
    requires i < |values| && j <= |ps|
    requires FirstError(values[..i], ps).None? && RecordError(values[i], ps[..j]).Some?
    ensures FirstError(values, ps) == RecordError(values[i], ps[..j])
  {
    RecordErrorPrefix(values[i], ps, j);
    assert values[..i + 1][..i] == values[..i];
    FirstErrorPrefix(values, ps, i + 1);
  }

  lemma {:induction false} RecordErrorPrefix(v: Record, ps: seq<Pair>, j: nat)
    requires j <= |ps| && RecordError(v, ps[..j]).Some?
    ensures RecordError(v, ps) == RecordError(v, ps[..j])
    decreases |ps| - j
  {
    if j < |ps| {
      assert ps[..j + 1][..j] == ps[..j];
      RecordErrorPrefix(v, ps, j + 1);
    } else {
      assert ps[..j] == ps;
    }
  }

  lemma {:induction false} FirstErrorPrefix(values: seq<Record>, ps: seq<Pair>, n: nat)
    requires n <= |values| && FirstError(values[..n], ps).Some?
    ensures FirstError(values, ps) == FirstError(values[..n], ps)
    decreases |values| - n
  {
    if n < |values| {
      assert values[..n + 1][..n] == values[..n];
      FirstErrorPrefix(values, ps, n + 1);
    } else {
      assert values[..n] == values;
    }
  }

  /** Over distinct species, no pair is produced twice. */
  lemma {:induction false} PairsDistinct(s: seq<string>)
    requires Distinct(s)
    ensures Distinct(Pairs(s))
  {
    if s != [] {
      var lead, rest := Lead(s[0], s[1..]), Pairs(s[1..]);
      assert Distinct(s[1..]) by {
        forall i, j | 0 <= i < j < |s[1..]|
          ensures s[1..][i] != s[1..][j]
        {
          assert s[1..][i] == s[i + 1] && s[1..][j] == s[j + 1];
        }
      }
      PairsDistinct(s[1..]);
      var all := lead + rest;
      forall i, j | 0 <= i < j < |all|
        ensures all[i] != all[j]
      {
        if j < |lead| {
          assert all[i] == (s[0], s[1..][i]) && all[j] == (s[0], s[1..][j]);
        } else if i < |lead| {
          assert all[j] == rest[j - |lead|];
          PairsMembership(s[1..], rest[j - |lead|]);
          var a, b :| 0 <= a < b < |s[1..]| && rest[j - |lead|] == (s[1..][a], s[1..][b]);
          assert all[j].0 == s[a + 1];
        } else {
          assert all[i] == rest[i - |lead|] && all[j] == rest[j - |lead|];
        }
      }
    }
  }

  // ---------------------------------------------------------------------
  // What the distances mean
  // ---------------------------------------------------------------------

  /** A record with non-negative values for both species adds a term in
      [0, 1]. */
  predicate NonNegative(v: Record, p: Pair)
  {
    Contributes(v, p) ==> v.vals[p.0].Num? && v.vals[p.1].Num? && v.vals[p.0].v >= 0.0 && v.vals[p.1].v >= 0.0
  }

  /** With non-negative values the sum never exceeds the count, so every
      distance lies in [0, 1]. */
  lemma {:induction false} SumBounded(values: seq<Record>, p: Pair)
    requires forall i :: 0 <= i < |values| ==> NonNegative(values[i], p)
    ensures 0.0 <= SumOf(values, p) <= CountOf(values, p) as real
  {
    if values != [] {
      var v := values[|values| - 1];
      SumBounded(values[..|values| - 1], p);
      if Contributes(v, p) {
        TermProperties(v.vals[p.0].v, v.vals[p.1].v);
      }
    }
  }

  lemma DistanceInUnit(values: seq<Record>, p: Pair)
    requires forall i :: 0 <= i < |values| ==> NonNegative(values[i], p)
    ensures InUnit(Finalise(SumOf(values, p), CountOf(values, p) as real))
  {
    SumBounded(values, p);
  }

  /** A pair gets the sentinel 1.0 exactly when no record has both its
      species. */
  lemma {:induction false} SentinelIffUnobserved(values: seq<Record>, p: Pair)
    ensures Finalise(SumOf(values, p), CountOf(values, p) as real).Sentinel?
            <==> forall i :: 0 <= i < |values| ==> !Contributes(values[i], p)
  {
    if values != [] {
      var init := values[..|values| - 1];
      SentinelIffUnobserved(init, p);
      assert forall i :: 0 <= i < |init| ==> init[i] == values[i];
    }
  }

  /** The two species agree on a record: equal values (or it lacks one). */
  predicate Agree(v: Record, p: Pair)
  {
    Contributes(v, p) ==> v.vals[p.0] == v.vals[p.1] && v.vals[p.0].Num?
  }

  /** When every contributing record holds equal values for the two species,
      their distance is 0 (or the sentinel when none contributes). */
  lemma {:induction false} EqualValuesZero(values: seq<Record>, p: Pair)
    requires forall i :: 0 <= i < |values| ==> Agree(values[i], p)
    ensures SumOf(values, p) == 0.0
    ensures CountOf(values, p) > 0 ==> IsZero(Finalise(SumOf(values, p), CountOf(values, p) as real))
  {
    if values != [] {
      var v := values[|values| - 1];
      EqualValuesZero(values[..|values| - 1], p);
      if Contributes(v, p) {
        TermProperties(v.vals[p.0].v, v.vals[p.1].v);
      }
    }
  }

  /** Two species with values 2 and 1 in a single record are at distance
      sqrt(0.25)/sqrt(1) = 0.5. */
  lemma SingleRecordExample()
    ensures var v := Record(["A", "B"], map["A" := Num(2.0), "B" := Num(1.0)]);
            Finalise(SumOf([v], ("A", "B")), CountOf([v], ("A", "B")) as real) == Root(0.25, 1.0)
  {
    var v := Record(["A", "B"], map["A" := Num(2.0), "B" := Num(1.0)]);
    assert [v][..0] == [];
    assert Term(2.0, 1.0) == 0.25;
  }

  // ---------------------------------------------------------------------
  // filter_values
  // ---------------------------------------------------------------------

  /** Whether `filter_values` lets a record through: `intersection` keeps
      the records with as many species as `species`, `informative` those
      without exactly one (so empty records pass), `union` all. */
  predicate Keeps(constraint: string, nspecies: nat, v: Record)
  {
    if constraint == "intersection" then Len(v) == nspecies
    else if constraint == "informative" then Len(v) != 1
    else true
  }

  predicate KnownConstraint(constraint: string)
  {
    constraint == "intersection" || constraint == "informative" || constraint == "union"
  }

  function FilterFrom(constraint: string, nspecies: nat, values: seq<Record>): seq<Record>
  {
    if values == [] then []
    else (if Keeps(constraint, nspecies, values[0]) then [values[0]] else []) + FilterFrom(constraint, nspecies, values[1..])
  }

  /** `filter_values(constraint, species, values)`, consumed in full; a
      ValueError for an unknown constraint. */
  function FilterValues(constraint: string, species: seq<string>, values: seq<Record>): (r: Result<seq<Record>, string>)
    ensures r.Err? <==> !KnownConstraint(constraint)
  {
    if !KnownConstraint(constraint) then Err(constraint)
    else Ok(FilterFrom(constraint, |species|, values))
  }

  /** The kept records are exactly the input records that pass. */
  lemma {:induction false} FilterMembers(constraint: string, nspecies: nat, values: seq<Record>, v: Record)
    ensures v in FilterFrom(constraint, nspecies, values) <==> v in values && Keeps(constraint, nspecies, v)
  {
    if values != [] {
      FilterMembers(constraint, nspecies, values[1..], v);
      assert values == [values[0]] + values[1..];
    }
  }

  /** Filtering distributes over concatenation, so the input order is kept. */
  lemma {:induction false} FilterAppend(constraint: string, nspecies: nat, a: seq<Record>, b: seq<Record>)
    ensures FilterFrom(constraint, nspecies, a + b)
            == FilterFrom(constraint, nspecies, a) + FilterFrom(constraint, nspecies, b)
  {
    if a == [] {
      assert a + b == b;
    } else {
      assert (a + b)[1..] == a[1..] + b;
      assert (a + b)[0] == a[0];
      FilterAppend(constraint, nspecies, a[1..], b);
      var x := if Keeps(constraint, nspecies, a[0]) then [a[0]] else [];
      var fa, fb := FilterFrom(constraint, nspecies, a[1..]), FilterFrom(constraint, nspecies, b);
      assert FilterFrom(constraint, nspecies, a + b) == x + (fa + fb);
      assert x + (fa + fb) == (x + fa) + fb;
    }
  }

  /** `union` keeps every record in order. */
  lemma {:induction false} UnionKeepsAll(species: seq<string>, values: seq<Record>)
    ensures FilterValues("union", species, values) == Ok(values)
  {
    if values != [] {
      UnionKeepsAll(species, values[1..]);
      assert values == [values[0]] + values[1..];
    }
  }
}
