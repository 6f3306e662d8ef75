/** `src/dist_pairs.py`: one distance matrix per ortholog pair.
    `distances_scaledl2` repeats scaled_L2norm of src/distlib.py statement
    for statement, except that a NaN prints the record and ends the process
    with status 7 instead of raising; the model reuses DistLib's method and
    states the exit. */
module DistPairs {
  import opened Common
  import opened DistLib

  /** How `distances_scaledl2` ends: with its table, or with
      `print(v); sys.exit(7)`. */
  datatype Outcome = Table(distances: map<Pair, Dist>) | Exit(status: int, printed: Record)

  /** The record printed before the exit: the first one holding NaN for a
      pair of species it both has. */
  function FailingRecord(values: seq<Record>, ps: seq<Pair>): Option<Record>
  {
    if values == [] then None
    else if FailingRecord(values[..|values| - 1], ps).Some? then FailingRecord(values[..|values| - 1], ps)
    else if RecordError(values[|values| - 1], ps).Some? then Some(values[|values| - 1])
    else None
  }

  /** The exit happens exactly when the ValueError of scaled_L2norm would,
      and the printed record is the first record with a NaN pair. */
  lemma {:induction false} FailingRecordAgrees(values: seq<Record>, ps: seq<Pair>)
    ensures FailingRecord(values, ps).Some? <==> FirstError(values, ps).Some?
    ensures FailingRecord(values, ps).None? <==> forall k :: 0 <= k < |values| ==> RecordError(values[k], ps).None?
    ensures FailingRecord(values, ps).Some? ==>
              exists i :: 0 <= i < |values| && values[i] == FailingRecord(values, ps).value
                          && RecordError(values[i], ps).Some?
                          && forall k :: 0 <= k < i ==> RecordError(values[k], ps).None?
  {
    if values != [] {
      var n := |values|;
      var pre := values[..n - 1];
      FailingRecordAgrees(pre, ps);
      assert forall k :: 0 <= k < n - 1 ==> pre[k] == values[k];
      if FailingRecord(pre, ps).Some? {
        var i :| 0 <= i < n - 1 && pre[i] == FailingRecord(pre, ps).value
                 && RecordError(pre[i], ps).Some? && forall k :: 0 <= k < i ==> RecordError(pre[k], ps).None?;
        assert values[i] == pre[i];
      } else if RecordError(values[n - 1], ps).Some? {
        assert values[n - 1] == FailingRecord(values, ps).value;
      }
    }
  }

  /** `distances_scaledl2(species, values)`. */
  method DistancesScaledL2(species: seq<string>, values: seq<Record>) returns (r: Outcome)
    requires Distinct(species)
    ensures r.Exit? <==> exists i, j :: 0 <= i < |values| && 0 <= j < |Pairs(species)|
                                        && HasNaN(values[i], Pairs(species)[j])
    ensures r.Exit? ==> r.status == 7 && FailingRecord(values, Pairs(species)) == Some(r.printed)
    ensures r.Table? ==> r.distances.Keys == set p | p in Pairs(species)
    ensures r.Table? ==> forall p :: p in r.distances ==>
                           r.distances[p] == Finalise(SumOf(values, p), CountOf(values, p) as real)
  {
    var res := ScaledL2Norm(species, values);
    FirstErrorMeans(values, Pairs(species));
    FailingRecordAgrees(values, Pairs(species));
    if res.Err? {
      r := Exit(7, FailingRecord(values, Pairs(species)).value);
    } else {
      r := Table(res.value);
    }
  }

  // ---------------------------------------------------------------------
  // How main calls it: one complete record at a time
  // ---------------------------------------------------------------------

  /** `[v for v in values.values() if len(v) == len(species)]`. */
  function Complete(nspecies: nat, values: seq<Record>): seq<Record>
  {
    if values == [] then []
    else (if Len(values[0]) == nspecies then [values[0]] else []) + Complete(nspecies, values[1..])
  }

  /** main's selection is filter_values with the `intersection` constraint. */
  lemma {:induction false} CompleteIsIntersection(nspecies: nat, values: seq<Record>)
    ensures Complete(nspecies, values) == FilterFrom("intersection", nspecies, values)
  {
    if values != [] {
      CompleteIsIntersection(nspecies, values[1..]);
    }
  }

  /** The kept records are exactly the input records with one value per
      species, in their input order. */
  lemma CompleteMembers(nspecies: nat, values: seq<Record>, v: Record)
    ensures v in Complete(nspecies, values) <==> v in values && Len(v) == nspecies
  {
    CompleteIsIntersection(nspecies, values);
    FilterMembers("intersection", nspecies, values, v);
  }

  /** A distinct sequence has as many elements as its set. */
  lemma {:induction false} DistinctCard<T>(s: seq<T>)
    requires Distinct(s)
    ensures |set x | x in s| == |s|
  {
    if s != [] {
      var t := s[1..];
      DistinctCard(t);
      assert (set x | x in s) == (set x | x in t) + {s[0]};
      assert forall k :: 0 <= k < |t| ==> t[k] == s[k + 1] && s[k + 1] != s[0];
    }
  }

  lemma {:induction false} SubsetCard<T>(a: set<T>, b: set<T>)
    requires a <= b
    ensures |a| <= |b|
    decreases a
  {
    if a != {} {
      var x :| x in a;
      SubsetCard(a - {x}, b - {x});
    }
  }

  /** A record of main with one value per species has every species: its
      keys are species, distinct and as many as the species. */
  lemma CompleteHasAll(species: seq<string>, v: Record, sp: string)
    requires Distinct(species) && WellFormed(v)
    requires forall k :: k in v.keys ==> k in species
    requires Len(v) == |species| && sp in species
    ensures sp in v.vals
  {
    var ks := set k | k in v.keys;
    var ss := set k | k in species;
    DistinctCard(v.keys);
    DistinctCard(species);
    assert ks <= ss;
    if sp !in ks {
      SubsetCard(ks, ss - {sp});
    }
  }

  /** On the single record main passes, a pair with a missing species is the
      sentinel 1.0, and otherwise its distance is sqrt(term)/sqrt(1), i.e.
      |1 - mi/ma| (0 when the larger value is 0). */
  lemma SingleRecord(v: Record, p: Pair)
    ensures Finalise(SumOf([v], p), CountOf([v], p) as real)
            == if Contributes(v, p) then Root(PairTerm(v, p), 1.0) else Sentinel
  {
    assert [v][..0] == [];
  }

  /** So each matrix main writes for a complete record has no sentinel:
      every pair of species is at distance sqrt(term)/sqrt(1). */
  lemma CompleteRecordMatrix(species: seq<string>, v: Record, p: Pair)
    requires Distinct(species) && WellFormed(v)
    requires forall k :: k in v.keys ==> k in species
    requires Len(v) == |species| && p in Pairs(species)
    ensures Contributes(v, p)
    ensures Finalise(SumOf([v], p), CountOf([v], p) as real) == Root(PairTerm(v, p), 1.0)
  {
    PairsMembership(species, p);
    CompleteHasAll(species, v, p.0);
    CompleteHasAll(species, v, p.1);
    SingleRecord(v, p);
  }
}
