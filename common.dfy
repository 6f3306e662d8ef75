/** Shared vocabulary of the phyloHiC core: Python floats with NaN, per-species
    value records, species pairs as `itertools.combinations(_, 2)` yields them,
    and the scaled-L2 term and distance shared by the distance engines. */
module Common {

  datatype Option<T> = None | Some(value: T)

  datatype Result<T, E> = Ok(value: T) | Err(error: E)

  /** A Python float as the core sees it: a real number or NaN.
      (Infinities and rounding are not modelled.) */
  datatype Float = Num(v: real) | NaN

  function Max(a: real, b: real): real { if a >= b then a else b }

  function Min(a: real, b: real): real { if a <= b then a else b }

  predicate Distinct<T(==)>(s: seq<T>) {
    forall i, j :: 0 <= i < j < |s| ==> s[i] != s[j]
  }

  // ---------------------------------------------------------------------
  // Species pairs: combinations(s, 2)
  // ---------------------------------------------------------------------

  /** The pairs (x, s[i]) for every element s[i], in order. */
  function Lead<T>(x: T, s: seq<T>): (r: seq<(T, T)>)
    ensures |r| == |s|
    ensures forall i :: 0 <= i < |s| ==> r[i] == (x, s[i])
  {
    if s == [] then [] else [(x, s[0])] + Lead(x, s[1..])
  }

  /** `combinations(s, 2)`: every (s[i], s[j]) with i < j, in lexicographic
      order of (i, j). */
  function Pairs<T>(s: seq<T>): seq<(T, T)>
  {
    if s == [] then [] else Lead(s[0], s[1..]) + Pairs(s[1..])
  }

  /** A pair is produced by `combinations(s, 2)` exactly when it is
      (s[i], s[j]) for two positions i < j. */
  lemma {:induction false} PairsMembership<T>(s: seq<T>, p: (T, T))
    ensures p in Pairs(s) <==> exists i, j :: 0 <= i < j < |s| && p == (s[i], s[j])
  {
    if s != [] {
      PairsMembership(s[1..], p);
      var lead := Lead(s[0], s[1..]);
      if p in Pairs(s) {
        if p in lead {
          var k :| 0 <= k < |lead| && lead[k] == p;
          assert p == (s[0], s[k + 1]);
        } else {
          assert p in Pairs(s[1..]);
          var i, j :| 0 <= i < j < |s[1..]| && p == (s[1..][i], s[1..][j]);
          assert p == (s[i + 1], s[j + 1]);
        }
      }
      if exists i, j :: 0 <= i < j < |s| && p == (s[i], s[j]) {
        var i, j :| 0 <= i < j < |s| && p == (s[i], s[j]);
        if i == 0 {
          assert lead[j - 1] == p;
        } else {
          assert p == (s[1..][i - 1], s[1..][j - 1]);
        }
      }
    }
  }

  /** Over distinct species, `combinations` never yields a diagonal pair nor
      both orientations of one pair. */
  lemma PairsOriented<T>(s: seq<T>, a: T, b: T)
    requires Distinct(s)
    requires (a, b) in Pairs(s)
    ensures a != b && (b, a) !in Pairs(s)
  {
    PairsMembership(s, (a, b));
    PairsMembership(s, (b, a));
  }

  /** Over distinct species, every unordered pair of members is produced in one
      orientation or the other. */
  lemma PairsCover<T>(s: seq<T>, a: T, b: T)
    requires a in s && b in s && a != b
    ensures (a, b) in Pairs(s) || (b, a) in Pairs(s)
  {
    var i :| 0 <= i < |s| && s[i] == a;
    var j :| 0 <= j < |s| && s[j] == b;
    PairsMembership(s, (a, b));
    PairsMembership(s, (b, a));
    if i < j {
      assert (a, b) == (s[i], s[j]);
    } else {
      assert (b, a) == (s[j], s[i]);
    }
  }

  /** How many entries of `ps` are {a, b} in either orientation. */
  function CountUnordered<T(==)>(ps: seq<(T, T)>, a: T, b: T): nat
  {
    if ps == [] then 0
    else CountUnordered(ps[..|ps| - 1], a, b)
         + (if ps[|ps| - 1] == (a, b) || ps[|ps| - 1] == (b, a) then 1 else 0)
  }

  lemma {:induction false} CountUnorderedAppend<T>(p: seq<(T, T)>, q: seq<(T, T)>, a: T, b: T)
    ensures CountUnordered(p + q, a, b) == CountUnordered(p, a, b) + CountUnordered(q, a, b)
  {
    if q != [] {
      assert (p + q)[..|p + q| - 1] == p + q[..|q| - 1];
      CountUnorderedAppend(p, q[..|q| - 1], a, b);
    } else {
      assert p + q == p;
    }
  }

  lemma {:induction false} CountLead<T>(x: T, s: seq<T>, a: T, b: T)
    requires Distinct(s) && x !in s && a != b
    ensures CountUnordered(Lead(x, s), a, b)
            == if (x == a && b in s) || (x == b && a in s) then 1 else 0
  {
    if s != [] {
      var n := |s|;
      var init := s[..n - 1];
      assert Lead(x, s)[..n - 1] == Lead(x, init);
      assert Distinct(init) by {
        assert forall i :: 0 <= i < |init| ==> init[i] == s[i];
      }
      InInit(s, x);
      CountLead(x, init, a, b);
      InInit(s, a);
      InInit(s, b);
    }
  }

  lemma InInit<T>(s: seq<T>, x: T)
    requires s != []
    ensures x in s <==> x == s[|s| - 1] || x in s[..|s| - 1]
  {
    assert s == s[..|s| - 1] + [s[|s| - 1]];
  }

  /** In the pairs of a record's distinct keys, each unordered pair of two keys
      occurs exactly once, and a pair with a missing member never. */
  lemma {:induction false} CountPairs<T>(s: seq<T>, a: T, b: T)
    requires Distinct(s) && a != b
    ensures CountUnordered(Pairs(s), a, b) == if a in s && b in s then 1 else 0
  {
    if s != [] {
      var t := s[1..];
      assert Distinct(t) && s[0] !in t by {
        assert forall i :: 0 <= i < |t| ==> t[i] == s[i + 1];
      }
      CountUnorderedAppend(Lead(s[0], t), Pairs(t), a, b);
      CountLead(s[0], t, a, b);
      CountPairs(t, a, b);
      InTail(s, a);
      InTail(s, b);
    }
  }

  lemma InTail<T>(s: seq<T>, x: T)
    requires s != []
    ensures x in s <==> x == s[0] || x in s[1..]
  {
    assert s == [s[0]] + s[1..];
  }

  // ---------------------------------------------------------------------
  // Per-species value records
  // ---------------------------------------------------------------------

  /** A Python dict from species name to value: `keys` is its insertion
      order, `vals` its content. */
  /** `b in m[a]` on a dict of dicts, without the KeyError. */
  predicate Has2<V>(m: map<string, map<string, V>>, a: string, b: string) {
    a in m && b in m[a]
  }

  datatype Record = Record(keys: seq<string>, vals: map<string, Float>)

  ghost predicate WellFormed(r: Record) {
    Distinct(r.keys) && forall sp :: sp in r.vals <==> sp in r.keys
  }

  /** `len(v)` of the dict. */
  function Len(r: Record): nat { |r.keys| }

  /** Both species are keys of the record. */
  predicate Has(r: Record, a: string, b: string) { a in r.vals && b in r.vals }

  // ---------------------------------------------------------------------
  // The scaled-L2 term and the finished distance
  // ---------------------------------------------------------------------

  /** One observation's contribution: (1 - mi/ma)^2, or 0 when ma == 0. */
  function Term(x: real, y: real): real
  {
    var ma := Max(x, y);
    var mi := Min(x, y);
    if ma == 0.0 then 0.0 else (1.0 - mi / ma) * (1.0 - mi / ma)
  }

  /** The term does not depend on the orientation of the pair, is zero on
      equal values, and lies in [0, 1] for non-negative values. */
  lemma TermProperties(x: real, y: real)
    ensures Term(x, y) == Term(y, x)
    ensures Term(x, x) == 0.0
    ensures 0.0 <= x && 0.0 <= y ==> 0.0 <= Term(x, y) <= 1.0
  {
    TermSymmetric(x, y);
    TermSelf(x);
    if 0.0 <= x && 0.0 <= y {
      TermUnit(x, y);
    }
  }

  lemma TermSymmetric(x: real, y: real)
    ensures Term(x, y) == Term(y, x)
  {
    assert Max(x, y) == Max(y, x) && Min(x, y) == Min(y, x);
  }

  lemma TermSelf(x: real)
    ensures Term(x, x) == 0.0
  {
    if x != 0.0 {
      assert x / x == 1.0;
    }
  }

  lemma TermUnit(x: real, y: real)
    requires 0.0 <= x && 0.0 <= y
    ensures 0.0 <= Term(x, y) <= 1.0
  {
    var ma, mi := Max(x, y), Min(x, y);
    if ma != 0.0 {
      RatioInUnit(mi, ma);
      SquareInUnit(1.0 - mi / ma);
    }
  }

  lemma SquareInUnit(t: real)
    requires 0.0 <= t <= 1.0
    ensures 0.0 <= t * t <= 1.0
  {
    assert t * t <= t * 1.0;
  }

  /** mi/ma of two non-negative values lies in [0, 1]. */
  lemma RatioInUnit(mi: real, ma: real)
    requires 0.0 <= mi <= ma && 0.0 < ma
    ensures 0.0 <= mi / ma <= 1.0
  {
    var q := mi / ma;
    assert q * ma == mi;
  }

  /** A finished distance. sqrt is kept abstract: `Root(sum, size)` is
      sqrt(sum) / sqrt(size), and `Sentinel` the constant 1.0 given to a pair
      without observations. */
  datatype Dist = Sentinel | Root(sum: real, size: real)

  /** sqrt is monotone, so sqrt(sum)/sqrt(size) lies in [0, 1] exactly when
      0 <= sum <= size. */
  predicate InUnit(d: Dist) {
    d.Sentinel? || (0.0 < d.size && 0.0 <= d.sum <= d.size)
  }

  /** The distance denotes the value 0. */
  predicate IsZero(d: Dist) { d.Root? && d.sum == 0.0 }

  /** The distance denotes the value 1 (sentinel or sum == size). */
  predicate IsOne(d: Dist) { d.Sentinel? || (d.size > 0.0 && d.sum == d.size) }

  /** Turning accumulated sum and count into a distance: 1.0 when nothing
      was observed. */
  function Finalise(sum: real, size: real): (d: Dist)
    ensures d.Sentinel? <==> size == 0.0
    ensures size > 0.0 && 0.0 <= sum <= size ==> InUnit(d)
    ensures size != 0.0 ==> d.sum == sum && d.size == size
  {
    if size == 0.0 then Sentinel else Root(sum, size)
  }
}
