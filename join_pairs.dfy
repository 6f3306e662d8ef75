/** `src/join_pairs.py`: joining the left and right pairs files on the
    orthology groups. A record is one csv row of a pairs file: gene 1, gene
    2, the Hi-C value and the adjacency flag. */
module JoinPairs {
  import opened Common

  type Row = seq<string>

  // ---------------------------------------------------------------------
  // select_lines
  // ---------------------------------------------------------------------

  /** `record[0] in orthos and record[1] in orthos`. */
  predicate Selected(orthos: set<string>, row: Row)
  {
    |row| >= 2 && row[0] in orthos && row[1] in orthos
  }

  /** The rows on which that test raises IndexError: no field at all, or a
      single field that is an ortholog (so `record[1]` is evaluated). */
  predicate Unindexable(orthos: set<string>, row: Row)
  {
    |row| == 0 || (|row| == 1 && row[0] in orthos)
  }

  /** `select_lines(orthos, f)` on the rows of `f`, drained: the selected
      rows in file order, or the first row that raises. */
  function SelectLines(orthos: set<string>, rows: seq<Row>): Result<seq<Row>, Row>
  {
    if rows == [] then Ok([])
    else if Unindexable(orthos, rows[0]) then Err(rows[0])
    else
      match SelectLines(orthos, rows[1..])
      case Err(row) => Err(row)
      case Ok(rest) => Ok((if Selected(orthos, rows[0]) then [rows[0]] else []) + rest)
  }

  /** The generator yields exactly the rows whose first two genes are
      orthologs, and fails exactly on a row it cannot index. */
  lemma {:induction false} SelectLinesMeans(orthos: set<string>, rows: seq<Row>)
    ensures SelectLines(orthos, rows).Ok? <==> forall i :: 0 <= i < |rows| ==> !Unindexable(orthos, rows[i])
    ensures SelectLines(orthos, rows).Ok? ==>
              forall row :: row in SelectLines(orthos, rows).value <==> row in rows && Selected(orthos, row)
    ensures SelectLines(orthos, rows).Err? ==>
              SelectLines(orthos, rows).error in rows && Unindexable(orthos, SelectLines(orthos, rows).error)
  {
    if rows != [] {
      SelectLinesMeans(orthos, rows[1..]);
      assert forall i :: 1 <= i < |rows| ==> rows[1..][i - 1] == rows[i];
      assert rows == [rows[0]] + rows[1..];
    }
  }

  /** The filter keeps file order: selecting from two stretches of the file
      selects from each in turn. */
  lemma {:induction false} SelectLinesAppend(orthos: set<string>, a: seq<Row>, b: seq<Row>)
    requires SelectLines(orthos, a).Ok? && SelectLines(orthos, b).Ok?
    ensures SelectLines(orthos, a + b) == Ok(SelectLines(orthos, a).value + SelectLines(orthos, b).value)
  {
    if a != [] {
      assert (a + b)[1..] == a[1..] + b;
      assert (a + b)[0] == a[0];
      SelectLinesAppend(orthos, a[1..], b);
      var x := if Selected(orthos, a[0]) then [a[0]] else [];
      var ra, rb := SelectLines(orthos, a[1..]).value, SelectLines(orthos, b).value;
      assert SelectLines(orthos, a) == Ok(x + ra);
      assert x + (ra + rb) == (x + ra) + rb;
    } else {
      assert a + b == b;
      assert [] + SelectLines(orthos, b).value == SelectLines(orthos, b).value;
    }
  }

  // ---------------------------------------------------------------------
  // adjaceny_status, threshold and the adjacency filter
  // ---------------------------------------------------------------------

  /** `adjaceny_status(left, right)`. */
  function AdjacencyStatus(left: bool, right: bool): string
  {
    if left && right then "both"
    else if left && !right then "left"
    else if !left && right then "right"
    else "none"
  }

  /** The four statuses are distinct, so the status names the pair of
      flags it came from. */
  lemma AdjacencyStatusInjective(a: bool, b: bool, c: bool, d: bool)
    ensures AdjacencyStatus(a, b) == AdjacencyStatus(c, d) <==> a == c && b == d
  {
    assert "both" != "left" && "both" != "right" && "both" != "none";
    assert "left" != "right" && "left" != "none" && "right" != "none";
  }

  /** Whether `get_records` keeps a row of adjacency `adj` under the
      `adj_status` option. */
  predicate Keeps(adjStatus: string, adj: string)
  {
    if adjStatus == "all" then true
    else if adjStatus == "none" then adj == "none"
    else if adjStatus == "and" then adj == "both"
    else if adjStatus == "or" then adj != "none"
    else if adjStatus == "xor" then !(adj == "none" || adj == "both")
    else true
  }

  /** The filter in terms of the two flags: 'none' keeps pairs adjacent in
      neither species, 'and' in both, 'or' in at least one, 'xor' in exactly
      one; 'all' and any other value keep everything. */
  lemma AdjacencyFilter(adjStatus: string, left: bool, right: bool)
    ensures var kept := Keeps(adjStatus, AdjacencyStatus(left, right));
            (adjStatus == "all" ==> kept)
            && (adjStatus == "none" ==> (kept <==> !left && !right))
            && (adjStatus == "and" ==> (kept <==> left && right))
            && (adjStatus == "or" ==> (kept <==> left || right))
            && (adjStatus == "xor" ==> (kept <==> left != right))
            && (adjStatus !in {"all", "none", "and", "or", "xor"} ==> kept)
  {
    AdjacencyStatusInjective(left, right, false, false);
    AdjacencyStatusInjective(left, right, true, true);
  }

  /** `val < limit` on Python floats: false as soon as either is NaN. */
  predicate Below(val: Float, limit: Float)
  {
    val.Num? && limit.Num? && val.v < limit.v
  }

  /** `threshold(limit, val)`. */
  function Threshold(limit: Float, val: Float): Float
  {
    if Below(val, limit) then limit else val
  }

  /** The clamp: NaN stays NaN, a number is raised to the limit, never
      lowered, and clamping twice changes nothing. */
  lemma ThresholdMeans(limit: Float, val: Float)
    ensures Threshold(limit, val).NaN? <==> val.NaN?
    ensures val.Num? && limit.Num? ==>
              Threshold(limit, val).Num? && Threshold(limit, val).v >= limit.v && Threshold(limit, val).v >= val.v
              && (Threshold(limit, val).v == limit.v || Threshold(limit, val).v == val.v)
    ensures limit.NaN? ==> Threshold(limit, val) == val
    ensures Threshold(limit, Threshold(limit, val)) == Threshold(limit, val)
  {
  }

  // ---------------------------------------------------------------------
  // get_records
  // ---------------------------------------------------------------------

  /** The inner dict of `records[k]`: the left and right record stored under
      the key so far (main only ever sets these two keys). */
  datatype Sides = Sides(left: Option<Row>, right: Option<Row>)
  {
    /** `len(records[k]) == 2`. */
    predicate Complete() { left.Some? && right.Some? }
  }

  datatype Side = Left | Right

  /** The library calls get_records makes on the fields: `strtobool`, `float`
      and `str` on a float; None where the call raises. */
  datatype Conversions = Conversions(strtobool: string -> Option<bool>, float: string -> Option<Float>,
                                     show: Float -> string)

  /** The exceptions get_records can raise on a record: IndexError on a
      record with fewer than four fields, ValueError from strtobool or
      float. */
  datatype JoinError = Short(row: Row) | NotABool(text: string) | NotAFloat(text: string)

  datatype RowOutcome = Drop | Emit(row: Row) | Fail(error: JoinError)

  /** `bool(strtobool(r[3]))`. */
  function Flag(conv: Conversions, row: Row): (r: Result<bool, JoinError>)
    ensures r.Ok? ==> |row| >= 4
  {
    if |row| < 4 then Err(Short(row))
    else
      match conv.strtobool(row[3])
      case None => Err(NotABool(row[3]))
      case Some(b) => Ok(b)
  }

  /** `threshold(th, float(r[2]))`. */
  function Clamped(conv: Conversions, th: Float, row: Row): Result<Float, JoinError>
    requires |row| >= 4
  {
    match conv.float(row[2])
    case None => Err(NotAFloat(row[2]))
    case Some(x) => Ok(Threshold(th, x))
  }

  /** What the loop of get_records does with one complete key, whose left
      and right records are `r1` and `r2`, in the order it evaluates things. */
  function JoinStep(adjStatus: string, th: Option<Float>, conv: Conversions, r1: Row, r2: Row): RowOutcome
  {
    match Flag(conv, r1)
    case Err(e) => Fail(e)
    case Ok(b1) =>
      match Flag(conv, r2)
      case Err(e) => Fail(e)
      case Ok(b2) =>
        if !Keeps(adjStatus, AdjacencyStatus(b1, b2)) then Drop
        else if th.None? then Emit([r1[0], r1[1], r2[0], r2[1], r1[2], r2[2]])
        else
          match Clamped(conv, th.value, r1)
          case Err(e) => Fail(e)
          case Ok(v1) =>
            if v1.NaN? then Drop
            else
              match Clamped(conv, th.value, r2)
              case Err(e) => Fail(e)
              case Ok(v2) =>
                if v2.NaN? then Drop
                else Emit([r1[0], r1[1], r2[0], r2[1], conv.show(v1), conv.show(v2)])
  }

  /** A row is written only when both records carry a readable flag and the
      pair passes the adjacency filter; it carries the four gene names, and
      either the two raw values or, under a threshold, the two clamped values,
      neither NaN. */
  lemma JoinStepMeans(adjStatus: string, th: Option<Float>, conv: Conversions, r1: Row, r2: Row)
    requires JoinStep(adjStatus, th, conv, r1, r2).Emit?
    ensures |r1| >= 4 && |r2| >= 4
    ensures conv.strtobool(r1[3]).Some? && conv.strtobool(r2[3]).Some?
    ensures Keeps(adjStatus, AdjacencyStatus(conv.strtobool(r1[3]).value, conv.strtobool(r2[3]).value))
    ensures var row := JoinStep(adjStatus, th, conv, r1, r2).row;
            |row| == 6 && row[..4] == [r1[0], r1[1], r2[0], r2[1]]
    ensures th.None? ==> JoinStep(adjStatus, th, conv, r1, r2).row[4..] == [r1[2], r2[2]]
    ensures th.Some? ==>
              conv.float(r1[2]).Some? && conv.float(r2[2]).Some?
              && var v1 := Threshold(th.value, conv.float(r1[2]).value);
                 var v2 := Threshold(th.value, conv.float(r2[2]).value);
                 v1.Num? && v2.Num? && JoinStep(adjStatus, th, conv, r1, r2).row[4..] == [conv.show(v1), conv.show(v2)]
  {
  }

  /** Under a threshold, a record whose value reads as NaN is dropped (when
      the other record does not fail first). */
  lemma ThresholdDropsNaN(adjStatus: string, th: Float, conv: Conversions, r1: Row, r2: Row)
    requires |r1| >= 4 && conv.float(r1[2]) == Some(NaN)
    ensures !JoinStep(adjStatus, Some(th), conv, r1, r2).Emit?
  {
  }

  function Step(adjStatus: string, th: Option<Float>, conv: Conversions): (Row, Row) -> RowOutcome
  {
    (r1, r2) => JoinStep(adjStatus, th, conv, r1, r2)
  }

  /** The rows get_records returns for the complete entries `done`, taken in
      order; the first failing entry raises. */
  function Joined(step: (Row, Row) -> RowOutcome, done: seq<(Row, Row)>): Result<seq<Row>, JoinError>
  {
    if done == [] then Ok([])
    else
      match Joined(step, done[..|done| - 1])
      case Err(e) => Err(e)
      case Ok(rows) =>
        match step(done[|done| - 1].0, done[|done| - 1].1)
        case Drop => Ok(rows)
        case Emit(row) => Ok(rows + [row])
        case Fail(e) => Err(e)
  }

  /** Number of entries for which `step` writes a row. */
  function Emitted(step: (Row, Row) -> RowOutcome, done: seq<(Row, Row)>): nat
  {
    if done == [] then 0
    else Emitted(step, done[..|done| - 1]) + (if step(done[|done| - 1].0, done[|done| - 1].1).Emit? then 1 else 0)
  }

  /** get_records succeeds exactly when no entry fails, returns one row per
      entry that writes one, in entry order, and each row is the one its
      entry writes. */
  lemma {:induction false} JoinedMeans(step: (Row, Row) -> RowOutcome, done: seq<(Row, Row)>)
    ensures Joined(step, done).Ok? <==> forall i :: 0 <= i < |done| ==> !step(done[i].0, done[i].1).Fail?
    ensures Joined(step, done).Ok? ==>
              |Joined(step, done).value| == Emitted(step, done)
              && forall j :: 0 <= j < |Joined(step, done).value| ==>
                   exists i :: 0 <= i < |done| && step(done[i].0, done[i].1) == Emit(Joined(step, done).value[j])
  {
    if done != [] {
      var n := |done|;
      var pre := done[..n - 1];
      JoinedMeans(step, pre);
      assert forall i :: 0 <= i < n - 1 ==> pre[i] == done[i];
      if Joined(step, done).Ok? {
        var rows := Joined(step, done).value;
        var rows0 := Joined(step, pre).value;
        forall j | 0 <= j < |rows|
          ensures exists i :: 0 <= i < n && step(done[i].0, done[i].1) == Emit(rows[j])
        {
          if j < |rows0| {
            assert rows[j] == rows0[j];
            var i :| 0 <= i < n - 1 && step(pre[i].0, pre[i].1) == Emit(rows0[j]);
            assert step(done[i].0, done[i].1) == Emit(rows[j]);
          } else {
            assert step(done[n - 1].0, done[n - 1].1) == Emit(rows[j]);
          }
        }
      }
    }
  }

  /** The keys of `order`, in order, whose entry is complete. */
  function Completed(order: seq<string>, entries: map<string, Sides>): (r: seq<string>)
    requires forall k :: k in order ==> k in entries
    ensures forall k :: k in r ==> k in order && entries[k].Complete()
  {
    if order == [] then []
    else
      var k := order[|order| - 1];
      Completed(order[..|order| - 1], entries) + (if entries[k].Complete() then [k] else [])
  }

  /** The (left, right) records of complete keys. */
  function Payload(done: seq<string>, entries: map<string, Sides>): seq<(Row, Row)>
    requires forall k :: k in done ==> k in entries && entries[k].Complete()
  {
    if done == [] then []
    else
      var k := done[|done| - 1];
      assert k in done && entries[k].Complete();
      Payload(done[..|done| - 1], entries) + [(entries[k].left.value, entries[k].right.value)]
  }

  /** The keys of `s` that are in `keep`, in order. */
  function Only(s: seq<string>, keep: set<string>): seq<string>
  {
    if s == [] then [] else Only(s[..|s| - 1], keep) + (if s[|s| - 1] in keep then [s[|s| - 1]] else [])
  }

  /** `s` without `k` (what `del` does to the dict's key order). */
  function Remove(s: seq<string>, k: string): seq<string>
  {
    if s == [] then [] else Remove(s[..|s| - 1], k) + (if s[|s| - 1] == k then [] else [s[|s| - 1]])
  }

  lemma {:induction false} OnlyMembers(s: seq<string>, keep: set<string>)
    ensures forall x :: x in Only(s, keep) <==> x in s && x in keep
  {
    if s != [] {
      OnlyMembers(s[..|s| - 1], keep);
      assert s == s[..|s| - 1] + [s[|s| - 1]];
    }
  }

  lemma {:induction false} OnlyDistinct(s: seq<string>, keep: set<string>)
    requires Distinct(s)
    ensures Distinct(Only(s, keep))
  {
    if s != [] {
      var pre := s[..|s| - 1];
      assert Distinct(pre) by {
        assert forall i, j :: 0 <= i < j < |pre| ==> pre[i] == s[i] && pre[j] == s[j];
      }
      OnlyDistinct(pre, keep);
      OnlyMembers(pre, keep);
      assert s[|s| - 1] !in pre;
    }
  }

  lemma {:induction false} RemoveOnly(s: seq<string>, keep: set<string>, k: string)
    ensures Remove(Only(s, keep), k) == Only(s, keep - {k})
  {
    if s != [] {
      var pre := s[..|s| - 1];
      var x := s[|s| - 1];
      RemoveOnly(pre, keep, k);
      RemoveAppend(Only(pre, keep), if x in keep then [x] else [], k);
    }
  }

  lemma {:induction false} RemoveMembers(s: seq<string>, k: string)
    ensures forall x :: x in Remove(s, k) <==> x in s && x != k
  {
    if s != [] {
      RemoveMembers(s[..|s| - 1], k);
      assert s == s[..|s| - 1] + [s[|s| - 1]];
    }
  }

  lemma {:induction false} RemoveDistinct(s: seq<string>, k: string)
    requires Distinct(s)
    ensures Distinct(Remove(s, k))
  {
    if s != [] {
      var pre := s[..|s| - 1];
      assert Distinct(pre) by {
        assert forall i, j :: 0 <= i < j < |pre| ==> pre[i] == s[i] && pre[j] == s[j];
      }
      RemoveDistinct(pre, k);
      RemoveMembers(pre, k);
      assert s[|s| - 1] !in pre;
    }
  }

  lemma RemoveAppend(a: seq<string>, b: seq<string>, k: string)
    requires |b| <= 1
    ensures Remove(a + b, k) == Remove(a, k) + Remove(b, k)
  {
    if |b| == 1 {
      assert (a + b)[..|a + b| - 1] == a;
      assert b[..0] == [];
    } else {
      assert a + b == a;
    }
  }

  /** The dict `records` of join_pairs's main: a defaultdict(dict) from group
      key to the records seen so far, with its key order. */
  class Pending {
    var order: seq<string>
    var entries: map<string, Sides>

    ghost predicate Valid()
      reads this
    {
      Ordered(order, entries)
    }

    /** `defaultdict(dict)`. */
    constructor ()
      ensures Valid() && order == [] && entries == map[]
    {
      order := [];
      entries := map[];
    }

    /** `records[key][side] = tuple(record)`: a new key is created empty at
        the end of the order. */
    method Put(key: string, side: Side, row: Row)
      requires Valid()
      modifies this
      ensures Valid()
      ensures order == if key in old(entries) then old(order) else old(order) + [key]
      ensures var before := if key in old(entries) then old(entries)[key] else Sides(None, None);
              entries == old(entries)[key := if side == Left then before.(left := Some(row)) else before.(right := Some(row))]
    {
      var before := if key in entries then entries[key] else Sides(None, None);
      if key !in entries {
        order := order + [key];
      }
      entries := entries[key := if side == Left then before.(left := Some(row)) else before.(right := Some(row))];
    }

    /** `del records[key]`. */
    method Delete(key: string)
      requires Valid() && key in entries
      modifies this
      ensures Valid()
      ensures entries == old(entries) - {key}
      ensures order == Remove(old(order), key)
    {
      RemoveMembers(order, key);
      RemoveDistinct(order, key);
      entries := entries - {key};
      order := Remove(order, key);
    }

    /** The first loop of get_records: the keys whose entry holds both a
        left and a right record, in key order. */
    method CompleteKeys() returns (done: seq<string>)
      requires Valid()
      ensures done == Completed(order, entries)
    {
      done := [];
      for i := 0 to |order|
        invariant done == Completed(order[..i], entries)
      {
        assert order[..i + 1][..i] == order[..i];
        if entries[order[i]].Complete() {
          done := done + [order[i]];
        }
      }
      assert order[..|order|] == order;
    }

    /** `get_records(records, adj_status, th)`: every complete key is
        deleted, in key order, and its joined row written when the filters
        keep it; incomplete keys stay as they are. */
    method GetRecords(adjStatus: string, th: Option<Float>, conv: Conversions) returns (r: Result<seq<Row>, JoinError>)
      requires Valid()
      modifies this
      ensures Valid()
      ensures r == Joined(Step(adjStatus, th, conv), Payload(Completed(old(order), old(entries)), old(entries)))
      ensures forall k :: k in entries ==> k in old(entries) && entries[k] == old(entries)[k]
      ensures forall k :: k in old(entries) && !old(entries)[k].Complete() ==> k in entries
      ensures r.Ok? ==> forall k :: k in entries ==> !entries[k].Complete()
      ensures order == Only(old(order), entries.Keys)
    {
      ghost var ks, entries0 := order, entries;
      var done := CompleteKeys();
      ghost var step := Step(adjStatus, th, conv);
      CompletedDistinct(ks, entries0);
      DrainedStart(ks, entries0, done);
      assert done[..0] == [];
      var res := [];
      for i := 0 to |done|
        invariant Drained(order, entries, ks, entries0, done, i)
        invariant Joined(step, Payload(done[..i], entries0)) == Ok(res)
      {
        var k := done[i];
        DrainedStep(order, entries, ks, entries0, done, i);
        var r1 := entries[k].left.value;
        var r2 := entries[k].right.value;
        Delete(k);
        PayloadStep(done, entries0, i);
        match JoinStep(adjStatus, th, conv, r1, r2) {
          case Drop =>
          case Emit(row) =>
            res := res + [row];
          case Fail(e) =>
            JoinedErrorKeys(step, done, entries0, i + 1);
            return Err(e);
        }
      }
      assert done[..|done|] == done;
      r := Ok(res);
      DrainedEnd(order, entries, ks, entries0, done);
    }
  }

  /** The key order of a dict: distinct, and exactly its keys. */
  ghost predicate Ordered(order: seq<string>, entries: map<string, Sides>)
  {
    Distinct(order) && (forall k :: k in order <==> k in entries)
  }

  /** The dict (order, entries) is the dict (ks, entries0) after get_records
      has deleted the first i of the complete keys `done`. */
  ghost predicate Drained(order: seq<string>, entries: map<string, Sides>, ks: seq<string>, entries0: map<string, Sides>,
                          done: seq<string>, i: nat)
  {
    i <= |done| && Distinct(done) && (forall k :: k in done ==> k in entries0 && entries0[k].Complete())
    && Ordered(ks, entries0) && Ordered(order, entries)
    && (forall k :: k in entries <==> k in entries0 && k !in done[..i])
    && (forall k :: k in entries ==> entries[k] == entries0[k])
    && order == Only(ks, entries.Keys)
  }

  lemma DrainedStart(ks: seq<string>, entries0: map<string, Sides>, done: seq<string>)
    requires Ordered(ks, entries0) && Distinct(done)
    requires forall k :: k in done ==> k in entries0 && entries0[k].Complete()
    ensures Drained(ks, entries0, ks, entries0, done, 0)
  {
    OnlyWhole(ks, entries0.Keys);
  }

  lemma DrainedStep(order: seq<string>, entries: map<string, Sides>, ks: seq<string>, entries0: map<string, Sides>,
                    done: seq<string>, i: nat)
    requires Drained(order, entries, ks, entries0, done, i) && i < |done|
    ensures done[i] in entries && entries[done[i]] == entries0[done[i]] && entries[done[i]].Complete()
    ensures Drained(Remove(order, done[i]), entries - {done[i]}, ks, entries0, done, i + 1)
  {
    var k := done[i];
    var entries1 := entries - {k};
    NotYetDrained(done, i);
    DrainedKeysStep(entries, entries0, done, i);
    RemoveOrdered(order, entries, k);
    assert Remove(order, k) == Only(ks, entries1.Keys) by {
      RemoveOnly(ks, entries.Keys, k);
      assert entries.Keys - {k} == entries1.Keys;
    }
  }

  lemma NotYetDrained(done: seq<string>, i: nat)
    requires Distinct(done) && i < |done|
    ensures done[i] !in done[..i]
  {
    assert forall j :: 0 <= j < i ==> done[..i][j] == done[j];
  }

  lemma DrainedKeysStep(entries: map<string, Sides>, entries0: map<string, Sides>, done: seq<string>, i: nat)
    requires i < |done|
    requires forall k :: k in entries <==> k in entries0 && k !in done[..i]
    ensures forall x :: x in entries - {done[i]} <==> x in entries0 && x !in done[..i + 1]
  {
    assert done[..i + 1] == done[..i] + [done[i]];
  }

  /** Deleting a key keeps the key order of the dict. */
  lemma RemoveOrdered(order: seq<string>, entries: map<string, Sides>, k: string)
    requires Ordered(order, entries)
    ensures Ordered(Remove(order, k), entries - {k})
  {
    RemoveMembers(order, k);
    RemoveDistinct(order, k);
  }

  lemma PayloadStep(done: seq<string>, entries: map<string, Sides>, i: nat)
    requires forall k :: k in done ==> k in entries && entries[k].Complete()
    requires i < |done|
    ensures Payload(done[..i + 1], entries)
            == Payload(done[..i], entries) + [(entries[done[i]].left.value, entries[done[i]].right.value)]
  {
    assert done[..i + 1][..i] == done[..i];
  }

  lemma JoinedErrorKeys(step: (Row, Row) -> RowOutcome, done: seq<string>, entries: map<string, Sides>, n: nat)
    requires forall k :: k in done ==> k in entries && entries[k].Complete()
    requires n <= |done| && Joined(step, Payload(done[..n], entries)).Err?
    ensures Joined(step, Payload(done, entries)) == Joined(step, Payload(done[..n], entries))
  {
    PayloadPrefix(done, entries, n);
    JoinedErrorStays(step, Payload(done, entries), n);
  }

  /** Once all complete keys are deleted, none is left. */
  lemma DrainedEnd(order: seq<string>, entries: map<string, Sides>, ks: seq<string>, entries0: map<string, Sides>,
                   done: seq<string>)
    requires Drained(order, entries, ks, entries0, done, |done|)
    requires done == Completed(ks, entries0)
    ensures forall k :: k in entries ==> !entries[k].Complete()
  {
    assert done[..|done|] == done;
    forall k | k in entries
      ensures !entries[k].Complete()
    {
      if entries[k].Complete() {
        CompletedHas(ks, entries0, k);
      }
    }
  }

  /** The payload of a prefix of the keys is the prefix of the payload. */
  lemma {:induction false} PayloadPrefix(done: seq<string>, entries: map<string, Sides>, n: nat)
    requires forall k :: k in done ==> k in entries && entries[k].Complete()
    requires n <= |done|
    ensures |Payload(done, entries)| == |done| && Payload(done, entries)[..n] == Payload(done[..n], entries)
  {
    PayloadLength(done, entries);
    var m := |done|;
    if n < m {
      var init := done[..m - 1];
      assert init[..n] == done[..n];
      PayloadPrefix(init, entries, n);
      assert Payload(done, entries)[..n] == Payload(init, entries)[..n];
    } else {
      assert done[..n] == done;
    }
  }

  lemma {:induction false} PayloadLength(done: seq<string>, entries: map<string, Sides>)
    requires forall k :: k in done ==> k in entries && entries[k].Complete()
    ensures |Payload(done, entries)| == |done|
  {
    if done != [] {
      PayloadLength(done[..|done| - 1], entries);
    }
  }

  lemma {:induction false} JoinedErrorStays(step: (Row, Row) -> RowOutcome, done: seq<(Row, Row)>, n: nat)
    requires n <= |done| && Joined(step, done[..n]).Err?
    ensures Joined(step, done) == Joined(step, done[..n])
  {
    if n < |done| {
      var m := |done|;
      assert done[..m - 1][..n] == done[..n];
      JoinedErrorStays(step, done[..m - 1], n);
    } else {
      assert done[..n] == done;
    }
  }

  lemma {:induction false} CompletedHas(order: seq<string>, entries: map<string, Sides>, k: string)
    requires forall x :: x in order ==> x in entries
    requires k in order && entries[k].Complete()
    ensures k in Completed(order, entries)
  {
    var pre := order[..|order| - 1];
    if order[|order| - 1] != k {
      assert order == pre + [order[|order| - 1]];
      CompletedHas(pre, entries, k);
    }
  }

  lemma {:induction false} CompletedDistinct(order: seq<string>, entries: map<string, Sides>)
    requires forall x :: x in order ==> x in entries
    requires Distinct(order)
    ensures Distinct(Completed(order, entries))
  {
    if order != [] {
      var pre := order[..|order| - 1];
      assert Distinct(pre) by {
        assert forall i, j :: 0 <= i < j < |pre| ==> pre[i] == order[i] && pre[j] == order[j];
      }
      assert order[|order| - 1] !in pre;
      CompletedDistinct(pre, entries);
    }
  }

  /** Restricting a list to a set holding all its elements keeps it. */
  lemma {:induction false} OnlyWhole(s: seq<string>, keep: set<string>)
    requires forall x :: x in s ==> x in keep
    ensures Only(s, keep) == s
  {
    if s != [] {
      OnlyWhole(s[..|s| - 1], keep);
      assert s == s[..|s| - 1] + [s[|s| - 1]];
    }
  }
}
