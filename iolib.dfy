/** `src/iolib.py`: the orthologs table, the per-pair value files and the
    PHYLIP matrix. File reading is left to the caller: each reader takes the
    file's text. */
module IoLib {
  import opened Common
  import opened Text

  /** `line.split('\t')`. */
  function Fields(line: string): seq<string> { Split(line, '\t') }

  /** The non-empty lines of a file after the first (its header). */
  function DataRows(text: string): seq<string>
  {
    var ls := Lines(text);
    if ls == [] then [] else ls[1..]
  }

  // ---------------------------------------------------------------------
  // read_orthos
  // ---------------------------------------------------------------------

  /** The orthology group of gene `g`: the index of the last data row that
      lists it. */
  function LastRow(rows: seq<string>, g: string): Option<nat>
  {
    if rows == [] then None
    else if g in Fields(rows[|rows| - 1]) then Some(|rows| - 1)
    else LastRow(rows[..|rows| - 1], g)
  }

  /** A gene has a group exactly when some row lists it, and the group is
      the last such row: a gene listed on several rows keeps the last. */
  lemma {:induction false} LastRowMeans(rows: seq<string>, g: string)
    ensures LastRow(rows, g).None? <==> forall i :: 0 <= i < |rows| ==> g !in Fields(rows[i])
    ensures LastRow(rows, g).Some? ==>
              LastRow(rows, g).value < |rows| && g in Fields(rows[LastRow(rows, g).value])
              && forall j :: LastRow(rows, g).value < j < |rows| ==> g !in Fields(rows[j])
  {
    if rows != [] {
      var n := |rows|;
      LastRowMeans(rows[..n - 1], g);
      assert forall i :: 0 <= i < n - 1 ==> rows[..n - 1][i] == rows[i];
    }
  }

  /** `read_orthos`: every gene of data row i belongs to group i (the last
      row wins), and `orthos` is the set of genes with a group. */
  method ReadOrthos(text: string) returns (orthos: set<string>, groups: map<string, nat>)
    ensures orthos == groups.Keys
    ensures forall g :: g in groups <==> LastRow(DataRows(text), g).Some?
    ensures forall g :: g in groups ==> LastRow(DataRows(text), g) == Some(groups[g])
  {
    var rows := DataRows(text);
    orthos, groups := {}, map[];
    var i := 0;
    while i < |rows|
      invariant 0 <= i <= |rows|
      invariant orthos == groups.Keys
      invariant forall g :: g in groups <==> LastRow(rows[..i], g).Some?
      invariant forall g :: g in groups ==> LastRow(rows[..i], g) == Some(groups[g])
    {
      LastRowStep(rows, i);
      orthos, groups := FileRow(orthos, groups, Fields(rows[i]), i);
      i := i + 1;
    }
    assert rows[..i] == rows;
  }

  /** One data row of read_orthos: each of its genes is put in group i. */
  method FileRow(orthos0: set<string>, groups0: map<string, nat>, fields: seq<string>, i: nat)
    returns (orthos: set<string>, groups: map<string, nat>)
    requires orthos0 == groups0.Keys
    ensures orthos == groups.Keys
    ensures forall g :: g in groups <==> g in groups0 || g in fields
    ensures forall g :: g in groups ==> groups[g] == if g in fields then i else groups0[g]
  {
    orthos, groups := orthos0, groups0;
    var k := 0;
    while k < |fields|
      invariant 0 <= k <= |fields|
      invariant orthos == groups.Keys
      invariant forall g :: g in groups <==> g in groups0 || g in fields[..k]
      invariant forall g :: g in groups ==> groups[g] == if g in fields[..k] then i else groups0[g]
    {
      assert fields[..k + 1] == fields[..k] + [fields[k]];
      orthos := orthos + {fields[k]};
      groups := groups[fields[k] := i];
      k := k + 1;
    }
    assert fields[..k] == fields;
  }

  lemma LastRowStep(rows: seq<string>, i: nat)
    requires i < |rows|
    ensures forall g :: LastRow(rows[..i + 1], g) == if g in Fields(rows[i]) then Some(i) else LastRow(rows[..i], g)
  {
    assert rows[..i + 1][..i] == rows[..i];
  }

  // ---------------------------------------------------------------------
  // read_values
  // ---------------------------------------------------------------------

  /** The ValueErrors of read_values: a line that does not split into six
      fields, or a value `float()` refuses. */
  datatype ValuesError = Unpack(line: string) | NotAFloat(text: string)

  datatype LineOutcome = Skip | Keep(key: string, rec: Record) | Fail(error: ValuesError)

  /** `f'{gr[0]}_{gr[1]}'` with `gr` the two groups sorted. */
  function GroupKey(a: nat, b: nat): string
  {
    if a <= b then NatToString(a) + "_" + NatToString(b) else NatToString(b) + "_" + NatToString(a)
  }

  /** `{sp_left: f1, sp_right: f2}`; when the two names are equal the dict
      keeps one key, holding the later value. */
  function PairRecord(left: string, right: string, f1: real, f2: real): Record
  {
    if left == right then Record([left], map[left := Num(f2)])
    else Record([left, right], map[left := Num(f1), right := Num(f2)])
  }

  /** What read_values does with one data line. `parse` is Python's
      `float()` on a field, None when it raises. */
  function ValuesLine(orthos: set<string>, groups: map<string, nat>, left: string, right: string,
                      parse: string -> Option<Float>, line: string): LineOutcome
    requires orthos <= groups.Keys
  {
    var fs := Fields(line);
    if |fs| != 6 then Fail(Unpack(line))
    else if fs[0] !in orthos || fs[1] !in orthos || fs[2] !in orthos || fs[3] !in orthos then Skip
    else if {groups[fs[0]], groups[fs[1]]} != {groups[fs[2]], groups[fs[3]]} then Skip
    else
      match (parse(fs[4]), parse(fs[5]))
      case (None, _) => Fail(NotAFloat(fs[4]))
      case (Some(_), None) => Fail(NotAFloat(fs[5]))
      case (Some(f1), Some(f2)) =>
        if f1.NaN? || f2.NaN? then Skip
        else Keep(GroupKey(groups[fs[0]], groups[fs[1]]), PairRecord(left, right, f1.v, f2.v))
  }

  /** read_values applied to one line at a time: ValuesLine with the
      table, the groups and the two species fixed. */
  function Reading(orthos: set<string>, groups: map<string, nat>, left: string, right: string,
                   parse: string -> Option<Float>): string -> LineOutcome
    requires orthos <= groups.Keys
  {
    line => ValuesLine(orthos, groups, left, right, parse, line)
  }

  /** The dict read_values builds from the data lines: later lines replace
      earlier ones under the same key; the first failing line raises. */
  function ValuesOf(reading: string -> LineOutcome, lines: seq<string>): Result<map<string, Record>, ValuesError>
  {
    if lines == [] then Ok(map[])
    else
      match ValuesOf(reading, lines[..|lines| - 1])
      case Err(e) => Err(e)
      case Ok(m) =>
        match reading(lines[|lines| - 1])
        case Skip => Ok(m)
        case Keep(k, rec) => Ok(m[k := rec])
        case Fail(e) => Err(e)
  }

  /** `read_values(orthos, groups, sp_left, sp_right, name)` on the file's
      text. */
  method ReadValues(orthos: set<string>, groups: map<string, nat>, left: string, right: string,
                    parse: string -> Option<Float>, text: string)
    returns (r: Result<map<string, Record>, ValuesError>)
    requires orthos <= groups.Keys
    ensures r == ValuesOf(Reading(orthos, groups, left, right, parse), DataRows(text))
  {
    var lines := DataRows(text);
    ghost var reading := Reading(orthos, groups, left, right, parse);
    var values: map<string, Record> := map[];
    var i := 0;
    while i < |lines|
      invariant 0 <= i <= |lines|
      invariant ValuesOf(reading, lines[..i]) == Ok(values)
    {
      var outcome := ValuesLine(orthos, groups, left, right, parse, lines[i]);
      assert reading(lines[i]) == outcome;
      ValuesOfStep(reading, lines, i, values);
      match outcome {
        case Skip =>
        case Keep(k, rec) =>
          values := values[k := rec];
        case Fail(e) =>
          ValuesErrorStays(reading, lines, i + 1);
          return Err(e);
      }
      i := i + 1;
    }
    assert lines[..i] == lines;
    r := Ok(values);
  }

  /** Reading one more line. */
  lemma ValuesOfStep(reading: string -> LineOutcome, lines: seq<string>, i: nat, m: map<string, Record>)
    requires i < |lines| && ValuesOf(reading, lines[..i]) == Ok(m)
    ensures ValuesOf(reading, lines[..i + 1])
            == match reading(lines[i])
               case Skip => Ok(m)
               case Keep(k, rec) => Ok(m[k := rec])
               case Fail(e) => Err(e)
  {
    assert lines[..i + 1][..i] == lines[..i];
  }

  /** Once a prefix of the lines fails, so does the whole file, with the
      same error. */
  lemma {:induction false} ValuesErrorStays(reading: string -> LineOutcome, lines: seq<string>, n: nat)
    requires n <= |lines|
    requires ValuesOf(reading, lines[..n]).Err?
    ensures ValuesOf(reading, lines) == ValuesOf(reading, lines[..n])
  {
    if n < |lines| {
      var k := |lines|;
      assert lines[..k - 1][..n] == lines[..n];
      ValuesErrorStays(reading, lines[..k - 1], n);
    } else {
      assert lines[..n] == lines;
    }
  }

  /** The line is kept and stored under key `k`. */
  predicate KeptUnder(out: LineOutcome, k: string)
  {
    out.Keep? && out.key == k
  }

  /** Reading succeeds exactly when no line fails. */
  lemma {:induction false} ValuesOkMeans(reading: string -> LineOutcome, lines: seq<string>)
    ensures ValuesOf(reading, lines).Ok? <==> forall i :: 0 <= i < |lines| ==> !reading(lines[i]).Fail?
  {
    if lines != [] {
      var n := |lines|;
      var pre := lines[..n - 1];
      ValuesOkMeans(reading, pre);
      assert forall i :: 0 <= i < n - 1 ==> pre[i] == lines[i];
    }
  }

  /** The keys of the dict are the keys of the kept lines. */
  lemma {:induction false} ValuesKeys(reading: string -> LineOutcome, lines: seq<string>, k: string)
    requires ValuesOf(reading, lines).Ok?
    ensures k in ValuesOf(reading, lines).value <==> exists i :: 0 <= i < |lines| && KeptUnder(reading(lines[i]), k)
  {
    if lines != [] {
      var n := |lines|;
      var pre := lines[..n - 1];
      ValuesKeys(reading, pre, k);
      assert forall i :: 0 <= i < n - 1 ==> pre[i] == lines[i];
      if exists i :: 0 <= i < n && KeptUnder(reading(lines[i]), k) {
        var i :| 0 <= i < n && KeptUnder(reading(lines[i]), k);
        if i < n - 1 {
          assert KeptUnder(reading(pre[i]), k);
        }
      }
    }
  }

  /** Every key of the dict holds the record of the last line kept under
      it: a later line for the same pair of groups replaces an earlier one. */
  lemma {:induction false} ValuesLastWins(reading: string -> LineOutcome, lines: seq<string>, k: string)
    requires ValuesOf(reading, lines).Ok? && k in ValuesOf(reading, lines).value
    ensures exists i :: 0 <= i < |lines| && reading(lines[i]) == Keep(k, ValuesOf(reading, lines).value[k])
                        && forall j :: i < j < |lines| ==> !KeptUnder(reading(lines[j]), k)
  {
    var n := |lines|;
    var pre := lines[..n - 1];
    var m := ValuesOf(reading, lines).value;
    var out := reading(lines[n - 1]);
    if out.Keep? && out.key == k {
      assert reading(lines[n - 1]) == Keep(k, m[k]);
    } else {
      var m0 := ValuesOf(reading, pre).value;
      assert k in m0 && m[k] == m0[k];
      ValuesLastWins(reading, pre, k);
      var i :| 0 <= i < n - 1 && reading(pre[i]) == Keep(k, m0[k])
               && forall j :: i < j < n - 1 ==> !KeptUnder(reading(pre[j]), k);
      assert forall j :: 0 <= j < n - 1 ==> pre[j] == lines[j];
      assert reading(lines[i]) == Keep(k, m[k]);
    }
  }

  /** A kept line has its four genes in `orthos`, the same two groups on both
      sides, two numeric non-NaN values, and is stored under the groups of
      its first two genes as exactly {sp_left: f1, sp_right: f2}. */
  lemma KeptLine(orthos: set<string>, groups: map<string, nat>, left: string, right: string,
                 parse: string -> Option<Float>, line: string)
    requires orthos <= groups.Keys
    requires ValuesLine(orthos, groups, left, right, parse, line).Keep?
    ensures var fs := Fields(line);
            var out := ValuesLine(orthos, groups, left, right, parse, line);
            |fs| == 6 && fs[0] in orthos && fs[1] in orthos && fs[2] in orthos && fs[3] in orthos
            && {groups[fs[0]], groups[fs[1]]} == {groups[fs[2]], groups[fs[3]]}
            && parse(fs[4]).Some? && parse(fs[4]).value.Num?
            && parse(fs[5]).Some? && parse(fs[5]).value.Num?
            && out.key == GroupKey(groups[fs[0]], groups[fs[1]])
            && out.rec == PairRecord(left, right, parse(fs[4]).value.v, parse(fs[5]).value.v)
  {
  }

  /** The stored record is a well-formed dict holding the two species, and
      no stored value is NaN. */
  lemma PairRecordFacts(left: string, right: string, f1: real, f2: real)
    ensures var rec := PairRecord(left, right, f1, f2);
            WellFormed(rec) && rec.vals.Keys == {left, right}
            && rec.vals[right] == Num(f2) && (left != right ==> rec.vals[left] == Num(f1))
  {
  }

  /** The key does not depend on the order of the two groups. */
  lemma GroupKeySymmetric(a: nat, b: nat)
    ensures GroupKey(a, b) == GroupKey(b, a)
  {
  }

  lemma GroupKeySplits(a: nat, b: nat)
    requires a <= b
    ensures Split(GroupKey(a, b), '_') == [NatToString(a), NatToString(b)]
  {
    DigitsFree(NatToString(a), '_');
    DigitsFree(NatToString(b), '_');
    SplitAfterPiece(NatToString(a), '_', NatToString(b));
    SplitPlain(NatToString(b), '_');
  }

  lemma DigitsFree(s: string, c: char)
    requires forall i :: 0 <= i < |s| ==> IsDigit(s[i])
    requires !IsDigit(c)
    ensures c !in s
  {
  }

  /** Two lines share a key exactly when their first genes name the same
      pair of groups, whatever the order. */
  lemma GroupKeyInjective(a: nat, b: nat, c: nat, d: nat)
    ensures GroupKey(a, b) == GroupKey(c, d) <==> {a, b} == {c, d}
  {
    var lo1, hi1 := if a <= b then a else b, if a <= b then b else a;
    var lo2, hi2 := if c <= d then c else d, if c <= d then d else c;
    GroupKeySplits(lo1, hi1);
    GroupKeySplits(lo2, hi2);
    assert GroupKey(a, b) == GroupKey(lo1, hi1);
    assert GroupKey(c, d) == GroupKey(lo2, hi2);
    if GroupKey(a, b) == GroupKey(c, d) {
      assert NatToString(lo1) == NatToString(lo2) && NatToString(hi1) == NatToString(hi2);
      ParseNatToString(lo1);
      ParseNatToString(lo2);
      ParseNatToString(hi1);
      ParseNatToString(hi2);
    }
    if {a, b} == {c, d} {
      assert a in {c, d} && b in {c, d} && c in {a, b} && d in {a, b};
    }
  }

  // ---------------------------------------------------------------------
  // phylip
  // ---------------------------------------------------------------------

  /** The cell of row `a`, column `b`: '0' on the diagonal, the formatted
      distance (a, b) when present, else (b, a), else nothing (KeyError).
      `fmt` is `f'{x:.8f}'`. */
  function Cell<D>(d: map<string, map<string, D>>, fmt: D -> string, a: string, b: string): Option<string>
  {
    if a == b then Some("0")
    else if Has2(d, a, b) then Some(fmt(d[a][b]))
    else if Has2(d, b, a) then Some(fmt(d[b][a]))
    else None
  }

  /** The cells of row `a` against the species `bs`, or the first species
      without a distance. */
  function RowCells<D>(d: map<string, map<string, D>>, fmt: D -> string, a: string, bs: seq<string>): Result<seq<string>, string>
  {
    if bs == [] then Ok([])
    else
      match Cell(d, fmt, a, bs[0])
      case None => Err(bs[0])
      case Some(c) =>
        match RowCells(d, fmt, a, bs[1..])
        case Err(b) => Err(b)
        case Ok(cs) => Ok([c] + cs)
  }

  /** The rows for the species `heads`, each its name and its cells joined by
      tabs, or the first (row, column) without a distance. */
  function Rows<D>(species: seq<string>, d: map<string, map<string, D>>, fmt: D -> string, heads: seq<string>): Result<seq<string>, (string, string)>
  {
    if heads == [] then Ok([])
    else
      match RowCells(d, fmt, heads[0], species)
      case Err(b) => Err((heads[0], b))
      case Ok(cs) =>
        match Rows(species, d, fmt, heads[1..])
        case Err(e) => Err(e)
        case Ok(rs) => Ok([Join([heads[0]] + cs, '\t')] + rs)
  }

  /** The PHYLIP text: the species count, then one row per species. */
  function PhylipText<D>(species: seq<string>, d: map<string, map<string, D>>, fmt: D -> string): Result<string, (string, string)>
  {
    match Rows(species, d, fmt, species)
    case Err(e) => Err(e)
    case Ok(rs) => Ok(Join([NatToString(|species|)] + rs, '\n'))
  }

  /** The inner loop of `phylip`: the cells of row `sp1`, or the first
      species without a distance to it. */
  method FormatRow<D>(species: seq<string>, d: map<string, map<string, D>>, fmt: D -> string, sp1: string)
    returns (r: Result<seq<string>, string>)
    ensures r == RowCells(d, fmt, sp1, species)
  {
    var line := [];
    var j := 0;
    assert species[0..] == species;
    ghost var cells := RowCells(d, fmt, sp1, species);
    if cells.Ok? {
      assert [] + cells.value == cells.value;
      assert cells == Ok(cells.value);
    }
    while j < |species|
      invariant 0 <= j <= |species|
      invariant RowCells(d, fmt, sp1, species[j..]).Ok? ==>
                  RowCells(d, fmt, sp1, species) == Ok(line + RowCells(d, fmt, sp1, species[j..]).value)
      invariant RowCells(d, fmt, sp1, species[j..]).Err? ==>
                  RowCells(d, fmt, sp1, species) == RowCells(d, fmt, sp1, species[j..])
    {
      var sp2 := species[j];
      assert species[j..][1..] == species[j + 1..];
      var cell;
      if sp1 == sp2 {
        cell := "0";
      } else if sp1 !in d || sp2 !in d[sp1] {
        if sp2 !in d || sp1 !in d[sp2] {
          assert RowCells(d, fmt, sp1, species[j..]) == Err(sp2);
          return Err(sp2);
        }
        cell := fmt(d[sp2][sp1]);
      } else {
        cell := fmt(d[sp1][sp2]);
      }
      assert Cell(d, fmt, sp1, sp2) == Some(cell);
      if RowCells(d, fmt, sp1, species[j + 1..]).Ok? {
        var rest := RowCells(d, fmt, sp1, species[j + 1..]).value;
        assert RowCells(d, fmt, sp1, species[j..]) == Ok([cell] + rest);
        assert (line + [cell]) + rest == line + ([cell] + rest);
      }
      line := line + [cell];
      j := j + 1;
    }
    assert species[j..] == [];
    assert line + [] == line;
    r := Ok(line);
  }

  /** After the rows of `species[..i]`, `acc` holds them and the rest of the
      matrix follows from `species[i..]`. */
  ghost predicate RowsBuilt<D>(species: seq<string>, d: map<string, map<string, D>>, fmt: D -> string, i: nat, acc: seq<string>)
    requires i <= |species|
  {
    (Rows(species, d, fmt, species[i..]).Ok? ==>
       Rows(species, d, fmt, species) == Ok(acc + Rows(species, d, fmt, species[i..]).value))
    && (Rows(species, d, fmt, species[i..]).Err? ==>
          Rows(species, d, fmt, species) == Rows(species, d, fmt, species[i..]))
  }

  lemma RowsBuiltStart<D>(species: seq<string>, d: map<string, map<string, D>>, fmt: D -> string)
    ensures RowsBuilt(species, d, fmt, 0, [])
  {
    assert species[0..] == species;
    var whole := Rows(species, d, fmt, species);
    if whole.Ok? {
      assert [] + whole.value == whole.value;
    }
  }

  lemma RowsBuiltStep<D>(species: seq<string>, d: map<string, map<string, D>>, fmt: D -> string, i: nat, acc: seq<string>,
                         cells: Result<seq<string>, string>)
    requires i < |species| && RowsBuilt(species, d, fmt, i, acc)
    requires cells == RowCells(d, fmt, species[i], species)
    ensures cells.Err? ==> Rows(species, d, fmt, species) == Err((species[i], cells.error))
    ensures cells.Ok? ==> RowsBuilt(species, d, fmt, i + 1, acc + [Join([species[i]] + cells.value, '\t')])
  {
    assert species[i..][1..] == species[i + 1..];
    if cells.Ok? {
      var row := Join([species[i]] + cells.value, '\t');
      if Rows(species, d, fmt, species[i + 1..]).Ok? {
        var rest := Rows(species, d, fmt, species[i + 1..]).value;
        assert (acc + [row]) + rest == acc + ([row] + rest);
      }
    }
  }

  /** `phylip(species, distances)`; the error is the KeyError's pair. */
  method Phylip<D>(species: seq<string>, d: map<string, map<string, D>>, fmt: D -> string)
    returns (r: Result<string, (string, string)>)
    ensures r == PhylipText(species, d, fmt)
  {
    var lines := [NatToString(|species|)];
    var i := 0;
    RowsBuiltStart(species, d, fmt);
    assert lines[1..] == [];
    while i < |species|
      invariant 0 <= i <= |species|
      invariant |lines| >= 1 && lines[0] == NatToString(|species|)
      invariant RowsBuilt(species, d, fmt, i, lines[1..])
    {
      var sp1 := species[i];
      var cells := FormatRow(species, d, fmt, sp1);
      RowsBuiltStep(species, d, fmt, i, lines[1..], cells);
      if cells.Err? {
        return Err((sp1, cells.error));
      }
      assert (lines + [Join([sp1] + cells.value, '\t')])[1..] == lines[1..] + [Join([sp1] + cells.value, '\t')];
      lines := lines + [Join([sp1] + cells.value, '\t')];
      i := i + 1;
    }
    assert species[i..] == [];
    assert lines[1..] + [] == lines[1..];
    assert lines == [NatToString(|species|)] + lines[1..];
    r := Ok(Join(lines, '\n'));
  }

  /** Row `a` has one cell per species exactly when every species has a
      distance to `a` in one orientation or the other; the cells are in
      species order. */
  lemma {:induction false} RowCellsMeans<D>(d: map<string, map<string, D>>, fmt: D -> string, a: string, bs: seq<string>)
    ensures RowCells(d, fmt, a, bs).Ok? <==> forall j :: 0 <= j < |bs| ==> Cell(d, fmt, a, bs[j]).Some?
    ensures RowCells(d, fmt, a, bs).Ok? ==>
              |RowCells(d, fmt, a, bs).value| == |bs|
              && forall j :: 0 <= j < |bs| ==> Cell(d, fmt, a, bs[j]) == Some(RowCells(d, fmt, a, bs).value[j])
    ensures RowCells(d, fmt, a, bs).Err? ==>
              exists j :: 0 <= j < |bs| && bs[j] == RowCells(d, fmt, a, bs).error && Cell(d, fmt, a, bs[j]).None?
                          && forall k :: 0 <= k < j ==> Cell(d, fmt, a, bs[k]).Some?
  {
    if bs != [] {
      RowCellsMeans(d, fmt, a, bs[1..]);
      assert forall j :: 1 <= j < |bs| ==> bs[1..][j - 1] == bs[j];
      var r := RowCells(d, fmt, a, bs);
      if r.Err? && Cell(d, fmt, a, bs[0]).Some? {
        var j :| 0 <= j < |bs[1..]| && bs[1..][j] == r.error && Cell(d, fmt, a, bs[1..][j]).None?
                 && forall k :: 0 <= k < j ==> Cell(d, fmt, a, bs[1..][k]).Some?;
        assert bs[j + 1] == r.error;
      }
    }
  }

  /** The matrix exists exactly when every pair of species has a distance
      in one orientation or the other; otherwise the error names a missing
      pair. */
  lemma {:induction false} RowsMeans<D>(species: seq<string>, d: map<string, map<string, D>>, fmt: D -> string, heads: seq<string>)
    ensures Rows(species, d, fmt, heads).Ok? <==>
              forall i, j :: 0 <= i < |heads| && 0 <= j < |species| ==> Cell(d, fmt, heads[i], species[j]).Some?
    ensures Rows(species, d, fmt, heads).Ok? ==>
              |Rows(species, d, fmt, heads).value| == |heads|
              && forall i :: 0 <= i < |heads| ==>
                   RowCells(d, fmt, heads[i], species).Ok?
                   && Rows(species, d, fmt, heads).value[i] == Join([heads[i]] + RowCells(d, fmt, heads[i], species).value, '\t')
    ensures Rows(species, d, fmt, heads).Err? ==>
              var e := Rows(species, d, fmt, heads).error;
              e.0 in heads && e.1 in species && Cell(d, fmt, e.0, e.1).None?
  {
    if heads != [] {
      RowsMeans(species, d, fmt, heads[1..]);
      RowCellsMeans(d, fmt, heads[0], species);
      assert forall i :: 1 <= i < |heads| ==> heads[1..][i - 1] == heads[i];
      if RowCells(d, fmt, heads[0], species).Ok? && Rows(species, d, fmt, heads[1..]).Err? {
        var e := Rows(species, d, fmt, heads).error;
        assert e.0 in heads[1..];
      }
    }
  }

  /** Orientation does not matter when the table holds a pair one way only:
      (a, b) and (b, a) print alike. scaled_L2norm builds its table that
      way; scaled_ratio_l2 and scaled_count_pairs as written can hold a pair
      both ways (Distances.SplitPairShown), and then each cell prints its
      own entry. */
  lemma CellSymmetric<D>(d: map<string, map<string, D>>, fmt: D -> string, a: string, b: string)
    requires !(Has2(d, a, b) && Has2(d, b, a))
    ensures Cell(d, fmt, a, b) == Cell(d, fmt, b, a)
  {
  }

  /** The layout of a PHYLIP text whose names and formatted values hold no
      tab or newline: 1 + |species| lines, the first the species count,
      line i+1 the name of species i followed by one cell per species, '0'
      on the diagonal. */
  lemma PhylipLayout<D>(species: seq<string>, d: map<string, map<string, D>>, fmt: D -> string)
    requires PhylipText(species, d, fmt).Ok?
    requires forall i :: 0 <= i < |species| ==> '\t' !in species[i] && '\n' !in species[i]
    requires forall x: D :: '\t' !in fmt(x) && '\n' !in fmt(x)
    ensures var lines := Split(PhylipText(species, d, fmt).value, '\n');
            |lines| == 1 + |species| && lines[0] == NatToString(|species|)
            && forall i :: 0 <= i < |species| ==>
                 var fs := Split(lines[i + 1], '\t');
                 |fs| == 1 + |species| && fs[0] == species[i]
                 && forall j :: 0 <= j < |species| ==>
                      Cell(d, fmt, species[i], species[j]) == Some(fs[j + 1])
                      && (species[i] == species[j] ==> fs[j + 1] == "0")
  {
    RowsMeans(species, d, fmt, species);
    var rs := Rows(species, d, fmt, species).value;
    forall i | 0 <= i < |species|
      ensures '\n' !in rs[i]
      ensures var fs := Split(rs[i], '\t');
              |fs| == 1 + |species| && fs[0] == species[i]
              && forall j :: 0 <= j < |species| ==> Cell(d, fmt, species[i], species[j]) == Some(fs[j + 1])
    {
      RowCellsMeans(d, fmt, species[i], species);
      var cs := RowCells(d, fmt, species[i], species).value;
      var parts := [species[i]] + cs;
      forall k | 0 <= k < |parts|
        ensures '\t' !in parts[k] && '\n' !in parts[k]
      {
        if k > 0 {
          CellFree(d, fmt, species[i], species[k - 1]);
        }
      }
      SplitJoin(parts, '\t');
      JoinFree(parts, '\t', '\n');
    }
    var lines := [NatToString(|species|)] + rs;
    NatToStringPlain(|species|);
    assert forall k :: 0 <= k < |lines| ==> '\n' !in lines[k];
    SplitJoin(lines, '\n');
  }

  /** A cell holds no tab or newline when names and formatted values hold
      none. */
  lemma CellFree<D>(d: map<string, map<string, D>>, fmt: D -> string, a: string, b: string)
    requires Cell(d, fmt, a, b).Some?
    requires forall x: D :: '\t' !in fmt(x) && '\n' !in fmt(x)
    ensures '\t' !in Cell(d, fmt, a, b).value && '\n' !in Cell(d, fmt, a, b).value
  {
  }
}
