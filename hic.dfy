/** One Hi-C experiment (`src/hic.py`, class `HiC`): the metadata of its
    sparse maps, the single "current" matrix it materialises on demand,
    contact lookups between genes, and the in-place Fisher-Yates scramblers.
    File reading is replaced by the map files' contents, given as values. */
module HiCExperiment {
  import opened Common
  import opened ContactGrid
  import Genes

  /** A map key `row|col` of the metadata. */
  datatype Key = Key(row: string, col: string)

  /** `current['dims']`: a matrix shape, or the 1-tuple shape of the flat
      array left by `load_all_maps`. */
  datatype Dims = Dims2(rows: nat, cols: nat) | Dims1(len: nat)

  /** What `current['data']` holds: None, the 2-D matrix (the array `data`),
      or the flat array of all values. */
  datatype Holding = Nothing | Matrix | Flat(values: seq<real>)

  datatype HiCError =
    | NoSuchHeatmap(row: string, col: string)  // neither `row|col` nor `col|row` exists
    | MissingDims(key: Key)                    // KeyError on `_dims[k]`
    | BinOutOfRange(key: Key)                  // numpy IndexError while filling
    | NothingLoaded                            // 'No heatmap is currently loaded'
    | PairNotLoaded(c1: string, c2: string)    // 'heatmap not loaded; current is ...'
    | IndexError                               // numpy or tuple IndexError in get_contact
    | NotSquare                                // `assert(rows == cols)`
    | SymmetryCheckFailed                      // NameError: `intraSymmetry` is undefined

  datatype Outcome = Done | Fail(error: HiCError)

  /** Which stored key `load_map(row, col)` reads, and the chromosome pair it
      records as current: `row|col` first, else `col|row`. */
  function Resolve(files: map<Key, seq<Triple>>, row: string, col: string): (r: Option<Key>)
    ensures r.Some? ==> r.value in files
    ensures r.Some? <==> Key(row, col) in files || Key(col, row) in files
    ensures Key(row, col) in files ==> r == Some(Key(row, col))
  {
    if Key(row, col) in files then Some(Key(row, col))
    else if Key(col, row) in files then Some(Key(col, row))
    else None
  }

  /** The pair `current['chroms']` holds after `load_map(row, col)` has
      resolved its key (also when it then fails). */
  function ChromsAfter(files: map<Key, seq<Triple>>, row: string, col: string): (string, string)
  {
    if Key(row, col) in files then (row, col) else (col, row)
  }

  class HiC {
    // metadata.json and the map files
    const binsize: nat
    const dimsMeta: map<Key, (nat, nat)>
    const mapKeys: seq<Key>                  // the keys of "MapFiles", in file order
    const mapFiles: map<Key, seq<Triple>>    // the content of each map file
    var inter: bool
    var chromosomes: set<string>

    // self.current
    var holding: Holding
    var data: array2<real>
    var dims: Dims
    var chroms: (string, string)

    /** The cells of `data`, as a value. */
    ghost var Cells: Grid

    ghost predicate Valid()
      reads this, data
    {
      && binsize > 0
      && Distinct(mapKeys)
      && (set k | k in mapKeys) == mapFiles.Keys
      && Shape(Cells, data.Length0, data.Length1)
      && forall a, b :: 0 <= a < data.Length0 && 0 <= b < data.Length1 ==> Cells[a][b] == data[a, b]
    }

    /** `HiC(dirname)` once metadata.json is read: `inter` says whether some
        map pairs two different chromosomes, `chromosomes` gathers both sides
        of every key, and nothing is loaded. */
    constructor (binsize: nat, dimsMeta: map<Key, (nat, nat)>, mapKeys: seq<Key>, mapFiles: map<Key, seq<Triple>>)
      requires binsize > 0 && Distinct(mapKeys) && (set k | k in mapKeys) == mapFiles.Keys
      ensures Valid()
      ensures this.binsize == binsize && this.dimsMeta == dimsMeta
      ensures this.mapKeys == mapKeys && this.mapFiles == mapFiles
      ensures inter <==> exists k :: k in mapKeys && k.row != k.col
      ensures forall c :: c in chromosomes <==> exists k :: k in mapKeys && (c == k.row || c == k.col)
      ensures holding == Nothing && dims == Dims2(0, 0) && chroms == ("", "")
    {
      var isInter := false;
      var temp: set<string> := {};
      var i := 0;
      while i < |mapKeys|
        invariant i <= |mapKeys|
        invariant isInter <==> exists k :: k in mapKeys[..i] && k.row != k.col
        invariant forall c :: c in temp <==> exists k :: k in mapKeys[..i] && (c == k.row || c == k.col)
      {
        var k := mapKeys[i];
        assert mapKeys[..i + 1] == mapKeys[..i] + [k];
        if k.row != k.col {
          isInter := true;
        }
        temp := temp + {k.row, k.col};
        i := i + 1;
      }
      assert mapKeys[..i] == mapKeys;
      this.binsize := binsize;
      this.dimsMeta := dimsMeta;
      this.mapKeys := mapKeys;
      this.mapFiles := mapFiles;
      inter := isInter;
      chromosomes := temp;
      holding := Nothing;
      dims := Dims2(0, 0);
      chroms := ("", "");
      data := new real[0, 0];
      Cells := [];
    }

    /** `m[x, y] = v` on the current matrix. */
    method SetCell(x: nat, y: nat, v: real)
      requires Valid() && x < data.Length0 && y < data.Length1
      modifies this`Cells, data
      ensures Valid()
      ensures Cells == Set(old(Cells), x, y, v)
    {
      data[x, y] := v;
      Cells := Set(Cells, x, y, v);
    }

    /** `load_map(rowChrom, colChrom, scramble)`. The key is resolved first
        and `chroms` recorded even when that fails; the dims are recorded
        before the triples are written; the new matrix replaces the current
        one only once every triple fits; the scramble (intra iff the two
        chromosomes as passed are equal) runs on the installed matrix. */
    method LoadMap(rowChrom: string, colChrom: string, scramble: bool, rand: nat -> nat) returns (r: Outcome)
      requires Valid()
      modifies this, data
      ensures Valid()
      ensures inter == old(inter) && chromosomes == old(chromosomes)
      ensures chroms == ChromsAfter(mapFiles, rowChrom, colChrom)
      ensures data == old(data) || fresh(data)
      ensures Resolve(mapFiles, rowChrom, colChrom).None? ==>
                r == Fail(NoSuchHeatmap(rowChrom, colChrom))
                && dims == old(dims) && holding == old(holding) && data == old(data) && Cells == old(Cells)
      ensures Resolve(mapFiles, rowChrom, colChrom).Some? ==>
                var k := Resolve(mapFiles, rowChrom, colChrom).value;
                if k !in dimsMeta then
                  r == Fail(MissingDims(k))
                  && dims == old(dims) && holding == old(holding) && data == old(data) && Cells == old(Cells)
                else
                  var (nrow, ncol) := dimsMeta[k];
                  var filled := Filled(mapFiles[k], binsize, nrow, ncol);
                  dims == Dims2(nrow, ncol)
                  && if !AllInRange(mapFiles[k], binsize, nrow, ncol) then
                       r == Fail(BinOutOfRange(k)) && holding == old(holding) && data == old(data) && Cells == old(Cells)
                     else
                       && holding == Matrix && fresh(data) && data.Length0 == nrow && data.Length1 == ncol
                       && (!scramble ==> r == Done && Cells == filled)
                       && (scramble && rowChrom != colChrom ==>
                             r == Done && Cells == InterScrambled(filled, rand, nrow, ncol))
                       && (scramble && rowChrom == colChrom && nrow != ncol ==>
                             r == Fail(NotSquare) && Cells == filled)
                       && (scramble && rowChrom == colChrom && nrow == ncol ==>
                             var run := IntraScrambled(filled, rand, nrow);
                             Cells == run.grid && (r == if run.failed then Fail(SymmetryCheckFailed) else Done))
    {
      var k := Key(rowChrom, colChrom);
      chroms := (rowChrom, colChrom);
      if k !in mapFiles {
        k := Key(colChrom, rowChrom);
        chroms := (colChrom, rowChrom);
      }
      if k !in mapFiles {
        return Fail(NoSuchHeatmap(rowChrom, colChrom));
      }
      if k !in dimsMeta {
        return Fail(MissingDims(k));
      }
      r := LoadKey(k, rowChrom == colChrom, scramble, rand);
    }

    /** `load_map` once the key k is resolved and its dims are known; `intra`
        says whether the chromosomes passed were equal. */
    method LoadKey(k: Key, intra: bool, scramble: bool, rand: nat -> nat) returns (r: Outcome)
      requires Valid() && k in mapFiles && k in dimsMeta
      modifies this, data
      ensures Valid()
      ensures inter == old(inter) && chromosomes == old(chromosomes) && chroms == old(chroms)
      ensures data == old(data) || fresh(data)
      ensures var (nrow, ncol) := dimsMeta[k];
              var filled := Filled(mapFiles[k], binsize, nrow, ncol);
              dims == Dims2(nrow, ncol)
              && if !AllInRange(mapFiles[k], binsize, nrow, ncol) then
                   r == Fail(BinOutOfRange(k)) && holding == old(holding) && data == old(data) && Cells == old(Cells)
                 else
                   && holding == Matrix && fresh(data) && data.Length0 == nrow && data.Length1 == ncol
                   && (!scramble ==> r == Done && Cells == filled)
                   && (scramble && !intra ==> r == Done && Cells == InterScrambled(filled, rand, nrow, ncol))
                   && (scramble && intra && nrow != ncol ==> r == Fail(NotSquare) && Cells == filled)
                   && (scramble && intra && nrow == ncol ==>
                         var run := IntraScrambled(filled, rand, nrow);
                         Cells == run.grid && (r == if run.failed then Fail(SymmetryCheckFailed) else Done))
    {
      var (nrow, ncol) := dimsMeta[k];
      dims := Dims2(nrow, ncol);
      var ts := mapFiles[k];
      var m, ok := FillMatrix(ts, nrow, ncol);
      if !ok {
        return Fail(BinOutOfRange(k));
      }
      data := m;
      Cells := Filled(ts, binsize, nrow, ncol);
      holding := Matrix;
      r := Done;
      if scramble {
        if intra {
          r := ScrambleIntraFY(rand);
        } else {
          ScrambleInterFY(rand);
        }
      }
    }

    /** The loop of `load_map` writing each triple into a fresh zero matrix
        at its bins; it fails (numpy's IndexError) at the first triple whose
        bin lies outside the matrix. */
    method FillMatrix(ts: seq<Triple>, nrow: nat, ncol: nat) returns (m: array2<real>, ok: bool)
      requires binsize > 0
      ensures fresh(m) && m.Length0 == nrow && m.Length1 == ncol
      ensures ok <==> AllInRange(ts, binsize, nrow, ncol)
      ensures ok ==> forall a, b :: 0 <= a < nrow && 0 <= b < ncol ==> m[a, b] == Filled(ts, binsize, nrow, ncol)[a][b]
    {
      m := new real[nrow, ncol]((_, _) => 0.0);
      var i := 0;
      while i < |ts|
        invariant i <= |ts|
        invariant AllInRange(ts[..i], binsize, nrow, ncol)
        invariant forall a, b :: 0 <= a < nrow && 0 <= b < ncol ==> m[a, b] == LastWrite(ts[..i], binsize, a, b)
        modifies m
      {
        var ri := ts[i].rpos / binsize;
        var ci := ts[i].cpos / binsize;
        if ri >= nrow || ci >= ncol {
          assert !AllInRange(ts, binsize, nrow, ncol) by {
            assert RowBin(ts[i], binsize) == ri && ColBin(ts[i], binsize) == ci;
          }
          return m, false;
        }
        m[ri, ci] := ts[i].value;
        assert ts[..i + 1][..i] == ts[..i];
        assert ts[..i + 1][i] == ts[i];
        i := i + 1;
      }
      assert ts[..i] == ts;
      ok := true;
    }

    /** `load_all_maps()`: load every map in key order without scrambling and
        keep the concatenation of their flattened cells as a flat array.
        When the map at position i of the keys cannot be loaded, the loop
        stops there: `chroms` is that key's pair, `dims` its metadata dims
        when it has some, and the matrix is the one of key i - 1 (or the
        state before the call when i == 0). */
    method LoadAllMaps() returns (r: Outcome)
      requires Valid()
      modifies this, data
      ensures Valid()
      ensures inter == old(inter) && chromosomes == old(chromosomes)
      ensures r.Done? <==> forall k :: k in mapFiles ==> Loadable(k)
      ensures r.Done? ==>
                && holding == Flat(AllValues(mapKeys))
                && dims == Dims1(|AllValues(mapKeys)|)
                && chroms == ("all", "all")
      ensures r.Fail? ==>
                exists i :: 0 <= i < |mapKeys| && StoppedAt(i, r, old(holding), old(dims), old(data), old(Cells))
    {
      var values;
      r, values := LoadEach();
      if r.Done? {
        holding := Flat(values);
        dims := Dims1(|values|);
        chroms := ("all", "all");
      }
    }

    /** The loop of `load_all_maps`: each map loaded in key order, its cells
        gathered, until one cannot be loaded. */
    method LoadEach() returns (r: Outcome, values: seq<real>)
      requires Valid()
      modifies this, data
      ensures Valid()
      ensures inter == old(inter) && chromosomes == old(chromosomes)
      ensures r.Done? <==> forall k :: k in mapFiles ==> Loadable(k)
      ensures r.Done? ==> values == AllValues(mapKeys)
      ensures r.Fail? ==>
                exists i :: 0 <= i < |mapKeys| && StoppedAt(i, r, old(holding), old(dims), old(data), old(Cells))
    {
      ghost var holding0, dims0, data0, cells0 := holding, dims, data, Cells;
      assert KeysStored() by {
        assert forall l :: 0 <= l < |mapKeys| ==> mapKeys[l] in (set k | k in mapKeys);
      }
      values := [];
      var i := 0;
      while i < |mapKeys|
        invariant i <= |mapKeys| && Valid()
        invariant inter == old(inter) && chromosomes == old(chromosomes)
        invariant data == old(data) || fresh(data)
        invariant forall l :: 0 <= l < i ==> mapKeys[l] in mapFiles && Loadable(mapKeys[l])
        invariant values == AllValues(mapKeys[..i])
        invariant LeftAfter(i, holding0, dims0, data0, cells0)
      {
        r, values := LoadNext(i, values, holding0, dims0, data0, cells0);
        if r.Fail? {
          return;
        }
        i := i + 1;
      }
      assert mapKeys[..i] == mapKeys;
      r := Done;
      forall k | k in mapFiles
        ensures Loadable(k)
      {
        var l :| 0 <= l < |mapKeys| && mapKeys[l] == k;
      }
    }

    /** Round i of the loop of `load_all_maps`, the first i keys loaded and
        their cells gathered in `values`. */
    method LoadNext(i: nat, values: seq<real>, ghost h0: Holding, ghost d0: Dims, ghost data0: array2<real>,
                    ghost c0: Grid)
      returns (r: Outcome, values': seq<real>)
      requires Valid() && KeysStored() && i < |mapKeys|
      requires forall l :: 0 <= l < i ==> Loadable(mapKeys[l])
      requires values == AllValues(mapKeys[..i]) && LeftAfter(i, h0, d0, data0, c0)
      modifies this, data
      ensures Valid() && (data == old(data) || fresh(data))
      ensures inter == old(inter) && chromosomes == old(chromosomes)
      ensures r.Fail? ==> StoppedAt(i, r, h0, d0, data0, c0)
      ensures r.Done? ==>
                Loadable(mapKeys[i]) && values' == AllValues(mapKeys[..i + 1]) && LeftAfter(i + 1, h0, d0, data0, c0)
    {
      var flat;
      r, flat := LoadFlattened(mapKeys[i]);
      values' := values + flat;
      assert mapKeys[..i + 1][..i] == mapKeys[..i];
    }

    /** One round of `load_all_maps`: `load_map(c1, c2)` on the stored key
        `c1|c2`, then the loaded matrix flattened in row-major order. */
    method LoadFlattened(k: Key) returns (r: Outcome, flat: seq<real>)
      requires Valid() && k in mapFiles
      modifies this, data
      ensures Valid() && (data == old(data) || fresh(data))
      ensures inter == old(inter) && chromosomes == old(chromosomes)
      ensures chroms == (k.row, k.col)
      ensures r.Done? <==> Loadable(k)
      ensures r.Done? ==>
                holding == Matrix && dims == LoadedDims(k) && Cells == LoadedGrid(k) && flat == Flatten(LoadedGrid(k))
      ensures r.Fail? ==>
                FailedLoad(k, r, old(dims)) && holding == old(holding) && data == old(data) && Cells == old(Cells)
    {
      r := LoadMap(k.row, k.col, false, _ => 0);
      assert Resolve(mapFiles, k.row, k.col) == Some(k);
      if r.Fail? {
        return r, [];
      }
      flat := FlattenArray();
    }

    /** The outcome and dims of a `load_map` of key k that raises, `before`
        being the dims until then: a KeyError on the metadata dims leaves
        them, an out-of-range bin raises after they were recorded. */
    ghost predicate FailedLoad(k: Key, r: Outcome, before: Dims)
      reads this
    {
      if k in dimsMeta then r == Fail(BinOutOfRange(k)) && dims == Dims2(dimsMeta[k].0, dimsMeta[k].1)
      else r == Fail(MissingDims(k)) && dims == before
    }

    /** Every listed key has a map file, and bins have a positive size. */
    predicate KeysStored() {
      binsize > 0 && forall l :: 0 <= l < |mapKeys| ==> mapKeys[l] in mapFiles
    }

    /** The state the loop of `load_all_maps` leaves after loading the first
        i keys, the state before the loop being (h0, d0, data0, c0). */
    ghost predicate LeftAfter(i: nat, h0: Holding, d0: Dims, data0: array2<real>, c0: Grid)
      reads this
      requires KeysStored() && i <= |mapKeys|
    {
      && (i == 0 ==> holding == h0 && dims == d0 && data == data0 && Cells == c0)
      && (i > 0 ==> Loadable(mapKeys[i - 1]) && holding == Matrix
                    && dims == LoadedDims(mapKeys[i - 1]) && Cells == LoadedGrid(mapKeys[i - 1]))
    }

    /** The loop of `load_all_maps` stopped at key i, the first one that
        cannot be loaded, with the outcome r: `chroms` is that key's pair,
        `dims` as `FailedLoad` says, and the matrix the one of key i - 1, or
        the one before the loop when i == 0. */
    ghost predicate StoppedAt(i: nat, r: Outcome, h0: Holding, d0: Dims, data0: array2<real>, c0: Grid)
      reads this
      requires KeysStored() && i < |mapKeys|
    {
      && !Loadable(mapKeys[i])
      && (forall l :: 0 <= l < i ==> Loadable(mapKeys[l]))
      && chroms == (mapKeys[i].row, mapKeys[i].col)
      && FailedLoad(mapKeys[i], r, if i == 0 then d0 else LoadedDims(mapKeys[i - 1]))
      && (i == 0 ==> holding == h0 && data == data0 && Cells == c0)
      && (i > 0 ==> holding == Matrix && Cells == LoadedGrid(mapKeys[i - 1]))
    }

    /** The dims and the matrix `load_map` leaves for a loadable key k. */
    ghost function LoadedDims(k: Key): Dims
      requires k in dimsMeta
    {
      Dims2(dimsMeta[k].0, dimsMeta[k].1)
    }

    ghost function LoadedGrid(k: Key): Grid
      requires k in mapFiles && k in dimsMeta && binsize > 0
    {
      Filled(mapFiles[k], binsize, dimsMeta[k].0, dimsMeta[k].1)
    }

    /** The map of key k exists in the metadata dims and all its triples fit. */
    ghost predicate Loadable(k: Key)
      requires k in mapFiles && binsize > 0
    {
      k in dimsMeta && AllInRange(mapFiles[k], binsize, dimsMeta[k].0, dimsMeta[k].1)
    }

    /** All cells of the maps of `keys`, each map flattened in row-major
        order, maps in the given order. */
    ghost function AllValues(keys: seq<Key>): seq<real>
      requires binsize > 0
      requires forall l :: 0 <= l < |keys| ==> keys[l] in mapFiles && Loadable(keys[l])
    {
      if keys == [] then []
      else
        var k := keys[|keys| - 1];
        assert k in mapFiles && Loadable(k);
        AllValues(keys[..|keys| - 1]) + Flatten(Filled(mapFiles[k], binsize, dimsMeta[k].0, dimsMeta[k].1))
    }

    /** `self.current['data'].flatten()`. */
    method FlattenArray() returns (flat: seq<real>)
      requires Valid()
      ensures flat == Flatten(Cells)
    {
      flat := [];
      var x := 0;
      while x < data.Length0
        invariant x <= data.Length0
        invariant flat == Flatten(Cells[..x])
      {
        var row: seq<real> := [];
        var y := 0;
        while y < data.Length1
          invariant y <= data.Length1
          invariant row == Cells[x][..y]
        {
          row := row + [data[x, y]];
          y := y + 1;
        }
        assert Cells[x][..y] == Cells[x];
        assert Cells[..x + 1][..x] == Cells[..x];
        flat := flat + row;
        x := x + 1;
      }
      assert Cells[..x] == Cells;
    }

    /** `get_contact(g1, g2)`: the genes' bins (start // binsize), swapped
        when the genes come in the other orientation of the current pair. */
    function GetContact(g1: Genes.Gene, g2: Genes.Gene): (r: Result<Float, HiCError>)
      requires Valid()
      reads this, data
      ensures holding.Nothing? ==> r == Err(NothingLoaded)
      ensures holding != Nothing && (g1.chrom, g2.chrom) != chroms && (g2.chrom, g1.chrom) != chroms ==>
                r == Err(PairNotLoaded(g2.chrom, g1.chrom))
      ensures r == Ok(NaN) <==>
                holding != Nothing && Oriented(g1, g2).Some? && OutOfDims(Oriented(g1, g2).value)
      ensures r.Ok? && r.value.Num? ==>
                holding == Matrix && dims.Dims2? && Oriented(g1, g2).Some?
                && var (p1, p2) := Oriented(g1, g2).value;
                   p1 < data.Length0 && p2 < data.Length1 && r.value.v == Cells[p1][p2]
    {
      if holding.Nothing? then Err(NothingLoaded)
      else
        match Oriented(g1, g2)
        case None => Err(PairNotLoaded(g2.chrom, g1.chrom))
        case Some((p1, p2)) =>
          if OutOfDims((p1, p2)) then Ok(NaN)
          else if dims.Dims1? || !holding.Matrix? then Err(IndexError)
          else if p1 < data.Length0 && p2 < data.Length1 then Ok(Num(data[p1, p2]))
          else Err(IndexError)
    }

    /** The contact does not depend on the order the genes are given in: for
        genes on two different chromosomes always, and for genes on one
        chromosome when the loaded square matrix is symmetric. */
    lemma GetContactSymmetric(g1: Genes.Gene, g2: Genes.Gene)
      requires Valid()
      requires g1.chrom != g2.chrom
               || (holding == Matrix && dims == Dims2(data.Length0, data.Length0)
                   && data.Length1 == data.Length0 && Symmetric(Cells, data.Length0))
      ensures GetContact(g1, g2).Ok? <==> GetContact(g2, g1).Ok?
      ensures GetContact(g1, g2).Ok? ==> GetContact(g1, g2) == GetContact(g2, g1)
    {
      if g1.chrom == g2.chrom && Oriented(g1, g2).Some? {
        var (p1, p2) := Oriented(g1, g2).value;
        assert Oriented(g2, g1) == Some((p2, p1));
        if p1 < data.Length0 && p2 < data.Length0 {
          assert Cells[p1][p2] == Cells[p2][p1];
        }
      }
    }

    /** Right after `load_map` of a stored map without scrambling, the
        contact of two genes whose bins fall inside the matrix is the value
        of the last line of the map file written to those bins (0.0 if
        none), and NaN outside. */
    lemma GetContactOfLoadedMap(k: Key, g1: Genes.Gene, g2: Genes.Gene)
      requires Valid() && k in mapFiles && k in dimsMeta && holding == Matrix
      requires dims == Dims2(dimsMeta[k].0, dimsMeta[k].1)
      requires Cells == Filled(mapFiles[k], binsize, dimsMeta[k].0, dimsMeta[k].1)
      requires (g1.chrom, g2.chrom) == chroms
      ensures var (p1, p2) := (g1.start / binsize, g2.start / binsize);
              GetContact(g1, g2)
              == if p1 < dimsMeta[k].0 && p2 < dimsMeta[k].1
                 then Ok(Num(LastWrite(mapFiles[k], binsize, p1, p2)))
                 else Ok(NaN)
    {
      var (nrow, ncol) := dimsMeta[k];
      var (p1, p2) := (g1.start / binsize, g2.start / binsize);
      assert |Cells| == nrow && data.Length0 == nrow;
      assert nrow > 0 ==> |Cells[0]| == ncol && data.Length1 == ncol;
      assert Oriented(g1, g2) == Some((p1, p2));
      if p1 < nrow && p2 < ncol {
        assert Cells[p1][p2] == LastWrite(mapFiles[k], binsize, p1, p2);
        assert data[p1, p2] == Cells[p1][p2];
      }
    }

    /** The bins (row, column) of the two genes in the current matrix, or
        None when neither orientation matches the current pair. */
    function Oriented(g1: Genes.Gene, g2: Genes.Gene): Option<(nat, nat)>
      requires binsize > 0
      reads this
    {
      if (g1.chrom, g2.chrom) == chroms then Some((g1.start / binsize, g2.start / binsize))
      else if (g2.chrom, g1.chrom) == chroms then Some((g2.start / binsize, g1.start / binsize))
      else None
    }

    /** `p1 >= dims[0] or p2 >= dims[1]`; on a 1-tuple shape the second test
        is never reached when the first holds. */
    predicate OutOfDims(p: (nat, nat))
      reads this
    {
      match dims
      case Dims2(rows, cols) => p.0 >= rows || p.1 >= cols
      case Dims1(len) => p.0 >= len
    }

    /** `_scrambleInterFY()`: every cell in row-major order swaps with a
        drawn destination. (The source's `is not None` tests always hold on
        a float array, so every cell takes part and the retry loop never
        runs.) */
    method ScrambleInterFY(rand: nat -> nat)
      requires Valid()
      modifies this`Cells, data
      ensures Valid()
      ensures Cells == InterScrambled(old(Cells), rand, data.Length0, data.Length1)
    {
      var rows, cols := data.Length0, data.Length1;
      ghost var final := InterScrambled(Cells, rand, rows, cols);
      var k := 0;
      var x := 0;
      while x < rows
        invariant x <= rows && Valid()
        invariant InterFrom(Cells, rand, k, x, rows, cols).grid == final
      {
        k := ScrambleInterRow(rand, k, x);
        x := x + 1;
      }
    }

    /** The cells (x, 0) .. (x, cols - 1) of `_scrambleInterFY`, drawing from
        the k-th draw on; returns the next unused draw. */
    method ScrambleInterRow(rand: nat -> nat, k0: nat, x: nat) returns (k: nat)
      requires Valid() && x < data.Length0
      modifies this`Cells, data
      ensures Valid()
      ensures Run(Cells, k, false) == InterRow(old(Cells), rand, k0, x, 0, data.Length0, data.Length1)
    {
      var rows, cols := data.Length0, data.Length1;
      ghost var final := InterRow(Cells, rand, k0, x, 0, rows, cols);
      k := k0;
      var y := 0;
      while y < cols
        invariant y <= cols && Valid()
        invariant InterRow(Cells, rand, k, x, y, rows, cols) == final
      {
        InterRowStep(Cells, rand, k, x, y, rows, cols);
        SwapCells(x, y, Randrange(rand, k, rows), Randrange(rand, k + 1, cols));
        k := k + 2;
        y := y + 1;
      }
    }

    /** `_scrambleIntraFY()`: the matrix must be square; cells (x, y) with
        x <= y are visited in order, each first tested for symmetry, then
        swapped together with its mirror. The failed test raises (a NameError,
        as `intraSymmetry` is undefined) and leaves the partial scramble in
        place. */
    method ScrambleIntraFY(rand: nat -> nat) returns (r: Outcome)
      requires Valid()
      modifies this`Cells, data
      ensures Valid()
      ensures data.Length0 != data.Length1 ==> r == Fail(NotSquare) && Cells == old(Cells)
      ensures data.Length0 == data.Length1 ==>
                var run := IntraScrambled(old(Cells), rand, data.Length0);
                Cells == run.grid && r == if run.failed then Fail(SymmetryCheckFailed) else Done
    {
      var n := data.Length0;
      if n != data.Length1 {
        return Fail(NotSquare);
      }
      ghost var final := IntraScrambled(Cells, rand, n);
      var k := 0;
      var x := 0;
      while x < n
        invariant x <= n && Valid()
        invariant IntraFrom(Cells, rand, k, x, n) == final
      {
        var failed;
        k, failed := ScrambleIntraRow(rand, k, x);
        if failed {
          return Fail(SymmetryCheckFailed);
        }
        x := x + 1;
      }
      r := Done;
    }

    /** The cells (x, x) .. (x, n - 1) of `_scrambleIntraFY`, drawing from
        the k-th draw on; stops at the first asymmetric cell. */
    method ScrambleIntraRow(rand: nat -> nat, k0: nat, x: nat) returns (k: nat, failed: bool)
      requires Valid() && data.Length0 == data.Length1 && x < data.Length0
      modifies this`Cells, data
      ensures Valid()
      ensures Run(Cells, k, failed) == IntraRow(old(Cells), rand, k0, x, x, data.Length0)
    {
      var n := data.Length0;
      ghost var final := IntraRow(Cells, rand, k0, x, x, n);
      k := k0;
      var y := x;
      while y < n
        invariant x <= y <= n && Valid()
        invariant IntraRow(Cells, rand, k, x, y, n) == final
      {
        var vxy, vyx := data[x, y], data[y, x];
        if vxy != vyx && Abs(vxy - vyx) > 0.001 {
          return k, true;
        }
        MirrorSwapCells(x, y, Randrange(rand, k, n), Randrange(rand, k + 1, n));
        k := k + 2;
        y := y + 1;
      }
      failed := false;
    }

    /** `m[x][y], m[i][j] = m[i][j], m[x][y]` on the current matrix. */
    method SwapCells(x: nat, y: nat, i: nat, j: nat)
      requires Valid() && x < data.Length0 && y < data.Length1 && i < data.Length0 && j < data.Length1
      modifies this`Cells, data
      ensures Valid()
      ensures Cells == Swap(old(Cells), x, y, i, j)
    {
      var a, b := data[x, y], data[i, j];
      SetCell(x, y, b);
      SetCell(i, j, a);
    }

    /** The four writes of one step of `_scrambleIntraFY`. */
    method MirrorSwapCells(x: nat, y: nat, i: nat, j: nat)
      requires Valid() && data.Length0 == data.Length1
      requires x < data.Length0 && y < data.Length0 && i < data.Length0 && j < data.Length0
      modifies this`Cells, data
      ensures Valid()
      ensures Cells == MirrorSwap(old(Cells), data.Length0, x, y, i, j)
    {
      var va, vb := data[x, y], data[i, j];
      SetCell(i, j, va);
      SetCell(x, y, vb);
      SetCell(j, i, va);
      SetCell(y, x, vb);
    }
  }
}
