/** The contact matrix as a value (`Grid`, rows of cells), and the pure
    specification of what `HiC` does to it: filling from sparse triples and
    the two Fisher-Yates scramblers, with `random.randrange` replaced by a
    stream of draws. */
module ContactGrid {
  import opened Common

  type Grid = seq<seq<real>>

  /** One line of a sparse map file: row position, column position, value. */
  datatype Triple = Triple(rpos: nat, cpos: nat, value: real)

  predicate Shape(g: Grid, rows: nat, cols: nat) {
    |g| == rows && forall x :: 0 <= x < rows ==> |g[x]| == cols
  }

  /** Writing one cell, `m[x, y] = v`. */
  function Set(g: Grid, x: nat, y: nat, v: real): (r: Grid)
    requires x < |g| && y < |g[x]|
    ensures |r| == |g| && forall a :: 0 <= a < |g| ==> |r[a]| == |g[a]|
  {
    g[x := g[x][y := v]]
  }

  // ---------------------------------------------------------------------
  // Filling a dense matrix from sparse triples (load_map)
  // ---------------------------------------------------------------------

  /** The bin a triple is written to: (rpos // binsize, cpos // binsize). */
  function RowBin(t: Triple, binsize: nat): nat
    requires binsize > 0
  {
    t.rpos / binsize
  }

  function ColBin(t: Triple, binsize: nat): nat
    requires binsize > 0
  {
    t.cpos / binsize
  }

  /** Every triple falls inside a rows x cols matrix (numpy raises IndexError
      on the first one that does not). */
  predicate AllInRange(ts: seq<Triple>, binsize: nat, rows: nat, cols: nat)
    requires binsize > 0
  {
    forall k :: 0 <= k < |ts| ==> RowBin(ts[k], binsize) < rows && ColBin(ts[k], binsize) < cols
  }

  /** What cell (r, c) holds after writing the triples in order into a zero
      matrix: the value of the last triple that lands there, else 0.0. */
  function LastWrite(ts: seq<Triple>, binsize: nat, r: int, c: int): real
    requires binsize > 0
  {
    if ts == [] then 0.0
    else
      var t := ts[|ts| - 1];
      if RowBin(t, binsize) == r && ColBin(t, binsize) == c then t.value
      else LastWrite(ts[..|ts| - 1], binsize, r, c)
  }

  /** The dense matrix that `load_map` materialises. */
  function Filled(ts: seq<Triple>, binsize: nat, rows: nat, cols: nat): (g: Grid)
    requires binsize > 0
    ensures Shape(g, rows, cols)
  {
    seq(rows, r => seq(cols, c => LastWrite(ts, binsize, r, c)))
  }

  predicate LandsAt(t: Triple, binsize: nat, r: int, c: int)
    requires binsize > 0
  {
    RowBin(t, binsize) == r && ColBin(t, binsize) == c
  }

  /** A cell that no triple lands in stays 0.0. */
  lemma {:induction false} LastWriteUntouched(ts: seq<Triple>, binsize: nat, r: int, c: int)
    requires binsize > 0
    requires forall k :: 0 <= k < |ts| ==> !LandsAt(ts[k], binsize, r, c)
    ensures LastWrite(ts, binsize, r, c) == 0.0
  {
    if ts != [] {
      var init := ts[..|ts| - 1];
      assert forall k :: 0 <= k < |init| ==> init[k] == ts[k];
      LastWriteUntouched(init, binsize, r, c);
    }
  }

  /** A cell that triples land in holds the value of the LAST of them. */
  lemma {:induction false} LastWriteWins(ts: seq<Triple>, binsize: nat, r: int, c: int, k: nat)
    requires binsize > 0
    requires k < |ts| && LandsAt(ts[k], binsize, r, c)
    requires forall l :: k < l < |ts| ==> !LandsAt(ts[l], binsize, r, c)
    ensures LastWrite(ts, binsize, r, c) == ts[k].value
  {
    if k < |ts| - 1 {
      var init := ts[..|ts| - 1];
      assert forall l :: 0 <= l < |init| ==> init[l] == ts[l];
      LastWriteWins(init, binsize, r, c, k);
    }
  }

  // ---------------------------------------------------------------------
  // All values of a matrix (numpy's flatten) and their multiset
  // ---------------------------------------------------------------------

  /** Row-major concatenation of the cells, as `ndarray.flatten()`. */
  function Flatten(g: Grid): seq<real>
  {
    if g == [] then [] else Flatten(g[..|g| - 1]) + g[|g| - 1]
  }

  function Mass(g: Grid): multiset<real>
  {
    multiset(Flatten(g))
  }

  lemma SetAt(g: Grid, x: nat, y: nat, v: real, a: nat, b: nat)
    requires x < |g| && y < |g[x]| && a < |g| && b < |g[a]|
    ensures Set(g, x, y, v)[a][b] == if a == x && b == y then v else g[a][b]
  {
  }

  lemma {:induction false} FlattenSet(g: Grid, x: nat, y: nat, v: real)
    requires x < |g| && y < |g[x]|
    ensures Mass(Set(g, x, y, v)) == Mass(g) - multiset{g[x][y]} + multiset{v}
  {
    var n := |g|;
    var h := Set(g, x, y, v);
    var init, hinit := g[..n - 1], h[..n - 1];
    assert Flatten(g) == Flatten(init) + g[n - 1];
    assert Flatten(h) == Flatten(hinit) + h[n - 1];
    if x < n - 1 {
      assert hinit == Set(init, x, y, v);
      assert h[n - 1] == g[n - 1];
      FlattenSet(init, x, y, v);
      FlattenHolds(init, x, y);
      ReplaceLeft(Mass(init), multiset(g[n - 1]), g[x][y], v);
    } else {
      assert hinit == init;
      assert h[n - 1] == g[n - 1][y := v];
      SeqUpdateMultiset(g[n - 1], y, v);
      ReplaceRight(Mass(init), multiset(g[n - 1]), g[x][y], v);
    }
  }

  lemma {:induction false} FlattenHolds(g: Grid, x: nat, y: nat)
    requires x < |g| && y < |g[x]|
    ensures g[x][y] in Mass(g)
  {
    var n := |g|;
    assert Flatten(g) == Flatten(g[..n - 1]) + g[n - 1];
    if x < n - 1 {
      FlattenHolds(g[..n - 1], x, y);
      assert g[..n - 1][x][y] == g[x][y];
    } else {
      assert g[x][y] in g[n - 1];
    }
  }

  // ---------------------------------------------------------------------
  // Randomness
  // ---------------------------------------------------------------------

  /** The k-th call `random.randrange(n)`: the k-th draw of the stream, reduced
      below n. Any sequence of randrange answers is the image of some stream. */
  function Randrange(rand: nat -> nat, k: nat, n: nat): (r: nat)
    requires n > 0
    ensures r < n
  {
    rand(k) % n
  }

  /** A partial run of a scrambler: the matrix, the number of draws used, and
      whether it stopped on an error. */
  datatype Run = Run(grid: Grid, draws: nat, failed: bool)

  // ---------------------------------------------------------------------
  // _scrambleInterFY
  // ---------------------------------------------------------------------

  /** `mat[x][y], mat[i][j] = mat[i][j], mat[x][y]`: the right-hand side is
      read first, then (x, y) is written, then (i, j). */
  function Swap(g: Grid, x: nat, y: nat, i: nat, j: nat): (r: Grid)
    requires x < |g| && y < |g[x]| && i < |g| && j < |g[i]|
    ensures |r| == |g| && forall a :: 0 <= a < |g| ==> |r[a]| == |g[a]|
  {
    var a, b := g[x][y], g[i][j];
    Set(Set(g, x, y, b), i, j, a)
  }

  /** A swap only moves values: the multiset of all cells is unchanged. */
  lemma SwapKeepsMass(g: Grid, x: nat, y: nat, i: nat, j: nat)
    requires x < |g| && y < |g[x]| && i < |g| && j < |g[i]|
    ensures Mass(Swap(g, x, y, i, j)) == Mass(g)
  {
    var a, b := g[x][y], g[i][j];
    var h := Set(g, x, y, b);
    FlattenSet(g, x, y, b);
    FlattenSet(h, i, j, a);
    SetAt(g, x, y, b, i, j);
    FlattenHolds(g, x, y);
    FlattenHolds(g, i, j);
    assert h[i][j] == b;
    SwapBack(Mass(g), a, b);
  }

  lemma SwapBack(m: multiset<real>, a: real, b: real)
    requires a in m
    ensures m - multiset{a} + multiset{b} - multiset{b} + multiset{a} == m
  {
    var r := m - multiset{a} + multiset{b} - multiset{b} + multiset{a};
    forall z
      ensures r[z] == m[z]
    {
    }
  }

  /** Visiting cells (x, y), (x, y+1), ... of row x: each draws a destination
      (randrange(rows), randrange(cols)) and swaps with it. */
  function InterRow(g: Grid, rand: nat -> nat, k: nat, x: nat, y: nat, rows: nat, cols: nat): (r: Run)
    requires Shape(g, rows, cols) && x < rows && y <= cols
    ensures Shape(r.grid, rows, cols) && Mass(r.grid) == Mass(g)
    ensures !r.failed
    decreases cols - y
  {
    if y == cols then Run(g, k, false)
    else
      var i := Randrange(rand, k, rows);
      var j := Randrange(rand, k + 1, cols);
      SwapKeepsMass(g, x, y, i, j);
      InterRow(Swap(g, x, y, i, j), rand, k + 2, x, y + 1, rows, cols)
  }

  /** One cell of a row: the run from (x, y) is the run from (x, y + 1)
      after swapping (x, y) with the drawn cell. */
  lemma InterRowStep(g: Grid, rand: nat -> nat, k: nat, x: nat, y: nat, rows: nat, cols: nat)
    requires Shape(g, rows, cols) && x < rows && y < cols
    ensures InterRow(g, rand, k, x, y, rows, cols)
            == InterRow(Swap(g, x, y, Randrange(rand, k, rows), Randrange(rand, k + 1, cols)), rand, k + 2, x, y + 1, rows, cols)
  {
  }

  /** Rows x, x+1, ... in order: `product(range(rows), range(cols))`. */
  function InterFrom(g: Grid, rand: nat -> nat, k: nat, x: nat, rows: nat, cols: nat): (r: Run)
    requires Shape(g, rows, cols) && x <= rows
    ensures Shape(r.grid, rows, cols) && Mass(r.grid) == Mass(g)
    ensures !r.failed
    decreases rows - x
  {
    if x == rows then Run(g, k, false)
    else
      var row := InterRow(g, rand, k, x, 0, rows, cols);
      InterFrom(row.grid, rand, row.draws, x + 1, rows, cols)
  }

  /** The whole inter-chromosome scramble. Shape and multiset of values are
      those of the input: the postcondition needs the recursive calls'. */
  function InterScrambled(g: Grid, rand: nat -> nat, rows: nat, cols: nat): (r: Grid)
    requires Shape(g, rows, cols)
    ensures Shape(r, rows, cols) && Mass(r) == Mass(g)
  {
    InterFrom(g, rand, 0, 0, rows, cols).grid
  }

  // ---------------------------------------------------------------------
  // _scrambleIntraFY
  // ---------------------------------------------------------------------

  predicate Symmetric(g: Grid, n: nat)
    requires Shape(g, n, n)
  {
    forall a, b :: 0 <= a < n && 0 <= b < n ==> g[a][b] == g[b][a]
  }

  function Abs(v: real): real { if v < 0.0 then -v else v }

  /** The symmetry test: `mat[x][y] != mat[y][x] and abs(...) > .001`. */
  predicate Asymmetric(g: Grid, n: nat, x: nat, y: nat)
    requires Shape(g, n, n) && x < n && y < n
  {
    g[x][y] != g[y][x] && Abs(g[x][y] - g[y][x]) > 0.001
  }

  /** The mirrored swap: with A = m[x][y] and B = m[i][j] read first,
      (i, j) := A, (x, y) := B, (j, i) := A, (y, x) := B, in that order. Only
      those four cells change. */
  function MirrorSwap(g: Grid, n: nat, x: nat, y: nat, i: nat, j: nat): (r: Grid)
    requires Shape(g, n, n) && x < n && y < n && i < n && j < n
    ensures Shape(r, n, n)
    ensures forall a, b :: 0 <= a < n && 0 <= b < n
              && (a, b) != (x, y) && (a, b) != (y, x) && (a, b) != (i, j) && (a, b) != (j, i)
              ==> r[a][b] == g[a][b]
  {
    var va, vb := g[x][y], g[i][j];
    Set(Set(Set(Set(g, i, j, va), x, y, vb), j, i, va), y, x, vb)
  }

  /** Cells (x, y), (x, y+1), ..., (x, n-1) of row x: test symmetry, draw
      (randrange(rows), randrange(rows)), swap with the mirror. */
  function IntraRow(g: Grid, rand: nat -> nat, k: nat, x: nat, y: nat, n: nat): (r: Run)
    requires Shape(g, n, n) && x < n && y <= n
    ensures Shape(r.grid, n, n)
    decreases n - y
  {
    if y == n then Run(g, k, false)
    else if Asymmetric(g, n, x, y) then Run(g, k, true)
    else
      var i := Randrange(rand, k, n);
      var j := Randrange(rand, k + 1, n);
      IntraRow(MirrorSwap(g, n, x, y, i, j), rand, k + 2, x, y + 1, n)
  }

  /** `combinations_with_replacement(range(n), 2)`: row x from column x on,
      then the next row; stops at the first failed symmetry test. */
  function IntraFrom(g: Grid, rand: nat -> nat, k: nat, x: nat, n: nat): (r: Run)
    requires Shape(g, n, n) && x <= n
    ensures Shape(r.grid, n, n)
    decreases n - x
  {
    if x == n then Run(g, k, false)
    else
      var row := IntraRow(g, rand, k, x, x, n);
      if row.failed then row else IntraFrom(row.grid, rand, row.draws, x + 1, n)
  }

  function IntraScrambled(g: Grid, rand: nat -> nat, n: nat): Run
    requires Shape(g, n, n)
  {
    IntraFrom(g, rand, 0, 0, n)
  }

  // ---- the upper triangle, diagonal included ----

  /** Multiset of the cells (r, c) with x <= r <= c. */
  function UpperFrom(g: Grid, n: nat, x: nat): multiset<real>
    requires Shape(g, n, n) && x <= n
    decreases n - x
  {
    if x == n then multiset{} else multiset(g[x][x..]) + UpperFrom(g, n, x + 1)
  }

  function Upper(g: Grid, n: nat): multiset<real>
    requires Shape(g, n, n)
  {
    UpperFrom(g, n, 0)
  }

  /** The upper triangle depends only on the upper cells. */
  lemma {:induction false} UpperFromSame(g: Grid, h: Grid, n: nat, x: nat)
    requires Shape(g, n, n) && Shape(h, n, n) && x <= n
    requires forall a, b :: x <= a <= b < n ==> g[a][b] == h[a][b]
    ensures UpperFrom(g, n, x) == UpperFrom(h, n, x)
    decreases n - x
  {
    if x < n {
      assert g[x][x..] == h[x][x..];
      UpperFromSame(g, h, n, x + 1);
    }
  }

  lemma {:induction false} UpperFromHolds(g: Grid, n: nat, x: nat, a: nat, b: nat)
    requires Shape(g, n, n) && x <= a <= b < n
    ensures g[a][b] in UpperFrom(g, n, x)
    decreases n - x
  {
    if x == a {
      assert g[a][b] == g[x][x..][b - x];
    } else {
      UpperFromHolds(g, n, x + 1, a, b);
    }
  }

  /** Writing an upper cell replaces its value in the upper multiset. */
  lemma {:induction false} UpperFromSet(g: Grid, n: nat, x: nat, a: nat, b: nat, v: real)
    requires Shape(g, n, n) && x <= a <= b < n
    ensures UpperFrom(Set(g, a, b, v), n, x) == UpperFrom(g, n, x) - multiset{g[a][b]} + multiset{v}
    decreases n - x
  {
    if x == a {
      UpperRowSet(g, n, x, b, v);
    } else {
      UpperFromSet(g, n, x + 1, a, b, v);
      UpperFromHolds(g, n, x + 1, a, b);
      assert Set(g, a, b, v)[x][x..] == g[x][x..];
      ReplaceRight(multiset(g[x][x..]), UpperFrom(g, n, x + 1), g[a][b], v);
    }
  }

  /** The same, for a cell of the first row of the triangle. */
  lemma UpperRowSet(g: Grid, n: nat, x: nat, b: nat, v: real)
    requires Shape(g, n, n) && x <= b < n
    ensures UpperFrom(Set(g, x, b, v), n, x) == UpperFrom(g, n, x) - multiset{g[x][b]} + multiset{v}
  {
    var h := Set(g, x, b, v);
    UpperFromSame(g, h, n, x + 1);
    var row := g[x][x..];
    assert h[x][x..] == row[b - x := v];
    assert row[b - x] == g[x][b];
    SeqUpdateMultiset(row, b - x, v);
    ReplaceLeft(multiset(row), UpperFrom(g, n, x + 1), g[x][b], v);
  }

  lemma SeqUpdateMultiset(s: seq<real>, k: nat, v: real)
    requires k < |s|
    ensures multiset(s[k := v]) == multiset(s) - multiset{s[k]} + multiset{v}
  {
  }

  lemma ReplaceLeft(m1: multiset<real>, m2: multiset<real>, e: real, v: real)
    requires e in m1
    ensures (m1 - multiset{e} + multiset{v}) + m2 == (m1 + m2) - multiset{e} + multiset{v}
  {
    var l, r := (m1 - multiset{e} + multiset{v}) + m2, (m1 + m2) - multiset{e} + multiset{v};
    forall z
      ensures l[z] == r[z]
    {
    }
  }

  lemma ReplaceRight(m1: multiset<real>, m2: multiset<real>, e: real, v: real)
    requires e in m2
    ensures m1 + (m2 - multiset{e} + multiset{v}) == (m1 + m2) - multiset{e} + multiset{v}
  {
    var l, r := m1 + (m2 - multiset{e} + multiset{v}), (m1 + m2) - multiset{e} + multiset{v};
    forall z
      ensures l[z] == r[z]
    {
    }
  }

  /** What a mirrored swap leaves in cell (a, b) of a symmetric matrix: the
      pair {x, y} receives m[i][j], the pair {i, j} receives m[x][y]. */
  lemma MirrorSwapAt(g: Grid, n: nat, x: nat, y: nat, i: nat, j: nat, a: nat, b: nat)
    requires Shape(g, n, n) && Symmetric(g, n)
    requires x < n && y < n && i < n && j < n && a < n && b < n
    ensures MirrorSwap(g, n, x, y, i, j)[a][b]
            == if (a, b) == (x, y) || (a, b) == (y, x) then g[i][j]
               else if (a, b) == (i, j) || (a, b) == (j, i) then g[x][y]
               else g[a][b]
  {
    var va, vb := g[x][y], g[i][j];
    var h1 := Set(g, i, j, va);
    var h2 := Set(h1, x, y, vb);
    var h3 := Set(h2, j, i, va);
    SetAt(g, i, j, va, a, b);
    SetAt(h1, x, y, vb, a, b);
    SetAt(h2, j, i, va, a, b);
    SetAt(h3, y, x, vb, a, b);
    assert g[i][j] == g[j][i] && g[x][y] == g[y][x];
  }

  /** On an exactly symmetric matrix a mirrored swap keeps the matrix
      symmetric and keeps the multiset of its upper triangle. */
  lemma MirrorSwapSymmetric(g: Grid, n: nat, x: nat, y: nat, i: nat, j: nat)
    requires Shape(g, n, n) && Symmetric(g, n)
    requires x <= y < n && i < n && j < n
    ensures Symmetric(MirrorSwap(g, n, x, y, i, j), n)
    ensures Upper(MirrorSwap(g, n, x, y, i, j), n) == Upper(g, n)
  {
    MirrorSwapKeepsSymmetry(g, n, x, y, i, j);
    MirrorSwapKeepsUpper(g, n, x, y, i, j);
  }

  lemma MirrorSwapKeepsSymmetry(g: Grid, n: nat, x: nat, y: nat, i: nat, j: nat)
    requires Shape(g, n, n) && Symmetric(g, n)
    requires x <= y < n && i < n && j < n
    ensures Symmetric(MirrorSwap(g, n, x, y, i, j), n)
  {
    var r := MirrorSwap(g, n, x, y, i, j);
    forall a, b | 0 <= a < n && 0 <= b < n
      ensures r[a][b] == r[b][a]
    {
      MirrorSwapAt(g, n, x, y, i, j, a, b);
      MirrorSwapAt(g, n, x, y, i, j, b, a);
    }
  }

  /** On the upper triangle a mirrored swap is two writes: m[i][j] into
      (x, y) and m[x][y] into the upper one of (i, j), (j, i). */
  lemma MirrorSwapKeepsUpper(g: Grid, n: nat, x: nat, y: nat, i: nat, j: nat)
    requires Shape(g, n, n) && Symmetric(g, n)
    requires x <= y < n && i < n && j < n
    ensures Upper(MirrorSwap(g, n, x, y, i, j), n) == Upper(g, n)
  {
    var va, vb := g[x][y], g[i][j];
    var lo, hi := if i <= j then i else j, if i <= j then j else i;
    assert g[lo][hi] == vb;
    var h1 := Set(g, x, y, vb);
    MirrorSwapAsWrites(g, n, x, y, i, j);
    UpperFromSet(g, n, 0, x, y, vb);
    SetAt(g, x, y, vb, lo, hi);
    UpperFromSet(h1, n, 0, lo, hi, va);
    UpperFromHolds(g, n, 0, x, y);
    SwapBack(Upper(g, n), va, vb);
  }

  lemma MirrorSwapAsWrites(g: Grid, n: nat, x: nat, y: nat, i: nat, j: nat)
    requires Shape(g, n, n) && Symmetric(g, n)
    requires x <= y < n && i < n && j < n
    ensures var lo, hi := if i <= j then i else j, if i <= j then j else i;
            Upper(MirrorSwap(g, n, x, y, i, j), n)
            == Upper(Set(Set(g, x, y, g[i][j]), lo, hi, g[x][y]), n)
  {
    var r := MirrorSwap(g, n, x, y, i, j);
    var va, vb := g[x][y], g[i][j];
    var lo, hi := if i <= j then i else j, if i <= j then j else i;
    var h1 := Set(g, x, y, vb);
    var h2 := Set(h1, lo, hi, va);
    forall a, b | 0 <= a <= b < n
      ensures r[a][b] == h2[a][b]
    {
      MirrorSwapAt(g, n, x, y, i, j, a, b);
      SetAt(g, x, y, vb, a, b);
      SetAt(h1, lo, hi, va, a, b);
    }
    UpperFromSame(r, h2, n, 0);
  }

  /** Scrambling an exactly symmetric matrix from row x never meets an
      asymmetric pair; it ends symmetric, with the same upper-triangle
      multiset. */
  lemma {:induction false} IntraRowSymmetric(g: Grid, rand: nat -> nat, k: nat, x: nat, y: nat, n: nat)
    requires Shape(g, n, n) && Symmetric(g, n) && x < n && x <= y <= n
    ensures var r := IntraRow(g, rand, k, x, y, n);
            !r.failed && Symmetric(r.grid, n) && Upper(r.grid, n) == Upper(g, n)
    decreases n - y
  {
    if y < n {
      assert !Asymmetric(g, n, x, y);
      var i := Randrange(rand, k, n);
      var j := Randrange(rand, k + 1, n);
      MirrorSwapSymmetric(g, n, x, y, i, j);
      IntraRowSymmetric(MirrorSwap(g, n, x, y, i, j), rand, k + 2, x, y + 1, n);
    }
  }

  lemma {:induction false} IntraFromSymmetric(g: Grid, rand: nat -> nat, k: nat, x: nat, n: nat)
    requires Shape(g, n, n) && Symmetric(g, n) && x <= n
    ensures var r := IntraFrom(g, rand, k, x, n);
            !r.failed && Symmetric(r.grid, n) && Upper(r.grid, n) == Upper(g, n)
    decreases n - x
  {
    if x < n {
      IntraRowSymmetric(g, rand, k, x, x, n);
      var row := IntraRow(g, rand, k, x, x, n);
      IntraFromSymmetric(row.grid, rand, row.draws, x + 1, n);
    }
  }

  /** The intra-chromosome scramble of an exactly symmetric matrix succeeds,
      and the result is symmetric with the same upper-triangle multiset. */
  lemma IntraScrambleKeepsSymmetry(g: Grid, rand: nat -> nat, n: nat)
    requires Shape(g, n, n) && Symmetric(g, n)
    ensures var r := IntraScrambled(g, rand, n);
            !r.failed && Symmetric(r.grid, n) && Upper(r.grid, n) == Upper(g, n)
  {
    IntraFromSymmetric(g, rand, 0, 0, n);
  }

  /** The symmetry test fires on a visited pair that differs by more than
      0.001: with every draw 0, the cell (0, 0) is swapped with itself and
      the next cell (0, 1), holding 1.0 against 0.0 in (1, 0), fails. */
  lemma IntraRejectsAsymmetric()
    ensures IntraScrambled([[0.0, 1.0], [0.0, 0.0]], (k: nat) => 0, 2).failed
  {
    var g: Grid := [[0.0, 1.0], [0.0, 0.0]];
    var rand := (k: nat) => 0;
    assert g[0][0 := 0.0] == g[0];
    assert Set(g, 0, 0, 0.0) == g;
    assert MirrorSwap(g, 2, 0, 0, 0, 0) == g;
    assert Asymmetric(g, 2, 0, 1);
  }
}
