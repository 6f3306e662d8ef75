/** Genes as read from and written to BED files (`src/genes.py`): parsing
    with the two stable sorts that order genes by (chromosome, start),
    printing, and the left/right neighbours of every gene. */
module Genes {
  import opened Common
  import opened Text

  /** A gene dict: chrom, start, end, name, strand. */
  datatype Gene = Gene(chrom: string, start: nat, end: nat, name: string, strand: string)

  // ---------------------------------------------------------------------
  // Python's string order and the two sort keys
  // ---------------------------------------------------------------------

  /** `a <= b` on Python strings: lexicographic on code points, a proper
      prefix being smaller. */
  predicate LexLe(a: string, b: string)
  {
    a == [] || (b != [] && (a[0] < b[0] || (a[0] == b[0] && LexLe(a[1..], b[1..]))))
  }

  lemma {:induction false} LexTotal(a: string, b: string)
    ensures LexLe(a, b) || LexLe(b, a)
  {
    if a != [] && b != [] && a[0] == b[0] {
      LexTotal(a[1..], b[1..]);
    }
  }

  lemma {:induction false} LexTrans(a: string, b: string, c: string)
    requires LexLe(a, b) && LexLe(b, c)
    ensures LexLe(a, c)
  {
    if a != [] && b != [] && c != [] && a[0] == b[0] && b[0] == c[0] {
      LexTrans(a[1..], b[1..], c[1..]);
    }
  }

  lemma {:induction false} LexAntisym(a: string, b: string)
    requires LexLe(a, b) && LexLe(b, a)
    ensures a == b
  {
    if a != [] {
      LexAntisym(a[1..], b[1..]);
      assert a == [a[0]] + a[1..];
      assert b == [b[0]] + b[1..];
    }
  }

  /** The key of one of the two `res.sort(key=...)` calls. */
  datatype SortKey = ByStart | ByChrom

  /** key(a) <= key(b). */
  predicate Le(a: Gene, b: Gene, key: SortKey)
  {
    match key
    case ByStart => a.start <= b.start
    case ByChrom => LexLe(a.chrom, b.chrom)
  }

  /** key(a) == key(b). */
  predicate Same(a: Gene, b: Gene, key: SortKey)
  {
    match key
    case ByStart => a.start == b.start
    case ByChrom => a.chrom == b.chrom
  }

  /** Both keys are total preorders whose equivalence is `Same`. */
  lemma LeFacts(a: Gene, b: Gene, c: Gene, key: SortKey)
    ensures Le(a, b, key) || Le(b, a, key)
    ensures Le(a, b, key) && Le(b, c, key) ==> Le(a, c, key)
    ensures Same(a, b, key) <==> Le(a, b, key) && Le(b, a, key)
  {
    if key == ByChrom {
      LexTotal(a.chrom, b.chrom);
      if LexLe(a.chrom, b.chrom) && LexLe(b.chrom, c.chrom) {
        LexTrans(a.chrom, b.chrom, c.chrom);
      }
      if LexLe(a.chrom, b.chrom) && LexLe(b.chrom, a.chrom) {
        LexAntisym(a.chrom, b.chrom);
      }
      if a.chrom == b.chrom {
        LexReflexive(a.chrom);
      }
    }
  }

  lemma {:induction false} LexReflexive(a: string)
    ensures LexLe(a, a)
  {
    if a != [] {
      LexReflexive(a[1..]);
    }
  }

  predicate SortedBy(s: seq<Gene>, key: SortKey)
  {
    forall i, j :: 0 <= i < j < |s| ==> Le(s[i], s[j], key)
  }

  /** The genes of s with the same key as y, in the order of s. */
  function Class(s: seq<Gene>, y: Gene, key: SortKey): (r: seq<Gene>)
    ensures |r| <= |s|
  {
    if s == [] then []
    else (if Same(s[0], y, key) then [s[0]] else []) + Class(s[1..], y, key)
  }

  lemma {:induction false} ClassMembers(s: seq<Gene>, y: Gene, key: SortKey, e: Gene)
    requires e in Class(s, y, key)
    ensures e in s && Same(e, y, key)
  {
    if s[0] != e || !Same(s[0], y, key) {
      ClassMembers(s[1..], y, key, e);
    }
  }

  lemma ClassOfFirst(t: seq<Gene>, key: SortKey)
    ensures t != [] ==> Class(t, t[0], key) != []
  {
    if t != [] {
      LeFacts(t[0], t[0], t[0], key);
    }
  }

  /** The first gene of a sorted sequence has the least key. */
  lemma FirstIsLeast(t: seq<Gene>, e: Gene, key: SortKey)
    requires SortedBy(t, key) && e in t
    ensures Le(t[0], e, key)
  {
    var k :| 0 <= k < |t| && t[k] == e;
    if k == 0 {
      LeFacts(e, e, e, key);
    }
  }

  lemma {:induction false} ClassAppend(a: seq<Gene>, b: seq<Gene>, y: Gene, key: SortKey)
    ensures Class(a + b, y, key) == Class(a, y, key) + Class(b, y, key)
  {
    if a == [] {
      assert a + b == b;
    } else {
      assert (a + b)[1..] == a[1..] + b;
      ClassAppend(a[1..], b, y, key);
    }
  }

  /** Keeping one chromosome and keeping one start commute. */
  lemma {:induction false} ClassCommute(s: seq<Gene>, a: Gene, ka: SortKey, b: Gene, kb: SortKey)
    ensures Class(Class(s, a, ka), b, kb) == Class(Class(s, b, kb), a, ka)
  {
    if s != [] {
      ClassCommute(s[1..], a, ka, b, kb);
      var h := if Same(s[0], a, ka) then [s[0]] else [];
      ClassAppend(h, Class(s[1..], a, ka), b, kb);
      var h2 := if Same(s[0], b, kb) then [s[0]] else [];
      ClassAppend(h2, Class(s[1..], b, kb), a, ka);
    }
  }

  lemma SortedCons(x: Gene, t: seq<Gene>, key: SortKey)
    requires SortedBy(t, key) && forall e :: e in t ==> Le(x, e, key)
    ensures SortedBy([x] + t, key)
  {
    var s := [x] + t;
    forall i, j | 0 <= i < j < |s|
      ensures Le(s[i], s[j], key)
    {
      if i > 0 {
        assert s[i] == t[i - 1] && s[j] == t[j - 1];
      } else {
        assert s[j] in t;
      }
    }
  }

  /** A subsequence of a sorted sequence is sorted. */
  lemma {:induction false} ClassSorted(s: seq<Gene>, y: Gene, ky: SortKey, key: SortKey)
    requires SortedBy(s, key)
    ensures SortedBy(Class(s, y, ky), key)
  {
    if s != [] {
      assert SortedBy(s[1..], key) by {
        forall i, j | 0 <= i < j < |s[1..]|
          ensures Le(s[1..][i], s[1..][j], key)
        {
          assert s[1..][i] == s[i + 1] && s[1..][j] == s[j + 1];
        }
      }
      ClassSorted(s[1..], y, ky, key);
      if Same(s[0], y, ky) {
        forall e | e in Class(s[1..], y, ky)
          ensures Le(s[0], e, key)
        {
          ClassMembers(s[1..], y, ky, e);
          var k :| 0 <= k < |s[1..]| && s[1..][k] == e;
          assert s[k + 1] == e;
        }
        SortedCons(s[0], Class(s[1..], y, ky), key);
      }
    }
  }

  // ---------------------------------------------------------------------
  // Stable sorting (list.sort with a key)
  // ---------------------------------------------------------------------

  /** Inserting x into a sorted sequence after every element whose key is
      not greater than x's. */
  function Insert(x: Gene, t: seq<Gene>, key: SortKey): (r: seq<Gene>)
    ensures multiset(r) == multiset(t) + multiset{x}
  {
    if t == [] then [x]
    else if !Le(t[0], x, key) then [x] + t
    else
      assert t == [t[0]] + t[1..];
      [t[0]] + Insert(x, t[1..], key)
  }

  /** `list.sort(key=...)`: a stable sort, here as insertion of each
      element in turn. */
  function SortBy(s: seq<Gene>, key: SortKey): (r: seq<Gene>)
    ensures multiset(r) == multiset(s)
  {
    if s == [] then []
    else
      assert s == s[..|s| - 1] + [s[|s| - 1]];
      Insert(s[|s| - 1], SortBy(s[..|s| - 1], key), key)
  }

  lemma {:induction false} InsertSorted(x: Gene, t: seq<Gene>, key: SortKey)
    requires SortedBy(t, key)
    ensures SortedBy(Insert(x, t, key), key)
  {
    if t == [] {
    } else if !Le(t[0], x, key) {
      forall e | e in t
        ensures Le(x, e, key)
      {
        LeFacts(t[0], x, e, key);
        LeFacts(x, t[0], e, key);
      }
      SortedCons(x, t, key);
    } else {
      assert SortedBy(t[1..], key) by {
        forall i, j | 0 <= i < j < |t[1..]|
          ensures Le(t[1..][i], t[1..][j], key)
        {
          assert t[1..][i] == t[i + 1] && t[1..][j] == t[j + 1];
        }
      }
      InsertSorted(x, t[1..], key);
      var rest := Insert(x, t[1..], key);
      forall e | e in rest
        ensures Le(t[0], e, key)
      {
        assert e in multiset(rest);
        if e != x {
          assert e in multiset(t[1..]);
          var k :| 0 <= k < |t[1..]| && t[1..][k] == e;
          assert t[k + 1] == e;
        }
      }
      SortedCons(t[0], rest, key);
    }
  }

  lemma {:induction false} SortBySorted(s: seq<Gene>, key: SortKey)
    ensures SortedBy(SortBy(s, key), key)
  {
    if s != [] {
      SortBySorted(s[..|s| - 1], key);
      InsertSorted(s[|s| - 1], SortBy(s[..|s| - 1], key), key);
    }
  }

  /** Inserting x appends it to the genes of its own key and leaves the
      others alone. */
  lemma {:induction false} InsertClass(x: Gene, t: seq<Gene>, y: Gene, key: SortKey)
    requires SortedBy(t, key)
    ensures Class(Insert(x, t, key), y, key) == Class(t, y, key) + (if Same(x, y, key) then [x] else [])
  {
    if t == [] {
      ClassSingle(x, y, key);
    } else if !Le(t[0], x, key) {
      InsertClassFront(x, t, y, key);
    } else {
      SortedTail(t, key);
      InsertClass(x, t[1..], y, key);
      InsertClassStep(x, t, y, key);
    }
  }

  lemma InsertClassFront(x: Gene, t: seq<Gene>, y: Gene, key: SortKey)
    requires SortedBy(t, key) && t != [] && !Le(t[0], x, key)
    ensures Class(Insert(x, t, key), y, key) == Class(t, y, key) + (if Same(x, y, key) then [x] else [])
  {
    assert Insert(x, t, key) == [x] + t;
    ClassAppend([x], t, y, key);
    ClassSingle(x, y, key);
    if Same(x, y, key) {
      AboveOutsideClass(x, t, y, key);
      ClassNone(t, y, key);
    }
  }

  lemma InsertClassStep(x: Gene, t: seq<Gene>, y: Gene, key: SortKey)
    requires t != [] && Le(t[0], x, key)
    requires Class(Insert(x, t[1..], key), y, key) == Class(t[1..], y, key) + (if Same(x, y, key) then [x] else [])
    ensures Class(Insert(x, t, key), y, key) == Class(t, y, key) + (if Same(x, y, key) then [x] else [])
  {
    var ext := if Same(x, y, key) then [x] else [];
    var r, r1 := Insert(x, t, key), Insert(x, t[1..], key);
    assert r == [t[0]] + r1;
    assert [t[0]] + t[1..] == t;
    ConsClass(t[0], r1, t[1..], ext, y, key);
    assert Class(r, y, key) == Class(t, y, key) + ext;
  }

  /** Putting one gene in front of two sequences whose classes differ by a
      suffix keeps that difference. */
  lemma ConsClass(h: Gene, rest: seq<Gene>, tail: seq<Gene>, ext: seq<Gene>, y: Gene, key: SortKey)
    requires Class(rest, y, key) == Class(tail, y, key) + ext
    ensures Class([h] + rest, y, key) == Class([h] + tail, y, key) + ext
  {
    assert ([h] + rest)[1..] == rest;
    assert ([h] + tail)[1..] == tail;
  }

  /** When a sorted t starts above x, no gene of t shares x's key. */
  lemma AboveOutsideClass(x: Gene, t: seq<Gene>, y: Gene, key: SortKey)
    requires SortedBy(t, key) && t != [] && !Le(t[0], x, key) && Same(x, y, key)
    ensures forall e :: e in t ==> !Same(e, y, key)
  {
    forall e | e in t
      ensures !Same(e, y, key)
    {
      LeFacts(t[0], e, x, key);
      LeFacts(e, y, x, key);
      LeFacts(x, y, e, key);
    }
  }

  lemma SortedTail(t: seq<Gene>, key: SortKey)
    requires SortedBy(t, key) && t != []
    ensures SortedBy(t[1..], key)
  {
    forall i, j | 0 <= i < j < |t[1..]|
      ensures Le(t[1..][i], t[1..][j], key)
    {
      assert t[1..][i] == t[i + 1] && t[1..][j] == t[j + 1];
    }
  }

  lemma {:induction false} ClassNone(t: seq<Gene>, y: Gene, key: SortKey)
    requires forall e :: e in t ==> !Same(e, y, key)
    ensures Class(t, y, key) == []
  {
    if t != [] {
      assert t[0] in t;
      ClassNone(t[1..], y, key);
    }
  }

  /** Stability: the genes of one key come out in their input order. */
  lemma {:induction false} SortByStable(s: seq<Gene>, y: Gene, key: SortKey)
    ensures Class(SortBy(s, key), y, key) == Class(s, y, key)
  {
    if s != [] {
      var init, x := s[..|s| - 1], s[|s| - 1];
      assert s == init + [x];
      assert SortBy(s, key) == Insert(x, SortBy(init, key), key);
      ClassAppend(init, [x], y, key);
      ClassSingle(x, y, key);
      SortByStable(init, y, key);
      SortBySorted(init, key);
      InsertClass(x, SortBy(init, key), y, key);
    }
  }

  lemma ClassSingle(x: Gene, y: Gene, key: SortKey)
    ensures Class([x], y, key) == if Same(x, y, key) then [x] else []
  {
    assert [x][1..] == [];
  }

  /** A sequence sorted by a key is determined by the order of the genes
      within each key. */
  lemma {:induction false} SortedUnique(t1: seq<Gene>, t2: seq<Gene>, key: SortKey)
    requires SortedBy(t1, key) && SortedBy(t2, key)
    requires forall y :: Class(t1, y, key) == Class(t2, y, key)
    ensures t1 == t2
    decreases |t1|
  {
    if t1 == [] || t2 == [] {
      if t1 != [] {
        ClassOfFirst(t1, key);
      } else if t2 != [] {
        ClassOfFirst(t2, key);
      }
    } else {
      FirstsAgree(t1, t2, key);
      SortedTail(t1, key);
      SortedTail(t2, key);
      TailClasses(t1, t2, key);
      SortedUnique(t1[1..], t2[1..], key);
      assert t1 == [t1[0]] + t1[1..] && t2 == [t2[0]] + t2[1..];
    }
  }

  /** Two sorted sequences with the same classes start with the same gene. */
  lemma FirstsAgree(t1: seq<Gene>, t2: seq<Gene>, key: SortKey)
    requires SortedBy(t1, key) && SortedBy(t2, key) && t1 != [] && t2 != []
    requires forall y :: Class(t1, y, key) == Class(t2, y, key)
    ensures t1[0] == t2[0]
  {
    var a, b := t1[0], t2[0];
    LeFacts(a, a, a, key);
    LeFacts(b, b, b, key);
    assert Class(t1, a, key)[0] == a;
    ClassMembers(t2, a, key, a);
    FirstIsLeast(t2, a, key);
    assert Class(t2, b, key)[0] == b;
    ClassMembers(t1, b, key, b);
    FirstIsLeast(t1, b, key);
    LeFacts(a, b, a, key);
    assert Class(t2, a, key)[0] == b;
  }

  /** With equal first genes, equal classes leave equal classes of the tails. */
  lemma TailClasses(t1: seq<Gene>, t2: seq<Gene>, key: SortKey)
    requires t1 != [] && t2 != [] && t1[0] == t2[0]
    requires forall y :: Class(t1, y, key) == Class(t2, y, key)
    ensures forall y :: Class(t1[1..], y, key) == Class(t2[1..], y, key)
  {
    var a := t1[0];
    forall y
      ensures Class(t1[1..], y, key) == Class(t2[1..], y, key)
    {
      var h := if Same(a, y, key) then [a] else [];
      assert Class(t1, y, key) == h + Class(t1[1..], y, key);
      assert Class(t2, y, key) == h + Class(t2[1..], y, key);
      assert Class(t1[1..], y, key) == Class(t1, y, key)[|h|..];
      assert Class(t2[1..], y, key) == Class(t2, y, key)[|h|..];
    }
  }

  /** Ordered by chromosome, and within each chromosome by start. */
  ghost predicate ChromSorted(s: seq<Gene>)
  {
    SortedBy(s, ByChrom) && forall y :: SortedBy(Class(s, y, ByChrom), ByStart)
  }

  /** `res.sort(key=start); res.sort(key=chrom)`. */
  function SortGenes(s: seq<Gene>): seq<Gene>
  {
    SortBy(SortBy(s, ByStart), ByChrom)
  }

  /** The two sorts order the genes by (chromosome, start), permute them,
      and keep genes with equal chromosome and start in input order. */
  lemma SortGenesOrders(s: seq<Gene>)
    ensures ChromSorted(SortGenes(s))
    ensures multiset(SortGenes(s)) == multiset(s)
    ensures forall y :: Class(Class(SortGenes(s), y, ByChrom), y, ByStart)
                        == Class(Class(s, y, ByChrom), y, ByStart)
  {
    var u := SortBy(s, ByStart);
    var r := SortBy(u, ByChrom);
    SortBySorted(u, ByChrom);
    SortBySorted(s, ByStart);
    forall y
      ensures SortedBy(Class(r, y, ByChrom), ByStart)
      ensures Class(Class(r, y, ByChrom), y, ByStart) == Class(Class(s, y, ByChrom), y, ByStart)
    {
      SortByStable(u, y, ByChrom);
      ClassSorted(u, y, ByChrom, ByStart);
      ClassCommute(u, y, ByChrom, y, ByStart);
      SortByStable(s, y, ByStart);
      ClassCommute(s, y, ByStart, y, ByChrom);
    }
  }

  /** Genes already ordered by (chromosome, start) come out of the two
      sorts unchanged. */
  lemma SortGenesKeepsOrdered(s: seq<Gene>)
    requires ChromSorted(s)
    ensures SortGenes(s) == s
  {
    var u := SortBy(s, ByStart);
    var r := SortBy(u, ByChrom);
    SortBySorted(u, ByChrom);
    SortBySorted(s, ByStart);
    forall y
      ensures Class(r, y, ByChrom) == Class(s, y, ByChrom)
    {
      SortByStable(u, y, ByChrom);
      ClassSorted(u, y, ByChrom, ByStart);
      forall z
        ensures Class(Class(u, y, ByChrom), z, ByStart) == Class(Class(s, y, ByChrom), z, ByStart)
      {
        ClassCommute(u, y, ByChrom, z, ByStart);
        SortByStable(s, z, ByStart);
        ClassCommute(s, z, ByStart, y, ByChrom);
      }
      SortedUnique(Class(u, y, ByChrom), Class(s, y, ByChrom), ByStart);
    }
    SortedUnique(r, s, ByChrom);
  }

  // ---------------------------------------------------------------------
  // read_bed and make_bed
  // ---------------------------------------------------------------------

  /** What one line of a BED file gives: skipped unless it has exactly six
      tab-separated fields; an error when start or end is not an integer. */
  datatype LineParse = Skipped | Parsed(gene: Gene) | BadInteger(text: string)

  function ParseLine(line: string): (r: LineParse)
    ensures r.Parsed? ==> |Split(line, '\t')| == 6 && r.gene.chrom == Split(line, '\t')[0]
                          && r.gene.name == Split(line, '\t')[3] && r.gene.strand == Split(line, '\t')[5]
    ensures r.Skipped? <==> |Split(line, '\t')| != 6
  {
    var f := Split(line, '\t');
    if |f| != 6 then Skipped
    else
      match (ParseNat(f[1]), ParseNat(f[2]))
      case (None, _) => BadInteger(f[1])
      case (Some(_), None) => BadInteger(f[2])
      case (Some(start), Some(end)) => Parsed(Gene(f[0], start, end, f[3], f[5]))
  }

  /** The genes of the lines, in file order; the first bad integer stops
      the parse. */
  function ParseLines(lines: seq<string>): Result<seq<Gene>, string>
  {
    if lines == [] then Ok([])
    else
      match ParseLines(lines[..|lines| - 1])
      case Err(e) => Err(e)
      case Ok(gs) =>
        match ParseLine(lines[|lines| - 1])
        case Skipped => Ok(gs)
        case BadInteger(t) => Err(t)
        case Parsed(g) => Ok(gs + [g])
  }

  /** `read_bed` on the file's text. */
  function ReadBedText(text: string): Result<seq<Gene>, string>
  {
    match ParseLines(Lines(text))
    case Err(e) => Err(e)
    case Ok(gs) => Ok(SortGenes(gs))
  }

  /** `read_bed(name)` once the file is read: parse every non-empty line
      into `res`, then sort `res` by start and then by chromosome. */
  method ReadBed(text: string) returns (r: Result<seq<Gene>, string>)
    ensures r == ReadBedText(text)
    ensures r.Ok? ==> ChromSorted(r.value)
  {
    var lines := Lines(text);
    var res: seq<Gene> := [];
    var i := 0;
    while i < |lines|
      invariant i <= |lines|
      invariant ParseLines(lines[..i]) == Ok(res)
    {
      assert lines[..i + 1][..i] == lines[..i];
      match ParseLine(lines[i]) {
        case Skipped =>
        case BadInteger(t) =>
          assert ParseLines(lines[..i + 1]) == Err(t);
          ParseLinesError(lines, i + 1);
          return Err(t);
        case Parsed(g) =>
          res := res + [g];
      }
      i := i + 1;
    }
    assert lines[..i] == lines;
    SortGenesOrders(res);
    r := Ok(SortGenes(res));
  }

  /** An error in a prefix of the lines is the error of the whole file. */
  lemma {:induction false} ParseLinesError(lines: seq<string>, n: nat)
    requires n <= |lines| && ParseLines(lines[..n]).Err?
    ensures ParseLines(lines) == ParseLines(lines[..n])
    decreases |lines| - n
  {
    if n < |lines| {
      assert lines[..n + 1][..n] == lines[..n];
      ParseLinesError(lines, n + 1);
    } else {
      assert lines[..n] == lines;
    }
  }

  /** The six fields `make_bed` writes for a gene; the score is "0". */
  function BedFields(g: Gene): seq<string>
  {
    [g.chrom, NatToString(g.start), NatToString(g.end), g.name, "0", g.strand]
  }

  function BedLine(g: Gene): string
  {
    Join(BedFields(g), '\t')
  }

  /** `make_bed(genes)`: one tab-separated line per gene, joined by
      newlines. */
  function MakeBed(genes: seq<Gene>): (text: string)
  {
    Join(seq(|genes|, i requires 0 <= i < |genes| => BedLine(genes[i])), '\n')
  }

  /** No text field of the gene holds a tab or a newline. */
  predicate PlainFields(g: Gene)
  {
    '\t' !in g.chrom && '\t' !in g.name && '\t' !in g.strand
    && '\n' !in g.chrom && '\n' !in g.name && '\n' !in g.strand
  }

  /** A printed line parses back to its gene. */
  lemma ParseBedLine(g: Gene)
    requires PlainFields(g)
    ensures ParseLine(BedLine(g)) == Parsed(g)
  {
    NatToStringPlain(g.start);
    NatToStringPlain(g.end);
    var f := BedFields(g);
    assert forall i :: 0 <= i < |f| ==> '\t' !in f[i];
    SplitJoin(f, '\t');
    ParseNatToString(g.start);
    ParseNatToString(g.end);
  }

  lemma {:induction false} BedLineOneLine(g: Gene)
    requires PlainFields(g)
    ensures BedLine(g) != [] && '\n' !in BedLine(g)
  {
    NatToStringPlain(g.start);
    NatToStringPlain(g.end);
    var f := BedFields(g);
    assert BedLine(g) == f[0] + ['\t'] + Join(f[1..], '\t');
    JoinFree(f, '\t', '\n');
  }

  lemma {:induction false} ParsePrinted(genes: seq<Gene>)
    requires forall i :: 0 <= i < |genes| ==> PlainFields(genes[i])
    ensures ParseLines(seq(|genes|, i requires 0 <= i < |genes| => BedLine(genes[i]))) == Ok(genes)
  {
    var rows := seq(|genes|, i requires 0 <= i < |genes| => BedLine(genes[i]));
    if genes != [] {
      var n := |genes|;
      ParsePrinted(genes[..n - 1]);
      assert rows[..n - 1] == seq(n - 1, i requires 0 <= i < n - 1 => BedLine(genes[..n - 1][i]));
      ParseBedLine(genes[n - 1]);
      assert genes[..n - 1] + [genes[n - 1]] == genes;
    }
  }

  /** `read_bed` of `make_bed(genes)` gives the genes back when they are
      already ordered by (chromosome, start) and their text fields hold
      neither tabs nor newlines. */
  lemma ReadMakeBed(genes: seq<Gene>)
    requires ChromSorted(genes)
    requires forall i :: 0 <= i < |genes| ==> PlainFields(genes[i])
    ensures ReadBedText(MakeBed(genes)) == Ok(genes)
  {
    var rows := seq(|genes|, i requires 0 <= i < |genes| => BedLine(genes[i]));
    forall i | 0 <= i < |rows|
      ensures rows[i] != [] && '\n' !in rows[i]
    {
      BedLineOneLine(genes[i]);
    }
    LinesOfJoin(rows);
    ParsePrinted(genes);
    SortGenesKeepsOrdered(genes);
  }

  // ---------------------------------------------------------------------
  // compute_adjacent
  // ---------------------------------------------------------------------

  /** The dict of one gene: its 'left' and 'right' keys, each possibly
      absent. */
  datatype Neighbours = Neighbours(left: Option<string>, right: Option<string>)

  /** The code as written, or with the evidently intended test of the next
      gene's chromosome for a middle gene's right neighbour. */
  datatype Reading = AsWritten | Intended

  /** The entry `compute_adjacent` builds for position k. The first gene has
      left '' and a right only when gene 1 shares its chromosome; the last
      has right '' and a left only when the previous gene shares its
      chromosome; a middle gene has the previous name as left when it shares
      the chromosome, else '', and as written always has the next name as
      right, because the test compares the gene's chromosome with itself. */
  function NeighbourEntry(genes: seq<Gene>, k: nat, reading: Reading): Neighbours
    requires 2 <= |genes| && k < |genes|
  {
    var n := |genes|;
    if k == 0 then
      Neighbours(Some(""), if genes[0].chrom == genes[1].chrom then Some(genes[1].name) else None)
    else if k == n - 1 then
      Neighbours(if genes[k].chrom == genes[k - 1].chrom then Some(genes[k - 1].name) else None, Some(""))
    else
      Neighbours(Some(if genes[k - 1].chrom == genes[k].chrom then genes[k - 1].name else ""),
                 Some(if reading == AsWritten || genes[k + 1].chrom == genes[k].chrom then genes[k + 1].name else ""))
  }

  /** The result dict after the entries of positions 0 .. i - 1 were stored
      in order, a later gene of the same name replacing an earlier one. */
  function AdjacencyUpTo(genes: seq<Gene>, i: nat, reading: Reading): map<string, Neighbours>
    requires 2 <= |genes| && i <= |genes|
  {
    if i == 0 then map[]
    else AdjacencyUpTo(genes, i - 1, reading)[genes[i - 1].name := NeighbourEntry(genes, i - 1, reading)]
  }

  /** The keys are the names of the genes stored so far. */
  lemma {:induction false} AdjacencyKeys(genes: seq<Gene>, i: nat, reading: Reading)
    requires 2 <= |genes| && i <= |genes|
    ensures AdjacencyUpTo(genes, i, reading).Keys == set l | 0 <= l < i :: genes[l].name
  {
    if i > 0 {
      AdjacencyKeys(genes, i - 1, reading);
      var before := set l | 0 <= l < i - 1 :: genes[l].name;
      assert (set l | 0 <= l < i :: genes[l].name) == before + {genes[i - 1].name};
    }
  }

  /** Position k holds the last gene named genes[k].name below i. */
  predicate LastNamed(genes: seq<Gene>, k: nat, i: nat)
    requires k < i <= |genes|
  {
    forall l :: k < l < i ==> genes[l].name != genes[k].name
  }

  /** Every gene name is a key, and it maps to the entry of the last gene
      carrying that name. */
  lemma {:induction false} AdjacencyLookup(genes: seq<Gene>, i: nat, reading: Reading, k: nat)
    requires 2 <= |genes| && k < i <= |genes| && LastNamed(genes, k, i)
    ensures genes[k].name in AdjacencyUpTo(genes, i, reading)
    ensures AdjacencyUpTo(genes, i, reading)[genes[k].name] == NeighbourEntry(genes, k, reading)
  {
    if k < i - 1 {
      AdjacencyLookup(genes, i - 1, reading, k);
    }
  }

  /** `compute_adjacent(genes)`; None stands for the IndexError raised on
      fewer than two genes. With `AsWritten` a middle gene's right-hand test
      compares the gene with itself, as the source does; with `Intended` it
      compares the gene with the next one. */
  method ComputeAdjacent(genes: seq<Gene>, reading: Reading) returns (r: Option<map<string, Neighbours>>)
    ensures r.None? <==> |genes| < 2
    ensures r.Some? ==> r.value == AdjacencyUpTo(genes, |genes|, reading)
    ensures r.Some? ==> r.value.Keys == set l | 0 <= l < |genes| :: genes[l].name
  {
    if |genes| < 2 {
      return None;
    }
    var n := |genes|;
    var first := Neighbours(Some(""), None);
    if genes[0].chrom == genes[1].chrom {
      first := first.(right := Some(genes[1].name));
    }
    var res := map[genes[0].name := first];
    var i := 0;
    while i < n - 2
      invariant i <= n - 2
      invariant res == AdjacencyUpTo(genes, i + 1, reading)
    {
      var g := genes[i + 1];
      var left, right := "", "";
      if genes[i].chrom == g.chrom {
        left := genes[i].name;
      }
      var next := if reading == AsWritten then genes[i + 1] else genes[i + 2];
      if next.chrom == g.chrom {
        right := genes[i + 2].name;
      }
      res := res[g.name := Neighbours(Some(left), Some(right))];
      i := i + 1;
    }
    var last := Neighbours(None, Some(""));
    if genes[n - 1].chrom == genes[n - 2].chrom {
      last := last.(left := Some(genes[n - 2].name));
    }
    res := res[genes[n - 1].name := last];
    r := Some(res);
    AdjacencyKeys(genes, n, reading);
  }

  /** The name an optional key holds ('' when absent). */
  function NameOf(o: Option<string>): string
  {
    match o
    case None => ""
    case Some(s) => s
  }

  /** With the intended test, neighbourhood is mutual: gene k names gene
      k + 1 as its right exactly when gene k + 1 names gene k as its left,
      and both happen exactly when the two genes share a chromosome. */
  lemma IntendedNeighboursAgree(genes: seq<Gene>, k: nat)
    requires 2 <= |genes| && k + 1 < |genes|
    ensures NameOf(NeighbourEntry(genes, k, Intended).right)
            == if genes[k].chrom == genes[k + 1].chrom then genes[k + 1].name else ""
    ensures NameOf(NeighbourEntry(genes, k + 1, Intended).left)
            == if genes[k].chrom == genes[k + 1].chrom then genes[k].name else ""
  {
  }

  /** As written, a middle gene's right neighbour is the next gene even on
      another chromosome: for genes a, b on chr1 and c on chr2, b's right is
      "c" while c's left is absent; the intended reading gives ''. */
  lemma AsWrittenCrossesChromosomes()
    ensures var genes := [Gene("chr1", 0, 10, "a", "+"), Gene("chr1", 20, 30, "b", "+"), Gene("chr2", 0, 10, "c", "-")];
            && AdjacencyUpTo(genes, 3, AsWritten)["b"].right == Some("c")
            && AdjacencyUpTo(genes, 3, AsWritten)["c"].left == None
            && AdjacencyUpTo(genes, 3, Intended)["b"].right == Some("")
  {
    var genes := [Gene("chr1", 0, 10, "a", "+"), Gene("chr1", 20, 30, "b", "+"), Gene("chr2", 0, 10, "c", "-")];
    AdjacencyLookup(genes, 3, AsWritten, 1);
    AdjacencyLookup(genes, 3, AsWritten, 2);
    AdjacencyLookup(genes, 3, Intended, 1);
  }
}
