/** The page partitioner: divides a document of `total` pages into at most
    `nParts` contiguous, balanced, inclusive page ranges (`compute_chunks`)
    and writes one output document per range (`split_pdf`). Documents are
    sequences of opaque pages; the filesystem is a map from path to the
    document stored there. */
module Divider {

  import opened Wrappers
  import opened Text

  const NPartsMessage := "n_parts must be >= 1"
  const NoPagesMessage := "PDF must have at least one page"
  const EmptyInputMessage := "Input PDF has no pages"

  /** An inclusive range of 0-based page indices. */
  datatype Range = Range(start: int, end: int)

  function Size(r: Range): int { r.end - r.start + 1 }

  // ---------------------------------------------------------------------
  // The partition, in closed form

  /** The size of part `i` when `total` pages go into `parts` parts: the
      first `total % parts` parts carry one extra page. */
  function ChunkSize(total: nat, parts: nat, i: nat): nat
    requires parts > 0
  {
    total / parts + (if i < total % parts then 1 else 0)
  }

  /** The first page index of part `i`: the sizes of the parts before it. */
  function ChunkStart(total: nat, parts: nat, i: nat): nat
    requires parts > 0
  {
    i * (total / parts) + Min(i, total % parts)
  }

  lemma ChunkStartStep(total: nat, parts: nat, i: nat)
    requires parts > 0
    ensures ChunkStart(total, parts, i + 1) == ChunkStart(total, parts, i) + ChunkSize(total, parts, i)
  {
    var b := total / parts;
    assert (i + 1) * b == i * b + b;
  }

  lemma ChunkStartAll(total: nat, parts: nat)
    requires parts > 0
    ensures ChunkStart(total, parts, parts) == total
  {
    assert total == parts * (total / parts) + total % parts;
  }

  lemma {:induction false} ChunkStartMonotone(total: nat, parts: nat, i: nat, j: nat)
    requires parts > 0 && i <= j
    ensures ChunkStart(total, parts, i) <= ChunkStart(total, parts, j)
  {
    if i < j {
      ChunkStartMonotone(total, parts, i, j - 1);
      ChunkStartStep(total, parts, j - 1);
    }
  }

  /** The ranges `compute_chunks` returns, stated in closed form: part `i`
      starts after the sizes of the parts before it. Every range is non-empty
      and lies inside the document. */
  function Chunks(total: nat, nParts: nat): (rs: seq<Range>)
    requires total >= 1 && nParts >= 1
    ensures |rs| == Min(nParts, total)
    ensures forall k :: 0 <= k < |rs| ==> 0 <= rs[k].start <= rs[k].end < total
  {
    var parts := Min(nParts, total);
    ChunksInside(total, parts);
    seq(parts, i requires 0 <= i < parts =>
      Range(ChunkStart(total, parts, i), ChunkStart(total, parts, i) + ChunkSize(total, parts, i) - 1))
  }

  lemma ChunksInside(total: nat, parts: nat)
    requires 1 <= parts <= total
    ensures forall i :: 0 <= i < parts ==>
      ChunkSize(total, parts, i) >= 1 && ChunkStart(total, parts, i) + ChunkSize(total, parts, i) <= total
  {
    ChunkStartAll(total, parts);
    assert total / parts >= 1 by {
      assert total == parts * (total / parts) + total % parts;
    }
    forall i | 0 <= i < parts
      ensures ChunkStart(total, parts, i) + ChunkSize(total, parts, i) <= total
    {
      ChunkStartStep(total, parts, i);
      ChunkStartMonotone(total, parts, i + 1, parts);
    }
  }

  // ---------------------------------------------------------------------
  // compute_chunks

  /** `compute_chunks(total_pages, n_parts)`: rejects a non-positive part
      count first, then a non-positive page count, and otherwise builds the
      ranges one after the other, each starting right after the previous. */
  method ComputeChunks(totalPages: int, nParts: int) returns (r: Result<seq<Range>>)
    ensures nParts <= 0 ==> r == Err(InvalidValue(NPartsMessage))
    ensures nParts > 0 && totalPages <= 0 ==> r == Err(InvalidValue(NoPagesMessage))
    ensures nParts > 0 && totalPages > 0 ==> r == Ok(Chunks(totalPages, nParts))
  {
    if nParts <= 0 {
      return Err(InvalidValue(NPartsMessage));
    }
    if totalPages <= 0 {
      return Err(InvalidValue(NoPagesMessage));
    }
    var parts := Min(nParts, totalPages);
    var base := totalPages / parts;
    var rem := totalPages % parts;
    ghost var spec := Chunks(totalPages, nParts);
    var ranges: seq<Range> := [];
    var start := 0;
    for i := 0 to parts
      invariant ranges == spec[..i]
      invariant start == ChunkStart(totalPages, parts, i)
    {
      var size := base + (if i < rem then 1 else 0);
      var end := start + size - 1;
      ranges := ranges + [Range(start, end)];
      ChunkStartStep(totalPages, parts, i);
      start := end + 1;
    }
    assert spec[..parts] == spec;
    return Ok(ranges);
  }

  // ---------------------------------------------------------------------
  // Properties of the partition

  /** The ranges cover `0 .. total-1` in order: the first starts at 0, each
      starts right after the previous one ends, the last ends at `total - 1`. */
  predicate Contiguous(rs: seq<Range>, total: int) {
    && |rs| >= 1
    && rs[0].start == 0
    && rs[|rs| - 1].end == total - 1
    && forall k :: 0 < k < |rs| ==> rs[k].start == rs[k - 1].end + 1
  }

  function SumSizes(rs: seq<Range>): int {
    if rs == [] then 0 else SumSizes(rs[..|rs| - 1]) + Size(rs[|rs| - 1])
  }

  lemma ChunksContiguous(total: nat, nParts: nat)
    requires total >= 1 && nParts >= 1
    ensures Contiguous(Chunks(total, nParts), total)
  {
    var parts := Min(nParts, total);
    var rs := Chunks(total, nParts);
    ChunkStartAll(total, parts);
    ChunkStartStep(total, parts, parts - 1);
    forall k | 0 < k < |rs| ensures rs[k].start == rs[k - 1].end + 1 {
      ChunkStartStep(total, parts, k - 1);
    }
  }

  /** Ranges that follow each other without gaps add up to the span they cover. */
  lemma {:induction false} SumSizesSpan(rs: seq<Range>)
    requires |rs| >= 1
    requires forall k :: 0 < k < |rs| ==> rs[k].start == rs[k - 1].end + 1
    ensures SumSizes(rs) == rs[|rs| - 1].end - rs[0].start + 1
  {
    if |rs| > 1 {
      SumSizesSpan(rs[..|rs| - 1]);
    }
  }

  /** The part sizes add up to the page count. */
  lemma ChunksSumToTotal(total: nat, nParts: nat)
    requires total >= 1 && nParts >= 1
    ensures SumSizes(Chunks(total, nParts)) == total
  {
    ChunksContiguous(total, nParts);
    SumSizesSpan(Chunks(total, nParts));
  }

  /** With `P = min(nParts, total)` parts, the first `total % P` have
      `total / P + 1` pages and the rest `total / P`; no part is empty and
      any two sizes differ by at most one. */
  lemma ChunkSizes(total: nat, nParts: nat)
    requires total >= 1 && nParts >= 1
    ensures var rs := Chunks(total, nParts); var parts := Min(nParts, total);
      && (forall k :: 0 <= k < |rs| ==>
            Size(rs[k]) == if k < total % parts then total / parts + 1 else total / parts)
      && (forall k :: 0 <= k < |rs| ==> Size(rs[k]) >= 1)
      && (forall j, k :: 0 <= j < |rs| && 0 <= k < |rs| ==> Size(rs[j]) - Size(rs[k]) <= 1)
  {
  }

  /** Worked example: 10 pages in 3 parts are 4, 3 and 3 pages. */
  lemma ChunksExampleTenInThree()
    ensures Chunks(10, 3) == [Range(0, 3), Range(4, 6), Range(7, 9)]
  {
    assert 10 / 3 == 3 && 10 % 3 == 1;
    assert ChunkStart(10, 3, 0) == 0 && ChunkSize(10, 3, 0) == 4;
    assert ChunkStart(10, 3, 1) == 4 && ChunkSize(10, 3, 1) == 3;
    assert ChunkStart(10, 3, 2) == 7 && ChunkSize(10, 3, 2) == 3;
  }

  /** Worked example: 5 pages in 10 parts are five single pages. */
  lemma ChunksExampleFiveInTen()
    ensures Chunks(5, 10) == [Range(0, 0), Range(1, 1), Range(2, 2), Range(3, 3), Range(4, 4)]
  {
    assert 5 / 5 == 1 && 5 % 5 == 0;
    forall i | 0 <= i < 5 ensures ChunkStart(5, 5, i) == i && ChunkSize(5, 5, i) == 1 {
    }
  }

  // ---------------------------------------------------------------------
  // Output paths

  /** Python's `s.rfind(c)`: the last index of `c`, or -1. */
  function RFind(s: string, c: char): (i: int)
    ensures -1 <= i < |s|
    ensures i >= 0 ==> s[i] == c
    ensures forall k :: i < k < |s| ==> s[k] != c
  {
    if s == [] then -1
    else if s[|s| - 1] == c then |s| - 1
    else RFind(s[..|s| - 1], c)
  }

  /** `Path(p).name`: the text after the last `/`. */
  function FileName(path: string): string {
    path[RFind(path, '/') + 1..]
  }

  /** `Path(p).parent`: the text before the last `/`, `/` for a file at the
      root, and `.` for a bare file name. */
  function Parent(path: string): string {
    var i := RFind(path, '/');
    if i < 0 then "." else if i == 0 then "/" else path[..i]
  }

  /** `Path(p).stem`: the file name without its last suffix; a dot that
      starts or ends the name does not begin a suffix. */
  function Stem(path: string): string {
    var name := FileName(path);
    var i := RFind(name, '.');
    if 0 < i < |name| - 1 then name[..i] else name
  }

  /** Whether a path is absolute: it starts with `/`. */
  predicate Absolute(path: string) {
    |path| > 0 && path[0] == '/'
  }

  /** `str(Path(dir) / name)`: an absolute `name` replaces the directory. */
  function JoinPath(dir: string, name: string): string {
    if Absolute(name) then name
    else if dir == "." then name
    else if |dir| > 0 && dir[|dir| - 1] == '/' then dir + name
    else dir + "/" + name
  }

  /** `{base}_part_{i}of{n}.pdf` */
  function PartName(base: string, i: nat, n: nat): string {
    base + "_part_" + Decimal(i) + "of" + Decimal(n) + ".pdf"
  }

  /** The directory the parts go to: the given one when non-empty, else the
      input's own directory. */
  function OutputDirectory(inputPath: string, outputDir: Option<string>): string {
    if outputDir.Some? && outputDir.value != "" then outputDir.value else Parent(inputPath)
  }

  /** The base name of the parts: the given prefix when non-empty, else the
      input's stem. */
  function BaseName(inputPath: string, outputPrefix: Option<string>): string {
    if outputPrefix.Some? && outputPrefix.value != "" then outputPrefix.value else Stem(inputPath)
  }

  /** The paths of the `n` parts, part 1 first. */
  function PartPaths(dir: string, base: string, n: nat): (ps: seq<string>)
    ensures |ps| == n
  {
    seq(n, i requires 0 <= i < n => PartPath(dir, base, i, n))
  }

  /** The path of part `i + 1` of `n`. */
  function PartPath(dir: string, base: string, i: nat, n: nat): string {
    JoinPath(dir, PartName(base, i + 1, n))
  }

  lemma {:induction false} SamePrefix(p: string, a: string, b: string)
    requires p + a == p + b
    ensures a == b
  {
    assert a == (p + a)[|p|..];
    assert b == (p + b)[|p|..];
  }

  lemma {:induction false} SameSuffix(a: string, b: string, s: string)
    requires a + s == b + s
    ensures a == b
  {
    assert |a| == |b|;
    assert a == (a + s)[..|a|];
    assert b == (b + s)[..|b|];
  }

  /** Within one directory, two names that are both absolute or both
      relative give the same path only when they are the same name. (An
      absolute and a relative name can meet: `Path("/") / "a"` is
      `Path("/") / "/a"`.) */
  lemma JoinPathInjective(dir: string, a: string, b: string)
    requires Absolute(a) == Absolute(b)
    requires JoinPath(dir, a) == JoinPath(dir, b)
    ensures a == b
  {
    if Absolute(a) || dir == "." {
    } else if |dir| > 0 && dir[|dir| - 1] == '/' {
      SamePrefix(dir, a, b);
    } else {
      SamePrefix(dir + "/", a, b);
    }
  }

  lemma PartNameInjective(base: string, i: nat, j: nat, n: nat)
    requires PartName(base, i, n) == PartName(base, j, n)
    ensures i == j
  {
    var pre := base + "_part_";
    var post := "of" + Decimal(n) + ".pdf";
    assert PartName(base, i, n) == pre + (Decimal(i) + post);
    assert PartName(base, j, n) == pre + (Decimal(j) + post);
    SamePrefix(pre, Decimal(i) + post, Decimal(j) + post);
    SameSuffix(Decimal(i), Decimal(j), post);
    DecimalInjective(i, j);
  }

  /** Every part name of one base is absolute exactly when the base is. */
  lemma PartNameAbsolute(base: string, i: nat, n: nat)
    ensures Absolute(PartName(base, i, n)) == Absolute(base)
  {
    if base == [] {
      assert PartName(base, i, n)[0] == '_';
    } else {
      assert PartName(base, i, n)[0] == base[0];
    }
  }

  /** No two parts are written to the same path. */
  lemma PartPathsDistinct(dir: string, base: string, n: nat)
    ensures Distinct(PartPaths(dir, base, n))
  {
    var ps := PartPaths(dir, base, n);
    forall i, j | 0 <= i < j < n ensures ps[i] != ps[j] {
      if ps[i] == ps[j] {
        PartNameAbsolute(base, i + 1, n);
        PartNameAbsolute(base, j + 1, n);
        JoinPathInjective(dir, PartName(base, i + 1, n), PartName(base, j + 1, n));
        PartNameInjective(base, i + 1, j + 1, n);
      }
    }
  }

  predicate Distinct(ps: seq<string>) {
    forall i, j :: 0 <= i < j < |ps| ==> ps[i] != ps[j]
  }

  // ---------------------------------------------------------------------
  // split_pdf, in closed form

  /** The pages of each range, in order. */
  function PartDocs<P>(pages: seq<P>, rs: seq<Range>): (ds: seq<seq<P>>)
    requires forall k :: 0 <= k < |rs| ==> 0 <= rs[k].start <= rs[k].end < |pages|
    ensures |ds| == |rs|
  {
    seq(|rs|, i requires 0 <= i < |rs| => pages[rs[i].start..rs[i].end + 1])
  }

  /** The files after writing `ds[i]` to `ps[i]`, in order. */
  function WriteAll<P>(files: map<string, seq<P>>, ps: seq<string>, ds: seq<seq<P>>): map<string, seq<P>>
    requires |ps| == |ds|
  {
    if ps == [] then files
    else WriteAll(files, ps[..|ps| - 1], ds[..|ds| - 1])[ps[|ps| - 1] := ds[|ds| - 1]]
  }

  lemma {:induction false} WriteAllKeys<P>(files: map<string, seq<P>>, ps: seq<string>, ds: seq<seq<P>>, p: string)
    requires |ps| == |ds|
    ensures p in WriteAll(files, ps, ds) <==> p in files || p in ps
  {
    if ps != [] {
      var n := |ps| - 1;
      WriteAllKeys(files, ps[..n], ds[..n], p);
      assert ps == ps[..n] + [ps[n]];
    }
  }

  /** A path that is not written keeps its contents. */
  lemma {:induction false} WriteAllOther<P>(files: map<string, seq<P>>, ps: seq<string>, ds: seq<seq<P>>, p: string)
    requires |ps| == |ds| && p in files && p !in ps
    ensures p in WriteAll(files, ps, ds) && WriteAll(files, ps, ds)[p] == files[p]
  {
    if ps != [] {
      var n := |ps| - 1;
      assert ps == ps[..n] + [ps[n]];
      WriteAllOther(files, ps[..n], ds[..n], p);
    }
  }

  /** A written path holds the document written to it. */
  lemma {:induction false} WriteAllAt<P>(files: map<string, seq<P>>, ps: seq<string>, ds: seq<seq<P>>, j: nat)
    requires |ps| == |ds| && Distinct(ps) && j < |ps|
    ensures ps[j] in WriteAll(files, ps, ds) && WriteAll(files, ps, ds)[ps[j]] == ds[j]
  {
    var n := |ps| - 1;
    if j < n {
      assert ps[..n][j] == ps[j] && ds[..n][j] == ds[j];
      WriteAllAt(files, ps[..n], ds[..n], j);
    }
  }

  /** A collision at `k` leaves the parts before it written. */
  lemma CollisionKeepsEarlier<P>(files: map<string, seq<P>>, paths: seq<string>, docs: seq<seq<P>>, k: nat, i: nat)
    requires |paths| == |docs| && Distinct(paths) && i < k && FirstCollision(files, paths, k)
    ensures var files' := WriteParts(files, paths, docs, false).1;
            paths[i] in files' && files'[paths[i]] == docs[i]
  {
    CollisionStopsWriting(files, paths, docs, k);
    WritePrefixAt(files, paths, docs, k, i);
  }

  /** Part `i` of the first `k` written holds its document. */
  lemma WritePrefixAt<P>(files: map<string, seq<P>>, ps: seq<string>, ds: seq<seq<P>>, k: nat, i: nat)
    requires |ps| == |ds| && Distinct(ps) && i < k <= |ps|
    ensures ps[i] in WriteAll(files, ps[..k], ds[..k]) && WriteAll(files, ps[..k], ds[..k])[ps[i]] == ds[i]
  {
    assert ps[..k][i] == ps[i] && ds[..k][i] == ds[i];
    WriteAllAt(files, ps[..k], ds[..k], i);
  }

  /** One more write extends the prefix written so far. */
  lemma WriteAllStep<P>(files: map<string, seq<P>>, ps: seq<string>, ds: seq<seq<P>>, i: nat)
    requires |ps| == |ds| && Distinct(ps) && i < |ps|
    ensures WriteAll(files, ps[..i + 1], ds[..i + 1]) == WriteAll(files, ps[..i], ds[..i])[ps[i] := ds[i]]
    ensures ps[i] in WriteAll(files, ps[..i], ds[..i]) <==> ps[i] in files
  {
    assert ps[..i + 1][..i] == ps[..i] && ds[..i + 1][..i] == ds[..i];
    WriteAllKeys(files, ps[..i], ds[..i], ps[i]);
  }

  /** The index of the first path that already exists, or `|ps|`. */
  function FirstExisting(ps: seq<string>, existing: set<string>): (k: nat)
    ensures k <= |ps|
    ensures forall j :: 0 <= j < k ==> ps[j] !in existing
    ensures k < |ps| ==> ps[k] in existing
  {
    if ps == [] then 0
    else if ps[0] in existing then 0
    else 1 + FirstExisting(ps[1..], existing)
  }

  /** The first existing path is at `k` when none before `k` exists and `ps[k]` does. */
  lemma {:induction false} FirstExistingAt(ps: seq<string>, existing: set<string>, k: nat)
    requires k < |ps| && ps[k] in existing
    requires forall j :: 0 <= j < k ==> ps[j] !in existing
    ensures FirstExisting(ps, existing) == k
  {
    if k > 0 {
      FirstExistingAt(ps[1..], existing, k - 1);
    }
  }

  /** What `split_pdf` returns and the files afterwards. The checks come in the
      source's order: a missing input, an input without pages, a bad part
      count; then the parts are written. */
  function SplitOutcome<P>(files: map<string, seq<P>>, inputPath: string, nParts: int,
                           outputDir: Option<string>, outputPrefix: Option<string>, overwrite: bool)
    : (Result<seq<string>>, map<string, seq<P>>)
  {
    if inputPath !in files then (Err(FileNotFound(inputPath)), files)
    else if |files[inputPath]| == 0 then (Err(InvalidValue(EmptyInputMessage)), files)
    else if nParts <= 0 then (Err(InvalidValue(NPartsMessage)), files)
    else SplitPages(files, files[inputPath], nParts, OutputDirectory(inputPath, outputDir),
                    BaseName(inputPath, outputPrefix), overwrite)
  }

  /** The writing half of `split_pdf`, once the input's `pages` are read and
      the output directory `dir` and base name `base` are chosen. */
  function SplitPages<P>(files: map<string, seq<P>>, pages: seq<P>, nParts: int, dir: string, base: string,
                         overwrite: bool): (Result<seq<string>>, map<string, seq<P>>)
    requires |pages| > 0 && nParts > 0
  {
    var ranges := Chunks(|pages|, nParts);
    WriteParts(files, PartPaths(dir, base, |ranges|), PartDocs(pages, ranges), overwrite)
  }

  /** Writing the parts in order: every part is written unless, without
      `overwrite`, a part's path already exists; then the parts before it
      are written and the result is `FileExists` for that path. */
  function WriteParts<P>(files: map<string, seq<P>>, paths: seq<string>, docs: seq<seq<P>>, overwrite: bool)
    : (Result<seq<string>>, map<string, seq<P>>)
    requires |paths| == |docs|
  {
    var k := if overwrite then |paths| else FirstExisting(paths, files.Keys);
    if k < |paths| then (Err(FileExists(paths[k])), WriteAll(files, paths[..k], docs[..k]))
    else (Ok(paths), WriteAll(files, paths, docs))
  }

  /** No output of the split exists yet. */
  predicate NoneExist<P>(files: map<string, seq<P>>, paths: seq<string>) {
    forall j :: 0 <= j < |paths| ==> paths[j] !in files
  }

  /** Part `k` is the first output of the split that exists. */
  predicate FirstCollision<P>(files: map<string, seq<P>>, paths: seq<string>, k: nat) {
    k < |paths| && paths[k] in files && forall j :: 0 <= j < k ==> paths[j] !in files
  }

  // ---------------------------------------------------------------------
  // Properties of split_pdf

  /** The input checks: a missing input, an input without pages and a bad
      part count each fail before anything is written. */
  lemma SplitChecksInput<P>(files: map<string, seq<P>>, inputPath: string, nParts: int,
                            outputDir: Option<string>, outputPrefix: Option<string>, overwrite: bool)
    ensures var (r, files') := SplitOutcome(files, inputPath, nParts, outputDir, outputPrefix, overwrite);
      && (inputPath !in files ==> r == Err(FileNotFound(inputPath)))
      && (inputPath in files && |files[inputPath]| == 0 ==> r == Err(InvalidValue(EmptyInputMessage)))
      && (inputPath in files && |files[inputPath]| > 0 && nParts <= 0 ==> r == Err(InvalidValue(NPartsMessage)))
      && (r.Err? && !r.error.FileExists? ==> files' == files)
  {
    if inputPath in files && |files[inputPath]| > 0 && nParts > 0 {
      var pages := files[inputPath];
      var rs := Chunks(|pages|, nParts);
      var paths := PartPaths(OutputDirectory(inputPath, outputDir), BaseName(inputPath, outputPrefix), |rs|);
      WritePartsFails(files, paths, PartDocs(pages, rs), overwrite);
    }
  }

  /** Writing the parts fails only on an existing output. */
  lemma WritePartsFails<P>(files: map<string, seq<P>>, paths: seq<string>, docs: seq<seq<P>>, overwrite: bool)
    requires |paths| == |docs|
    ensures WriteParts(files, paths, docs, overwrite).0.Err? ==> WriteParts(files, paths, docs, overwrite).0.error.FileExists?
  {
  }

  /** The total of the page counts of the parts is the page count of the input. */
  function SumLengths<P>(ds: seq<seq<P>>): int {
    if ds == [] then 0 else SumLengths(ds[..|ds| - 1]) + |ds[|ds| - 1]|
  }

  lemma {:induction false} SumLengthsPartDocs<P>(pages: seq<P>, rs: seq<Range>)
    requires forall k :: 0 <= k < |rs| ==> 0 <= rs[k].start <= rs[k].end < |pages|
    ensures SumLengths(PartDocs(pages, rs)) == SumSizes(rs)
  {
    if rs != [] {
      var n := |rs| - 1;
      SumLengthsPartDocs(pages, rs[..n]);
      assert PartDocs(pages, rs)[..n] == PartDocs(pages, rs[..n]);
    }
  }

  lemma PartDocsCoverPages<P>(pages: seq<P>, nParts: nat)
    requires |pages| >= 1 && nParts >= 1
    ensures SumLengths(PartDocs(pages, Chunks(|pages|, nParts))) == |pages|
  {
    SumLengthsPartDocs(pages, Chunks(|pages|, nParts));
    ChunksSumToTotal(|pages|, nParts);
  }

  /** A split that meets no collision returns one path per range, in part
      order: part `i` (0-based) goes to `{base}_part_{i+1}of{N}.pdf` in the
      output directory, where `N` is the number of ranges. */
  lemma SplitNamesParts<P>(files: map<string, seq<P>>, pages: seq<P>, nParts: int, dir: string, base: string,
                           overwrite: bool, i: nat)
    requires |pages| > 0 && nParts > 0 && i < Min(nParts, |pages|)
    requires overwrite || NoneExist(files, PartPaths(dir, base, Min(nParts, |pages|)))
    ensures var r := SplitPages(files, pages, nParts, dir, base, overwrite).0;
      && r.Ok? && |r.value| == Min(nParts, |pages|)
      && r.value[i] == JoinPath(dir, PartName(base, i + 1, |r.value|))
  {
    var rs := Chunks(|pages|, nParts);
    NoCollisionWritesAll(files, PartPaths(dir, base, |rs|), PartDocs(pages, rs), overwrite);
  }

  /** A split that meets no collision leaves in part `i` exactly the pages
      of range `i`, in order. */
  lemma SplitWritesEveryPart<P>(files: map<string, seq<P>>, pages: seq<P>, nParts: int, dir: string, base: string,
                                overwrite: bool, i: nat)
    requires |pages| > 0 && nParts > 0 && i < Min(nParts, |pages|)
    requires overwrite || NoneExist(files, PartPaths(dir, base, Min(nParts, |pages|)))
    ensures var (r, files') := SplitPages(files, pages, nParts, dir, base, overwrite);
      var rs := Chunks(|pages|, nParts);
      && r.Ok? && i < |r.value| && r.value[i] in files'
      && files'[r.value[i]] == pages[rs[i].start..rs[i].end + 1]
  {
    var rs := Chunks(|pages|, nParts);
    var paths := PartPaths(dir, base, |rs|);
    var docs := PartDocs(pages, rs);
    PartPathsDistinct(dir, base, |rs|);
    NoCollisionWritesAt(files, paths, docs, overwrite, i);
    assert docs[i] == pages[rs[i].start..rs[i].end + 1];
  }

  /** Without a collision, every part is written to its path. */
  lemma NoCollisionWritesAt<P>(files: map<string, seq<P>>, paths: seq<string>, docs: seq<seq<P>>,
                               overwrite: bool, i: nat)
    requires |paths| == |docs| && Distinct(paths) && i < |paths|
    requires overwrite || NoneExist(files, paths)
    ensures var (r, files') := WriteParts(files, paths, docs, overwrite);
            r == Ok(paths) && paths[i] in files' && files'[paths[i]] == docs[i]
  {
    NoCollisionWritesAll(files, paths, docs, overwrite);
    WriteAllAt(files, paths, docs, i);
  }

  /** The page counts of the parts of a split that meets no collision add up
      to the page count of the input. */
  lemma SplitPageCountsSum<P>(files: map<string, seq<P>>, pages: seq<P>, nParts: int, dir: string, base: string,
                              overwrite: bool)
    requires |pages| > 0 && nParts > 0
    requires overwrite || NoneExist(files, PartPaths(dir, base, Min(nParts, |pages|)))
    ensures var (r, files') := SplitPages(files, pages, nParts, dir, base, overwrite);
      && r.Ok? && (forall i :: 0 <= i < |r.value| ==> r.value[i] in files')
      && SumLengths(seq(|r.value|, i requires 0 <= i < |r.value| => files'[r.value[i]])) == |pages|
  {
    var rs := Chunks(|pages|, nParts);
    var paths := PartPaths(dir, base, |rs|);
    var docs := PartDocs(pages, rs);
    PartPathsDistinct(dir, base, |rs|);
    NoCollisionReadsBack(files, paths, docs, overwrite);
    PartDocsCoverPages(pages, nParts);
  }

  /** Without a collision, reading the written paths back gives the parts. */
  lemma NoCollisionReadsBack<P>(files: map<string, seq<P>>, paths: seq<string>, docs: seq<seq<P>>, overwrite: bool)
    requires |paths| == |docs| && Distinct(paths)
    requires overwrite || NoneExist(files, paths)
    ensures var (r, files') := WriteParts(files, paths, docs, overwrite);
            && r == Ok(paths) && (forall i :: 0 <= i < |paths| ==> paths[i] in files')
            && seq(|paths|, i requires 0 <= i < |paths| => files'[paths[i]]) == docs
  {
    NoCollisionWritesAll(files, paths, docs, overwrite);
    WriteAllContents(files, paths, docs);
  }

  /** A split that meets no collision changes no file but its parts. */
  lemma SplitKeepsOtherFiles<P>(files: map<string, seq<P>>, pages: seq<P>, nParts: int, dir: string, base: string,
                                overwrite: bool)
    requires |pages| > 0 && nParts > 0
    requires overwrite || NoneExist(files, PartPaths(dir, base, Min(nParts, |pages|)))
    ensures var (r, files') := SplitPages(files, pages, nParts, dir, base, overwrite);
      && r.Ok?
      && (forall p :: p in files' <==> p in files || p in r.value)
      && (forall p :: p in files && p !in r.value ==> files'[p] == files[p])
  {
    var rs := Chunks(|pages|, nParts);
    var paths := PartPaths(dir, base, |rs|);
    var docs := PartDocs(pages, rs);
    NoCollisionWritesAll(files, paths, docs, overwrite);
    PartPathsDistinct(dir, base, |rs|);
    WriteAllContents(files, paths, docs);
  }

  lemma NoCollisionWritesAll<P>(files: map<string, seq<P>>, paths: seq<string>, docs: seq<seq<P>>, overwrite: bool)
    requires |paths| == |docs|
    requires overwrite || NoneExist(files, paths)
    ensures WriteParts(files, paths, docs, overwrite) == (Ok(paths), WriteAll(files, paths, docs))
  {
  }

  /** Writing parts to distinct paths: those paths hold their parts and every
      other file is as it was. */
  lemma WriteAllContents<P>(files: map<string, seq<P>>, paths: seq<string>, docs: seq<seq<P>>)
    requires |paths| == |docs| && Distinct(paths)
    ensures var files' := WriteAll(files, paths, docs);
      && (forall i :: 0 <= i < |paths| ==> paths[i] in files' && files'[paths[i]] == docs[i])
      && (forall p :: p in files' <==> p in files || p in paths)
      && (forall p :: p in files && p !in paths ==> files'[p] == files[p])
  {
    var files' := WriteAll(files, paths, docs);
    forall i | 0 <= i < |paths| ensures paths[i] in files' && files'[paths[i]] == docs[i] {
      WriteAllAt(files, paths, docs, i);
    }
    forall p ensures p in files' <==> p in files || p in paths {
      WriteAllKeys(files, paths, docs, p);
    }
    forall p | p in files && p !in paths ensures files'[p] == files[p] {
      WriteAllOther(files, paths, docs, p);
    }
  }

  /** Writing the first `k` parts to distinct paths: those paths hold their
      parts and every other file is as it was. */
  lemma WritePrefixContents<P>(files: map<string, seq<P>>, paths: seq<string>, docs: seq<seq<P>>, k: nat)
    requires |paths| == |docs| && Distinct(paths) && k <= |paths|
    ensures var files' := WriteAll(files, paths[..k], docs[..k]);
      && (forall i :: 0 <= i < k ==> paths[i] in files' && files'[paths[i]] == docs[i])
      && (forall p :: p in files' <==> p in files || p in paths[..k])
      && (forall p :: p in files && p !in paths[..k] ==> files'[p] == files[p])
  {
    var files' := WriteAll(files, paths[..k], docs[..k]);
    forall i | 0 <= i < k ensures paths[i] in files' && files'[paths[i]] == docs[i] {
      WriteAllAt(files, paths[..k], docs[..k], i);
    }
    forall p ensures p in files' <==> p in files || p in paths[..k] {
      WriteAllKeys(files, paths[..k], docs[..k], p);
    }
    forall p | p in files && p !in paths[..k] ensures files'[p] == files[p] {
      WriteAllOther(files, paths[..k], docs[..k], p);
    }
  }

  /** Without `overwrite`, writing stops at the first path that exists. */
  lemma CollisionStopsWriting<P>(files: map<string, seq<P>>, paths: seq<string>, docs: seq<seq<P>>, k: nat)
    requires |paths| == |docs| && FirstCollision(files, paths, k)
    ensures WriteParts(files, paths, docs, false) == (Err(FileExists(paths[k])), WriteAll(files, paths[..k], docs[..k]))
  {
    FirstExistingAt(paths, files.Keys, k);
  }

  /** A readable input with a valid part count is split by writing its parts. */
  lemma SplitOutcomeWrites<P>(files: map<string, seq<P>>, inputPath: string, nParts: int,
                              outputDir: Option<string>, outputPrefix: Option<string>, overwrite: bool)
    requires inputPath in files && |files[inputPath]| > 0 && nParts > 0
    ensures SplitOutcome(files, inputPath, nParts, outputDir, outputPrefix, overwrite)
            == SplitPages(files, files[inputPath], nParts, OutputDirectory(inputPath, outputDir),
                          BaseName(inputPath, outputPrefix), overwrite)
  {
  }

  /** Without `overwrite`, the first part whose path exists stops the split
      with `FileExists` naming that path. */
  lemma SplitStopsAtCollision<P>(files: map<string, seq<P>>, pages: seq<P>, nParts: int, dir: string, base: string,
                                 k: nat)
    requires |pages| > 0 && nParts > 0
    requires FirstCollision(files, PartPaths(dir, base, Min(nParts, |pages|)), k)
    ensures SplitPages(files, pages, nParts, dir, base, false).0
            == Err(FileExists(PartPath(dir, base, k, Min(nParts, |pages|))))
  {
    var rs := Chunks(|pages|, nParts);
    CollisionStopsWriting(files, PartPaths(dir, base, |rs|), PartDocs(pages, rs), k);
  }

  /** Each part `i` before the collision was written with the pages of range `i`. */
  lemma SplitCollisionKeepsEarlier<P>(files: map<string, seq<P>>, pages: seq<P>, nParts: int, dir: string,
                                      base: string, k: nat, i: nat)
    requires |pages| > 0 && nParts > 0 && i < k
    requires FirstCollision(files, PartPaths(dir, base, Min(nParts, |pages|)), k)
    ensures var files' := SplitPages(files, pages, nParts, dir, base, false).1;
      var rs := Chunks(|pages|, nParts);
      var path := PartPath(dir, base, i, |rs|);
      path in files' && files'[path] == pages[rs[i].start..rs[i].end + 1]
  {
    var rs := Chunks(|pages|, nParts);
    var paths := PartPaths(dir, base, |rs|);
    var docs := PartDocs(pages, rs);
    PartPathsDistinct(dir, base, |rs|);
    CollisionKeepsEarlier(files, paths, docs, k, i);
    assert paths[i] == PartPath(dir, base, i, |rs|);
    assert docs[i] == pages[rs[i].start..rs[i].end + 1];
  }

  /** A split stopped at part `k` changes no file but the parts before `k`;
      in particular the colliding file keeps what it held. */
  lemma SplitCollisionKeepsRest<P>(files: map<string, seq<P>>, pages: seq<P>, nParts: int, dir: string,
                                   base: string, k: nat)
    requires |pages| > 0 && nParts > 0
    requires FirstCollision(files, PartPaths(dir, base, Min(nParts, |pages|)), k)
    ensures var files' := SplitPages(files, pages, nParts, dir, base, false).1;
      var paths := PartPaths(dir, base, Min(nParts, |pages|));
      && (forall p :: p in files' <==> p in files || p in paths[..k])
      && (forall p :: p in files && p !in paths[..k] ==> files'[p] == files[p])
      && files'[paths[k]] == files[paths[k]]
  {
    var rs := Chunks(|pages|, nParts);
    var paths := PartPaths(dir, base, |rs|);
    var docs := PartDocs(pages, rs);
    CollisionStopsWriting(files, paths, docs, k);
    PartPathsDistinct(dir, base, |rs|);
    WritePrefixContents(files, paths, docs, k);
    assert paths[k] !in paths[..k];
  }

  /** With `overwrite`, a split of a readable input with a valid part count
      always succeeds. */
  lemma SplitWithOverwriteSucceeds<P>(files: map<string, seq<P>>, inputPath: string, nParts: int,
                                      outputDir: Option<string>, outputPrefix: Option<string>)
    requires inputPath in files && |files[inputPath]| > 0 && nParts > 0
    ensures SplitOutcome(files, inputPath, nParts, outputDir, outputPrefix, true).0.Ok?
  {
  }

  /** Running the same split again without `overwrite`, on the files the
      first run left (the input unchanged), fails on the first part's path. */
  lemma SplitRerunCollides<P>(files: map<string, seq<P>>, inputPath: string, nParts: int,
                              outputDir: Option<string>, outputPrefix: Option<string>, overwrite: bool)
    requires SplitOutcome(files, inputPath, nParts, outputDir, outputPrefix, overwrite).0.Ok?
    requires var files' := SplitOutcome(files, inputPath, nParts, outputDir, outputPrefix, overwrite).1;
      inputPath in files' && files'[inputPath] == files[inputPath]
    ensures var (r, files') := SplitOutcome(files, inputPath, nParts, outputDir, outputPrefix, overwrite);
      SplitOutcome(files', inputPath, nParts, outputDir, outputPrefix, false).0 == Err(FileExists(r.value[0]))
  {
    var pages := files[inputPath];
    var rs := Chunks(|pages|, nParts);
    var paths := PartPaths(OutputDirectory(inputPath, outputDir), BaseName(inputPath, outputPrefix), |rs|);
    RewriteCollides(files, paths, PartDocs(pages, rs), overwrite);
  }

  /** Writing the same parts again without `overwrite` fails on the first. */
  lemma RewriteCollides<P>(files: map<string, seq<P>>, paths: seq<string>, docs: seq<seq<P>>, overwrite: bool)
    requires |paths| == |docs| && WriteParts(files, paths, docs, overwrite).0.Ok?
    ensures var (r, files') := WriteParts(files, paths, docs, overwrite);
      |r.value| > 0 ==> WriteParts(files', paths, docs, false).0 == Err(FileExists(paths[0]))
  {
    var k := if overwrite then |paths| else FirstExisting(paths, files.Keys);
    assert paths[..k] == paths && docs[..k] == docs;
    if |paths| > 0 {
      var files' := WriteAll(files, paths, docs);
      WriteAllKeys(files, paths, docs, paths[0]);
      FirstExistingAt(paths, files'.Keys, 0);
    }
  }

  // ---------------------------------------------------------------------
  // split_pdf

  /** The filesystem the partitioner reads from and writes to. */
  class Disk<P> {
    var files: map<string, seq<P>>

    constructor (initial: map<string, seq<P>>)
      ensures files == initial
    {
      files := initial;
    }

    /** `open(path, 'wb')` and `writer.write`: replaces or creates `path`. */
    method Write(path: string, doc: seq<P>)
      modifies this
      ensures files == old(files)[path := doc]
    {
      files := files[path := doc];
    }
  }

  /** A fresh `PdfWriter` given `reader.pages[p]` for `p` from `start` to
      `end`, in order: the pages of that inclusive range. */
  method CollectPages<P>(pages: seq<P>, start: int, end: int) returns (part: seq<P>)
    requires 0 <= start <= end < |pages|
    ensures part == pages[start..end + 1]
  {
    part := [];
    for p := start to end + 1
      invariant part == pages[start..p]
    {
      part := part + [pages[p]];
    }
  }

  /** `split_pdf`: reads the input's pages, computes the ranges and writes the
      parts one by one, stopping with `FileExists` at the first part whose
      path exists when `overwrite` is off (earlier parts stay written). */
  method SplitPdf<P>(disk: Disk<P>, inputPath: string, nParts: int, outputDir: Option<string>,
                     outputPrefix: Option<string>, overwrite: bool)
    returns (r: Result<seq<string>>)
    modifies disk
    ensures (r, disk.files) == SplitOutcome(old(disk.files), inputPath, nParts, outputDir, outputPrefix, overwrite)
  {
    if inputPath !in disk.files {
      return Err(FileNotFound(inputPath));
    }
    var pages := disk.files[inputPath];
    var total := |pages|;
    if total == 0 {
      return Err(InvalidValue(EmptyInputMessage));
    }
    var chunks := ComputeChunks(total, nParts);
    if chunks.Err? {
      return Err(chunks.error);
    }
    var outDir := OutputDirectory(inputPath, outputDir);
    var baseName := BaseName(inputPath, outputPrefix);
    r := WriteRanges(disk, pages, chunks.value, outDir, baseName, overwrite);
  }

  /** One step of writing the parts in order: either part `idx` is written
      and the writing goes on, or it collides and the outcome is final. */
  lemma WriteStep<P>(files0: map<string, seq<P>>, dir: string, base: string, pages: seq<P>,
                     ranges: seq<Range>, overwrite: bool, idx: nat, cur: map<string, seq<P>>,
                     written: seq<string>)
    requires forall k :: 0 <= k < |ranges| ==> 0 <= ranges[k].start <= ranges[k].end < |pages|
    requires idx < |ranges|
    requires written == PartPaths(dir, base, |ranges|)[..idx]
    requires cur == WriteAll(files0, PartPaths(dir, base, |ranges|)[..idx], PartDocs(pages, ranges)[..idx])
    requires !overwrite ==> idx <= FirstExisting(PartPaths(dir, base, |ranges|), files0.Keys)
    ensures var paths, docs := PartPaths(dir, base, |ranges|), PartDocs(pages, ranges);
            var outPath, part := PartPath(dir, base, idx, |ranges|), pages[ranges[idx].start..ranges[idx].end + 1];
            if overwrite || outPath !in cur then
              && written + [outPath] == paths[..idx + 1]
              && cur[outPath := part] == WriteAll(files0, paths[..idx + 1], docs[..idx + 1])
              && (!overwrite ==> idx + 1 <= FirstExisting(paths, files0.Keys))
            else
              WriteParts(files0, paths, docs, overwrite) == (Err(FileExists(outPath)), cur)
  {
    var paths, docs := PartPaths(dir, base, |ranges|), PartDocs(pages, ranges);
    assert paths[idx] == PartPath(dir, base, idx, |ranges|);
    assert docs[idx] == pages[ranges[idx].start..ranges[idx].end + 1];
    PartPathsDistinct(dir, base, |ranges|);
    WriteNext(files0, paths, docs, overwrite, idx, cur, written);
  }

  /** `WriteStep` on the paths and documents themselves. */
  lemma WriteNext<P>(files0: map<string, seq<P>>, paths: seq<string>, docs: seq<seq<P>>, overwrite: bool,
                     idx: nat, cur: map<string, seq<P>>, written: seq<string>)
    requires |paths| == |docs| && Distinct(paths) && idx < |paths|
    requires written == paths[..idx]
    requires cur == WriteAll(files0, paths[..idx], docs[..idx])
    requires !overwrite ==> idx <= FirstExisting(paths, files0.Keys)
    ensures if overwrite || paths[idx] !in cur then
              && written + [paths[idx]] == paths[..idx + 1]
              && cur[paths[idx] := docs[idx]] == WriteAll(files0, paths[..idx + 1], docs[..idx + 1])
              && (!overwrite ==> idx + 1 <= FirstExisting(paths, files0.Keys))
            else
              WriteParts(files0, paths, docs, overwrite) == (Err(FileExists(paths[idx])), cur)
  {
    WriteAllStep(files0, paths, docs, idx);
    if !(overwrite || paths[idx] !in cur) {
      CollisionStopsWriting(files0, paths, docs, idx);
    } else {
      assert paths[..idx + 1] == written + [paths[idx]];
    }
  }

  /** Once every part is written, writing succeeded and the outcome is final. */
  lemma WriteDone<P>(files0: map<string, seq<P>>, dir: string, base: string, pages: seq<P>,
                     ranges: seq<Range>, overwrite: bool, cur: map<string, seq<P>>, written: seq<string>)
    requires forall k :: 0 <= k < |ranges| ==> 0 <= ranges[k].start <= ranges[k].end < |pages|
    requires written == PartPaths(dir, base, |ranges|)[..|ranges|]
    requires cur == WriteAll(files0, PartPaths(dir, base, |ranges|)[..|ranges|], PartDocs(pages, ranges)[..|ranges|])
    requires !overwrite ==> |ranges| <= FirstExisting(PartPaths(dir, base, |ranges|), files0.Keys)
    ensures WriteParts(files0, PartPaths(dir, base, |ranges|), PartDocs(pages, ranges), overwrite) == (Ok(written), cur)
  {
    var paths, docs := PartPaths(dir, base, |ranges|), PartDocs(pages, ranges);
    assert paths[..|ranges|] == paths && docs[..|ranges|] == docs;
    NoCollisionWritesAll(files0, paths, docs, overwrite);
  }

  /** One part: its pages are collected and written to `outPath`, unless that
      file exists and may not be replaced, in which case nothing is written. */
  method WritePart<P>(disk: Disk<P>, pages: seq<P>, range: Range, outPath: string, overwrite: bool)
    returns (ok: bool)
    requires 0 <= range.start <= range.end < |pages|
    modifies disk
    ensures ok <==> overwrite || outPath !in old(disk.files)
    ensures disk.files == if ok then old(disk.files)[outPath := pages[range.start..range.end + 1]]
                          else old(disk.files)
  {
    var part := CollectPages(pages, range.start, range.end);
    if outPath in disk.files && !overwrite {
      return false;
    }
    disk.Write(outPath, part);
    return true;
  }

  /** The loop of `split_pdf` over the ranges: part `idx` gets the pages of
      range `idx` and is written to its path unless that path exists and
      `overwrite` is off. */
  method WriteRanges<P>(disk: Disk<P>, pages: seq<P>, ranges: seq<Range>, outDir: string,
                        baseName: string, overwrite: bool)
    returns (r: Result<seq<string>>)
    requires forall k :: 0 <= k < |ranges| ==> 0 <= ranges[k].start <= ranges[k].end < |pages|
    modifies disk
    ensures (r, disk.files) == WriteParts(old(disk.files), PartPaths(outDir, baseName, |ranges|),
                                          PartDocs(pages, ranges), overwrite)
  {
    ghost var files0 := disk.files;
    var written: seq<string> := [];
    for idx := 0 to |ranges|
      invariant written == PartPaths(outDir, baseName, |ranges|)[..idx]
      invariant disk.files == WriteAll(files0, PartPaths(outDir, baseName, |ranges|)[..idx], PartDocs(pages, ranges)[..idx])
      invariant !overwrite ==> idx <= FirstExisting(PartPaths(outDir, baseName, |ranges|), files0.Keys)
    {
      var outPath := PartPath(outDir, baseName, idx, |ranges|);
      WriteStep(files0, outDir, baseName, pages, ranges, overwrite, idx, disk.files, written);
      var ok := WritePart(disk, pages, ranges[idx], outPath, overwrite);
      if !ok {
        return Err(FileExists(outPath));
      }
      written := written + [outPath];
    }
    WriteDone(files0, outDir, baseName, pages, ranges, overwrite, disk.files, written);
    return Ok(written);
  }
}
