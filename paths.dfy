/**
 * The path helpers (src/slimm.h:546-574): split a path at its last
 * separator, and derive the name of the report file from the name of the
 * alignment file. Strings are sequences of characters; a std::out_of_range
 * thrown by the string library is an `Err`.
 */
module Paths {
  import opened Wrappers

  /** find_last_of: the last position holding one of `chars`. */
  function FindLastOf(s: string, chars: set<char>): (r: Option<nat>)
    ensures r.Some? ==> r.value < |s| && s[r.value] in chars
    ensures r.Some? ==> forall j :: r.value < j < |s| ==> s[j] !in chars
    ensures r.None? <==> forall j :: 0 <= j < |s| ==> s[j] !in chars
  {
    if s == [] then None
    else if s[|s| - 1] in chars then Some(|s| - 1)
    else FindLastOf(s[..|s| - 1], chars)
  }

  /** `pat` occurs in `s` starting at position `j`. */
  predicate OccursAt(s: string, pat: string, j: nat)
  {
    j + |pat| <= |s| && s[j..j + |pat|] == pat
  }

  /** find: the first position at which `pat` occurs. */
  function Find(s: string, pat: string): (r: Option<nat>)
    ensures r.Some? ==> OccursAt(s, pat, r.value)
    ensures r.Some? ==> forall j: nat :: j < r.value ==> !OccursAt(s, pat, j)
    ensures r.None? ==> forall j: nat :: !OccursAt(s, pat, j)
  {
    FindFrom(s, pat, 0)
  }

  function FindFrom(s: string, pat: string, i: nat): (r: Option<nat>)
    ensures r.Some? ==> i <= r.value && OccursAt(s, pat, r.value)
    ensures r.Some? ==> forall j: nat :: i <= j < r.value ==> !OccursAt(s, pat, j)
    ensures r.None? ==> forall j: nat :: i <= j ==> !OccursAt(s, pat, j)
    decreases |s| - i
  {
    if i + |pat| > |s| then None
    else if OccursAt(s, pat, i) then Some(i)
    else FindFrom(s, pat, i + 1)
  }

  const Separators: set<char> := {'/', '\\'}

  /** getFilename: what follows the last separator; with none, npos + 1 wraps to 0 and the whole path is kept. */
  function GetFilename(path: string): string
  {
    match FindLastOf(path, Separators)
    case None => path
    case Some(i) => path[i + 1..]
  }

  /** getDirectory: what precedes the last separator; with none, substr(0, npos) keeps the whole path. */
  function GetDirectory(path: string): string
  {
    match FindLastOf(path, Separators)
    case None => path
    case Some(i) => path[..i]
  }

  /**
   * A path with a separator is its directory, the last separator and its
   * file name, and the file name holds no separator; a path without one is
   * returned whole by both.
   */
  lemma SplitPath(path: string)
    ensures FindLastOf(path, Separators).Some? ==>
              && GetDirectory(path) + [path[FindLastOf(path, Separators).value]] + GetFilename(path) == path
              && forall c :: c in GetFilename(path) ==> c !in Separators
    ensures FindLastOf(path, Separators).None? ==> GetDirectory(path) == path && GetFilename(path) == path
  {
    match FindLastOf(path, Separators)
    case None =>
    case Some(i) => SplitAt(path, i);
  }

  /** Cutting at the last separator: the parts rejoin to the path and the tail holds no separator. */
  lemma SplitAt(path: string, i: nat)
    requires i < |path| && forall j :: i < j < |path| ==> path[j] !in Separators
    ensures path[..i] + [path[i]] + path[i + 1..] == path
    ensures forall c :: c in path[i + 1..] ==> c !in Separators
  {
    assert path == path[..i] + [path[i]] + path[i + 1..];
    forall c | c in path[i + 1..]
      ensures c !in Separators
    {
      var j :| 0 <= j < |path[i + 1..]| && path[i + 1..][j] == c;
      assert path[i + 1 + j] == c;
    }
  }

  /**
   * getTSVFileName(fName): when the first ".sam" or the first ".bam" starts
   * at the last dot, the four characters from that dot are erased; ".tsv" is
   * then appended. Without any dot both searches give npos, which compares
   * equal, and replace at npos throws.
   */
  function GetTsvFileName(fName: string): Result<string>
  {
    var lastDot := FindLastOf(fName, {'.'});
    if Find(fName, ".sam") == lastDot || Find(fName, ".bam") == lastDot then
      match lastDot
      case None => Err("basic_string::replace: position out of range")
      case Some(d) =>
        var stop := if d + 4 <= |fName| then d + 4 else |fName|;
        Ok(fName[..d] + fName[stop..] + ".tsv")
    else Ok(fName + ".tsv")
  }

  /** The rank suffix: "_sp_reported" for species, "_<rank>_reported" for any other rank. */
  function RankSuffix(rank: string): string
  {
    if rank == "species" then "_sp_reported" else "_" + rank + "_reported"
  }

  /**
   * getTSVFileName(fName, rank): the suffix is inserted at fName.size() - 4
   * of the name built above; for a name shorter than four characters that
   * position wraps around and insert throws.
   */
  function GetTsvFileNameForRank(fName: string, rank: string): Result<string>
  {
    match GetTsvFileName(fName)
    case Err(e) => Err(e)
    case Ok(base) =>
      if |fName| < 4 || |fName| - 4 > |base| then Err("basic_string::insert: position out of range")
      else Ok(base[..|fName| - 4] + RankSuffix(rank) + base[|fName| - 4..])
  }

  lemma {:induction false} FindAt(s: string, pat: string, i: nat)
    requires OccursAt(s, pat, i)
    requires forall j: nat :: j < i ==> !OccursAt(s, pat, j)
    ensures Find(s, pat) == Some(i)
  {
  }

  /** A dot-free stem followed by a four-character extension: the dot is the only one and the extension starts there. */
  lemma StemDot(stem: string, ext: string)
    requires '.' !in stem && |ext| == 4 && ext[0] == '.' && '.' !in ext[1..]
    ensures FindLastOf(stem + ext, {'.'}) == Some(|stem|)
    ensures Find(stem + ext, ext) == Some(|stem|)
  {
    var f := stem + ext;
    assert f[|stem|] == '.';
    forall j | |stem| < j < |f|
      ensures f[j] !in {'.'}
    {
      assert f[j] == ext[1..][j - |stem| - 1];
    }
    forall j: nat | j < |stem|
      ensures !OccursAt(f, ext, j)
    {
      assert f[j] == stem[j];
      if j + 4 <= |f| {
        assert f[j..j + 4][0] == f[j];
      }
    }
    assert f[|stem|..|stem| + 4] == ext;
    FindAt(f, ext, |stem|);
  }

  /** "<stem>.sam" and "<stem>.bam" with a dot-free stem give "<stem>.tsv". */
  lemma TsvOfAlignmentFile(stem: string, ext: string)
    requires '.' !in stem && (ext == ".sam" || ext == ".bam")
    ensures GetTsvFileName(stem + ext) == Ok(stem + ".tsv")
  {
    var f := stem + ext;
    StemDot(stem, ext);
    if ext == ".bam" {
      forall j: nat
        ensures !OccursAt(f, ".sam", j)
      {
        if j + 4 <= |f| {
          if j < |stem| {
            assert f[j..j + 4][0] == f[j] == stem[j];
          } else {
            assert f[j..j + 4][1] == f[|stem| + 1] == 'b';
          }
        }
      }
    }
    assert f[..|stem|] == stem && f[|stem| + 4..] == [];
    assert Find(f, ext) == FindLastOf(f, {'.'}) == Some(|stem|);
    assert f[..|stem|] + f[|stem| + 4..] + ".tsv" == stem + ".tsv";
  }

  /** A name without any dot makes the library throw. */
  lemma TsvWithoutDot(fName: string)
    requires '.' !in fName
    ensures GetTsvFileName(fName).Err?
  {
    forall j: nat
      ensures !OccursAt(fName, ".sam", j) && !OccursAt(fName, ".bam", j)
    {
      if j + 4 <= |fName| {
        assert fName[j] != '.';
        assert fName[j..j + 4][0] == fName[j];
      }
    }
  }

  /** A name whose last dot starts neither the first ".sam" nor the first ".bam" gets ".tsv" appended, whole. */
  lemma TsvOtherwise(fName: string)
    requires '.' in fName
    requires Find(fName, ".sam") != FindLastOf(fName, {'.'}) && Find(fName, ".bam") != FindLastOf(fName, {'.'})
    ensures GetTsvFileName(fName) == Ok(fName + ".tsv")
  {
  }

  /** The ranked report name of "<stem>.sam" or "<stem>.bam" is "<stem><suffix>.tsv". */
  lemma RankedTsvOfAlignmentFile(stem: string, ext: string, rank: string)
    requires '.' !in stem && (ext == ".sam" || ext == ".bam")
    ensures GetTsvFileNameForRank(stem + ext, rank) == Ok(stem + RankSuffix(rank) + ".tsv")
  {
    TsvOfAlignmentFile(stem, ext);
    var base := stem + ".tsv";
    assert base[..|stem|] == stem && base[|stem|..] == ".tsv";
  }

  /** A name of fewer than four characters makes the insert throw. */
  lemma RankedTsvShortName(fName: string, rank: string)
    requires |fName| < 4
    ensures GetTsvFileNameForRank(fName, rank).Err?
  {
  }

  /** The first ".sam" need not end the name: "x.samples" loses the four characters after "x". */
  lemma TsvCutsInsideExtension()
    ensures GetTsvFileName("x.samples") == Ok("xples.tsv")
  {
    var f := "x.samples";
    assert f[1..5] == ".sam";
    assert f[0..4] == "x.sa";
    assert forall j: nat :: j < 1 ==> !OccursAt(f, ".sam", j);
    FindAt(f, ".sam", 1);
    assert f[1] == '.';
    assert forall j :: 1 < j < |f| ==> f[j] != '.';
    assert FindLastOf(f, {'.'}) == Some(1);
    assert f[..1] + f[5..] + ".tsv" == "xples.tsv";
  }
}
