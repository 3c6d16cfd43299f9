/** The part of `std::filesystem::path` the repacker relies on: the extension test that
    sets a record's `isABin` flag. Paths use `/` as their only separator. */
module Paths {

  type Path = string

  /** The fixed names: the blob, the index, and the directory the repacker reads. */
  const Cddata000Filename: Path := "CDDATA.000"
  const CddataLocFilename: Path := "CDDATA.LOC"
  const DataDirectory: Path := "data"

  const BinExtension: Path := ".bin"

  /** The last component of `p`: everything after its last `/` (empty if `p` ends in one). */
  function Filename(p: Path): Path
  {
    if p == [] || p[|p| - 1] == '/' then [] else Filename(p[..|p| - 1]) + [p[|p| - 1]]
  }

  /** The file name is the longest suffix without a `/`. */
  lemma {:induction false} FilenameIsLastComponent(p: Path)
    ensures '/' !in Filename(p)
    ensures |Filename(p)| <= |p| && Filename(p) == p[|p| - |Filename(p)|..]
    ensures |Filename(p)| < |p| ==> p[|p| - |Filename(p)| - 1] == '/'
  {
    if p != [] && p[|p| - 1] != '/' {
      var front := p[..|p| - 1];
      var c := p[|p| - 1];
      FilenameIsLastComponent(front);
      var g := Filename(front);
      assert Filename(p) == g + [c];
      assert p[|p| - |g| - 1..] == front[|front| - |g|..] + [c];
      if |g| + 1 < |p| {
        assert p[|p| - |g| - 2] == front[|front| - |g| - 1];
      }
    }
  }

  /** Index of the rightmost `.` in `f`, or -1 when there is none. */
  function LastDot(f: Path): (k: int)
    ensures -1 <= k < |f|
  {
    if f == [] then -1
    else if f[|f| - 1] == '.' then |f| - 1
    else LastDot(f[..|f| - 1])
  }

  /** `LastDot` finds a `.`, and no `.` follows it. */
  lemma {:induction false} LastDotIsRightmost(f: Path)
    ensures LastDot(f) >= 0 ==> f[LastDot(f)] == '.'
    ensures forall j :: LastDot(f) < j < |f| ==> f[j] != '.'
    ensures LastDot(f) == -1 <==> '.' !in f
  {
    if f != [] && f[|f| - 1] != '.' {
      var front := f[..|f| - 1];
      LastDotIsRightmost(front);
      assert f == front + [f[|f| - 1]];
    }
  }

  /** `path::extension()`: from the rightmost `.` of the file name to its end, except
      that a leading `.` does not start an extension and `..` has none. */
  function Extension(p: Path): (e: Path)
    ensures |e| <= |p| && e == p[|p| - |e|..]
    ensures e != "" ==> e[0] == '.' && '/' !in e && |e| < |p|
  {
    FilenameIsLastComponent(p);
    var f := Filename(p);
    var e := NameExtension(f);
    assert p[|p| - |e|..] == p[|p| - |f|..][|f| - |e|..];
    e
  }

  /** The extension of a file name: a suffix that starts with a `.` which is not the
      name's first character; empty when there is none. */
  function NameExtension(f: Path): (e: Path)
    ensures |e| <= |f| && e == f[|f| - |e|..]
    ensures e != "" ==> e[0] == '.' && |e| < |f|
  {
    var k := LastDot(f);
    LastDotIsRightmost(f);
    if f == ".." || k <= 0 then "" else f[k..]
  }

  /** The `isABin` test: `path.extension() == ".bin"`. A path that passes it ends in
      ".bin" (the converse fails for a file named ".bin", see `IsABinIff`). */
  predicate IsABin(p: Path): (b: bool)
    ensures b ==> |p| > 4 && p[|p| - 4..] == BinExtension
  {
    Extension(p) == BinExtension
  }

  /** A path is a `.bin` file exactly when its file name is longer than ".bin" and ends
      with it (a file named ".bin" alone is a hidden file without an extension). */
  lemma IsABinIff(p: Path)
    ensures IsABin(p) <==>
      (var f := Filename(p); |f| > 4 && f[|f| - 4..] == BinExtension)
  {
    NameExtensionBin(Filename(p));
  }

  lemma {:induction false} NameExtensionBin(f: Path)
    ensures NameExtension(f) == BinExtension <==> |f| > 4 && f[|f| - 4..] == BinExtension
  {
    var k := LastDot(f);
    LastDotIsRightmost(f);
    if |f| > 4 && f[|f| - 4..] == BinExtension {
      assert f[|f| - 4] == BinExtension[0] == '.';
      assert f[|f| - 3] == BinExtension[1] == 'b';
      assert f[|f| - 2] == BinExtension[2] == 'i';
      assert f[|f| - 1] == BinExtension[3] == 'n';
      assert k == |f| - 4;
      assert |f| != 2;
    }
    if NameExtension(f) == BinExtension {
      assert |f| > 2 || f != "..";
      assert k > 0 && f[k..] == BinExtension;
      assert |f| - k == 4;
    }
  }

  /** Prefixing a directory does not change the file name, so the flag computed on
      `src/<table path>` is the one computed on the table path itself. */
  lemma {:induction false} FilenameIgnoresDirectory(dir: Path, rel: Path)
    ensures Filename(dir + "/" + rel) == Filename(rel)
  {
    var p := dir + "/" + rel;
    if rel == [] {
      assert p[|p| - 1] == '/';
    } else {
      assert p[..|p| - 1] == dir + "/" + rel[..|rel| - 1];
      FilenameIgnoresDirectory(dir, rel[..|rel| - 1]);
    }
  }
}
