/** The POSIX path helpers the scripts use: `os.path.basename`, `os.path.join`, `os.path.splitext`. */
module Paths {
  import opened Wrappers
  import opened Text

  /** `os.path.basename(p)`: everything after the last '/'. */
  function Basename(p: string): string {
    AfterLast(p, '/')
  }

  /** `os.path.join(a, b)`: an absolute `b` replaces `a`; otherwise one '/' separates them. */
  function Join(a: string, b: string): (r: string)
    ensures EndsWith(r, b)
    ensures !StartsWith(b, "/") ==> StartsWith(r, a)
  {
    if StartsWith(b, "/") then b
    else if a == "" || EndsWith(a, "/") then a + b
    else a + "/" + b
  }

  /** The base name of a joined path is the file name that was joined. */
  lemma BasenameOfJoin(dir: string, name: string)
    requires '/' !in name
    ensures Basename(Join(dir, name)) == name
  {
    var p := Join(dir, name);
    assert !StartsWith(name, "/") by {
      if |name| > 0 { assert name[0] != '/'; }
    }
    assert |name| <= |p| && name == p[|p| - |name|..];
    if |name| < |p| {
      if dir == "" || EndsWith(dir, "/") {
        assert p[|p| - |name| - 1] == dir[|dir| - 1];
      } else {
        assert p == (dir + "/") + name;
        assert p[|p| - |name| - 1] == '/';
      }
    }
    MaximalSuffixUnique(p, '/', AfterLast(p, '/'), name);
  }

  /** Position of the last `c` in `s`. */
  function LastIndex(s: string, c: char): (r: Option<nat>)
    ensures r.Some? ==> r.value < |s| && s[r.value] == c && c !in s[r.value + 1..]
    ensures r.None? ==> c !in s
    decreases |s|
  {
    if s == [] then None
    else if s[|s| - 1] == c then Some(|s| - 1)
    else
      var r := LastIndex(s[..|s| - 1], c);
      assert s == s[..|s| - 1] + [s[|s| - 1]];
      r
  }

  predicate IsDot(c: char) {
    c == '.'
  }

  /**
   * `os.path.splitext(name)[0]` for a name without '/': the text before the last '.',
   * except that a name whose last dot is preceded only by dots (".bashrc") keeps it.
   */
  function Stem(name: string): (r: string)
    ensures StartsWith(name, r)
    ensures r != name ==> name[|r|] == '.' && '.' !in name[|r| + 1..] && LeadingRun(r, IsDot) < |r|
    ensures r == name ==> LastIndex(name, '.').None? || LeadingRun(name, IsDot) >= LastIndex(name, '.').value
  {
    match LastIndex(name, '.')
    case None => name
    case Some(d) =>
      if LeadingRun(name, IsDot) < d then
        assert LeadingRun(name[..d], IsDot) == LeadingRun(name, IsDot) by {
          LeadingRunOfPrefix(name, d, IsDot);
        }
        name[..d]
      else name
  }

  /** Cutting the string after its leading run does not change the run. */
  lemma {:induction false} LeadingRunOfPrefix(s: string, n: nat, drop: char -> bool)
    requires LeadingRun(s, drop) < n <= |s|
    ensures LeadingRun(s[..n], drop) == LeadingRun(s, drop)
    decreases |s|
  {
    if s != [] && drop(s[0]) {
      assert s[..n][1..] == s[1..][..n - 1];
      LeadingRunOfPrefix(s[1..], n - 1, drop);
    }
  }

  /** The name of the attribute a raster contributes: its file name without directory or extension. */
  function ColumnName(path: string): string {
    Stem(Basename(path))
  }

  /** The last dot of `<stem>.tif` is the one before "tif". */
  lemma LastDotOfTif(stem: string)
    ensures LastIndex(stem + ".tif", '.') == Some(|stem|)
  {
    var n := |stem|;
    assert (stem + ".tif")[..n + 3] == stem + ".ti";
    assert (stem + ".ti")[..n + 2] == stem + ".t";
    assert (stem + ".t")[..n + 1] == stem + ".";
    assert LastIndex(stem + ".", '.') == Some(n);
    assert LastIndex(stem + ".t", '.') == Some(n);
    assert LastIndex(stem + ".ti", '.') == Some(n);
  }

  /**
   * For a raster found as `<dir>/<stem>.tif` (a glob never yields hidden files, so `stem`
   * does not start with '.'), the column is named `stem`.
   */
  lemma ColumnNameOfTif(dir: string, stem: string)
    requires stem != [] && stem[0] != '.' && '/' !in stem
    ensures ColumnName(Join(dir, stem + ".tif")) == stem
  {
    var name := stem + ".tif";
    assert '/' !in name by {
      forall i | 0 <= i < |name| ensures name[i] != '/' {
        if i >= |stem| { assert name[i] == ".tif"[i - |stem|]; }
        else { assert name[i] == stem[i]; }
      }
    }
    BasenameOfJoin(dir, name);
    LastDotOfTif(stem);
    assert LeadingRun(name, IsDot) == 0;
    assert name[..|stem|] == stem;
  }
}
