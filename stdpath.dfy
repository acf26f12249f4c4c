/**
 * The lexical part of Rust's `std::path` and of the `path_clean` crate that the
 * artifact path resolver relies on. A path is kept as the components
 * `Path::components` would yield: whether it starts at the root directory, then
 * its named parts in order. Empty segments and "." segments are dropped, so the
 * leading "." that `Path::components` keeps on a relative path is not represented;
 * ".." is kept, because only cleaning resolves it.
 */
module StdPath {
  import opened Wrappers

  datatype Path = Path(rooted: bool, parts: seq<string>)

  /** A single named component: non-empty, not ".", no separator in it. */
  predicate IsPart(s: string) {
    s != "" && s != "." && '/' !in s
  }

  predicate WellFormed(p: Path) {
    forall i :: 0 <= i < |p.parts| ==> IsPart(p.parts[i])
  }

  /** The segment collected so far, as a component list: empty and "." segments vanish. */
  function Emit(segment: string): (r: seq<string>)
    requires '/' !in segment
    ensures forall i :: 0 <= i < |r| ==> IsPart(r[i])
  {
    if segment == "" || segment == "." then [] else [segment]
  }

  /** Splits `s` on '/', continuing a segment that has collected `current` so far. */
  function SplitFrom(s: string, current: string): (r: seq<string>)
    requires '/' !in current
    ensures forall i :: 0 <= i < |r| ==> IsPart(r[i])
    decreases |s|
  {
    if s == [] then Emit(current)
    else if s[0] == '/' then Emit(current) + SplitFrom(s[1..], "")
    else SplitFrom(s[1..], current + [s[0]])
  }

  /** `Path::new(s)`: a path string read as its components. */
  function Parse(s: string): (p: Path)
    ensures WellFormed(p)
    ensures p.rooted <==> |s| > 0 && s[0] == '/'
  {
    Path(|s| > 0 && s[0] == '/', SplitFrom(s, ""))
  }

  /** `base.join(p)` / `base.push(p)`: a rooted `p` replaces the base, a relative one is appended. */
  function Join(base: Path, p: Path): (r: Path)
    ensures WellFormed(base) && WellFormed(p) ==> WellFormed(r)
    ensures !p.rooted ==> r.rooted == base.rooted && base.parts <= r.parts
  {
    if p.rooted then p else Path(base.rooted, base.parts + p.parts)
  }

  /** `Path::file_name`: the last component, unless there is none or it is "..". */
  function FileName(p: Path): (r: Option<string>)
    ensures r.Some? <==> |p.parts| > 0 && p.parts[|p.parts| - 1] != ".."
    ensures r.Some? ==> r.value == p.parts[|p.parts| - 1]
  {
    if |p.parts| > 0 && p.parts[|p.parts| - 1] != ".." then Some(p.parts[|p.parts| - 1]) else None
  }

  /** `Path::parent`: the path without its last component, if it has one. */
  function Parent(p: Path): Option<Path> {
    if |p.parts| == 0 then None else Some(Path(p.rooted, p.parts[..|p.parts| - 1]))
  }

  /** `PathBuf::with_file_name`: drop the file name (if any), then push `name` as a path. */
  function WithFileName(p: Path, name: string): Path {
    if FileName(p).Some? then Join(Path(p.rooted, p.parts[..|p.parts| - 1]), Parse(name))
    else Join(p, Parse(name))
  }

  /** `Path::starts_with`, which compares whole components, root included. */
  predicate StartsWith(p: Path, base: Path) {
    p.rooted == base.rooted && base.parts <= p.parts
  }

  /** A lexically clean path: no "." (well-formed), and ".." only as a leading run of a relative path. */
  predicate IsClean(p: Path) {
    && WellFormed(p)
    && (p.rooted ==> forall i :: 0 <= i < |p.parts| ==> p.parts[i] != "..")
    && (forall i, j :: 0 <= i < j < |p.parts| && p.parts[j] == ".." ==> p.parts[i] == "..")
  }

  /**
   * The loop of `path_clean::clean` over the remaining components `rest`, with
   * `out` the components kept so far: ".." pops a named component, is dropped
   * right after the root, and is kept otherwise.
   */
  function CleanFrom(rooted: bool, out: seq<string>, rest: seq<string>): seq<string>
    decreases |rest|
  {
    if rest == [] then out
    else if rest[0] == ".." then
      if |out| > 0 && out[|out| - 1] != ".." then CleanFrom(rooted, out[..|out| - 1], rest[1..])
      else if rooted && |out| == 0 then CleanFrom(rooted, out, rest[1..])
      else CleanFrom(rooted, out + [".."], rest[1..])
    else CleanFrom(rooted, out + [rest[0]], rest[1..])
  }

  /** `path_clean::clean`: lexical normalisation; the empty relative result stands for ".". */
  function Clean(p: Path): Path {
    Path(p.rooted, CleanFrom(p.rooted, [], p.parts))
  }

  lemma {:induction false} CleanFromIsClean(rooted: bool, out: seq<string>, rest: seq<string>)
    requires IsClean(Path(rooted, out))
    requires forall i :: 0 <= i < |rest| ==> IsPart(rest[i])
    ensures IsClean(Path(rooted, CleanFrom(rooted, out, rest)))
    decreases |rest|
  {
    if rest == [] {
    } else if rest[0] == ".." {
      if |out| > 0 && out[|out| - 1] != ".." {
        CleanFromIsClean(rooted, out[..|out| - 1], rest[1..]);
      } else if rooted && |out| == 0 {
        CleanFromIsClean(rooted, out, rest[1..]);
      } else {
        var out' := out + [".."];
        assert !rooted;
        assert forall i :: 0 <= i < |out| ==> out[i] == "..";
        assert IsClean(Path(rooted, out'));
        CleanFromIsClean(rooted, out', rest[1..]);
      }
    } else {
      var out' := out + [rest[0]];
      assert IsClean(Path(rooted, out'));
      CleanFromIsClean(rooted, out', rest[1..]);
    }
  }

  /** Cleaning from the root never keeps a "..": each one pops a name or is dropped at the root. */
  lemma {:induction false} RootedCleanFromNoDotDot(out: seq<string>, rest: seq<string>)
    requires forall i :: 0 <= i < |out| ==> out[i] != ".."
    ensures var r := CleanFrom(true, out, rest); forall i :: 0 <= i < |r| ==> r[i] != ".."
    decreases |rest|
  {
    if rest == [] {
    } else if rest[0] == ".." {
      if |out| > 0 {
        assert CleanFrom(true, out, rest) == CleanFrom(true, out[..|out| - 1], rest[1..]);
        RootedCleanFromNoDotDot(out[..|out| - 1], rest[1..]);
      } else {
        assert CleanFrom(true, out, rest) == CleanFrom(true, out, rest[1..]);
        RootedCleanFromNoDotDot(out, rest[1..]);
      }
    } else {
      assert CleanFrom(true, out, rest) == CleanFrom(true, out + [rest[0]], rest[1..]);
      RootedCleanFromNoDotDot(out + [rest[0]], rest[1..]);
    }
  }

  /** Cleaning always yields a clean path with the same root. */
  lemma CleanIsClean(p: Path)
    requires WellFormed(p)
    ensures IsClean(Clean(p)) && Clean(p).rooted == p.rooted
  {
    CleanFromIsClean(p.rooted, [], p.parts);
  }

  lemma {:induction false} CleanFromOfClean(rooted: bool, out: seq<string>, rest: seq<string>)
    requires IsClean(Path(rooted, out + rest))
    ensures CleanFrom(rooted, out, rest) == out + rest
    decreases |rest|
  {
    if rest != [] {
      assert (out + rest)[|out|] == rest[0];
      if rest[0] == ".." {
        assert !rooted;
        forall i | 0 <= i < |out|
          ensures out[i] == ".."
        {
          assert (out + rest)[i] == out[i];
        }
        assert out + rest == (out + [".."]) + rest[1..];
        CleanFromOfClean(rooted, out + [".."], rest[1..]);
      } else {
        assert out + rest == (out + [rest[0]]) + rest[1..];
        CleanFromOfClean(rooted, out + [rest[0]], rest[1..]);
      }
    }
  }

  /** Cleaning a clean path changes nothing, so `Clean` is idempotent. */
  lemma CleanOfClean(p: Path)
    requires IsClean(p)
    ensures Clean(p) == p
  {
    CleanFromOfClean(p.rooted, [], p.parts);
  }
}
