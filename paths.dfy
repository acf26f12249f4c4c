/**
 * The artifact path resolver: the three paths an artifact occupies while it is
 * installed (final, the `.new` download, the `.old` backup), and the check that
 * keeps them inside the base directory.
 *
 * `TryNewAsWritten` is the resolver as the source builds it; `TryNew` is the
 * corrected resolver that the download and removal engines use (see the
 * counterexample lemmas at the end for why the two differ).
 */
module ManagerPaths {
  import opened Wrappers
  import opened StdPath
  import opened Mods
  import opened Errors

  datatype ArtifactPaths = ArtifactPaths(finalDest: Path, tmpDest: Path, oldDest: Path)

  /** Directory used when an artifact names no install location. */
  const DefaultInstallDir: string := "rml_mods"

  const NotUnderBaseMessage: string :=
    "artifact's final destination is not a subdirectory of the base destination"

  /** `path.strip_prefix("/").or(Ok(path))`: a rooted location loses its root, a relative one is kept. */
  function StripRoot(p: Path): Path {
    Path(false, p.parts)
  }

  /** The directory the artifact is placed in: the base joined with its install location. */
  function InstallDir(a: ModArtifact, base: Path): Path {
    var location := match a.installLocation
      case Some(l) => StripRoot(Parse(l))
      case None => Path(false, [DefaultInstallDir]);
    Join(base, location)
  }

  /** The explicit filename, else the file name of the URL's path, else a path error. */
  function ArtifactFileName(a: ModArtifact): Result<string, Error> {
    match a.filename
    case Some(f) => Ok(f)
    case None =>
      match FileName(Parse(a.url.path))
      case Some(n) => Ok(n)
      case None => Err(PathError("unable to extract file name from url: " + a.url.text))
  }

  /** The cleaned final destination for a resolved filename. */
  function FinalDest(a: ModArtifact, base: Path, filename: string): Path {
    Clean(Join(InstallDir(a, base), Parse(filename)))
  }

  /** `ArtifactPaths::try_new` exactly as the source computes it. */
  function TryNewAsWritten(a: ModArtifact, base: Path): Result<ArtifactPaths, Error> {
    match ArtifactFileName(a)
    case Err(e) => Err(e)
    case Ok(filename) =>
      var finalDest := FinalDest(a, base, filename);
      if !StartsWith(finalDest, base) then Err(PathError(NotUnderBaseMessage))
      else Ok(ArtifactPaths(
        finalDest,
        WithFileName(finalDest, filename + ".new"),
        WithFileName(finalDest, filename + ".old")))
  }

  /** A strict descendant of `base`: it starts with `base`, is longer, and never steps up after it. */
  predicate IsDescendant(p: Path, base: Path) {
    && StartsWith(p, base)
    && |p.parts| > |base.parts|
    && forall i :: |base.parts| <= i < |p.parts| ==> p.parts[i] != ".."
  }

  /** The path next to `p` (same parent) named `name`. */
  function Sibling(p: Path, name: string): Path
    requires |p.parts| > 0
  {
    Path(p.rooted, p.parts[..|p.parts| - 1] + [name])
  }

  /**
   * The corrected resolver: the final destination must lie strictly below the
   * base, and the `.new`/`.old` names are built from the final destination's own
   * file name, so they sit beside it.
   */
  function TryNew(a: ModArtifact, base: Path): Result<ArtifactPaths, Error> {
    match ArtifactFileName(a)
    case Err(e) => Err(e)
    case Ok(filename) =>
      var finalDest := FinalDest(a, base, filename);
      if !IsDescendant(finalDest, base) then Err(PathError(NotUnderBaseMessage))
      else
        var name := finalDest.parts[|finalDest.parts| - 1];
        Ok(ArtifactPaths(finalDest, Sibling(finalDest, name + ".new"), Sibling(finalDest, name + ".old")))
  }

  /**
   * `ModArtifact::dest_within` is not part of this model; it is taken to be the
   * final destination computed by the resolver.
   */
  function DestWithin(a: ModArtifact, base: Path): Result<Path, Error> {
    match TryNew(a, base)
    case Ok(ps) => Ok(ps.finalDest)
    case Err(e) => Err(e)
  }

  /** The three paths are clean, strictly below the base, share one parent and are pairwise distinct. */
  predicate Sandboxed(ps: ArtifactPaths, base: Path) {
    && IsClean(ps.finalDest) && IsClean(ps.tmpDest) && IsClean(ps.oldDest)
    && IsDescendant(ps.finalDest, base) && IsDescendant(ps.tmpDest, base) && IsDescendant(ps.oldDest, base)
    && Parent(ps.tmpDest) == Parent(ps.finalDest) && Parent(ps.oldDest) == Parent(ps.finalDest)
    && ps.finalDest != ps.tmpDest && ps.finalDest != ps.oldDest && ps.tmpDest != ps.oldDest
  }

  /** The install location never replaces the base: a leading "/" is dropped and the rest appended. */
  lemma InstallDirUnderBase(a: ModArtifact, base: Path)
    ensures InstallDir(a, base).rooted == base.rooted
    ensures a.installLocation.Some? ==> InstallDir(a, base).parts == base.parts + Parse(a.installLocation.value).parts
    ensures a.installLocation.None? ==> InstallDir(a, base).parts == base.parts + [DefaultInstallDir]
  {
  }

  /** The filename rule: an explicit filename wins; otherwise the URL path's file name; otherwise a path error. */
  lemma ArtifactFileNameChoice(a: ModArtifact)
    ensures a.filename.Some? ==> ArtifactFileName(a) == Ok(a.filename.value)
    ensures a.filename.None? && FileName(Parse(a.url.path)).Some? ==>
      ArtifactFileName(a) == Ok(FileName(Parse(a.url.path)).value)
    ensures ArtifactFileName(a).Err? <==> a.filename.None? && FileName(Parse(a.url.path)).None?
    ensures ArtifactFileName(a).Err? ==> ArtifactFileName(a).error.PathError?
  {
  }

  /** As written, the final destination is clean and starts with the base: the check runs after cleaning. */
  lemma TryNewAsWrittenFinalChecked(a: ModArtifact, base: Path)
    requires WellFormed(base)
    requires TryNewAsWritten(a, base).Ok?
    ensures IsClean(TryNewAsWritten(a, base).value.finalDest)
    ensures StartsWith(TryNewAsWritten(a, base).value.finalDest, base)
  {
    var filename := ArtifactFileName(a).value;
    CleanIsClean(Join(InstallDir(a, base), Parse(filename)));
  }

  lemma SiblingIsDescendant(p: Path, base: Path, name: string)
    requires IsClean(p) && IsDescendant(p, base) && IsPart(name) && name != ".."
    ensures IsClean(Sibling(p, name)) && IsDescendant(Sibling(p, name), base)
    ensures Parent(Sibling(p, name)) == Parent(p)
  {
    var s := Sibling(p, name);
    assert s.parts[..|s.parts| - 1] == p.parts[..|p.parts| - 1];
    assert base.parts <= s.parts;
    forall i, j | 0 <= i < j < |s.parts| && s.parts[j] == ".."
      ensures s.parts[i] == ".."
    {
      assert j < |p.parts| - 1 && s.parts[j] == p.parts[j] && s.parts[i] == p.parts[i];
    }
  }

  /** Appending ".new" or ".old" to a component gives another component, distinct from it and from each other. */
  lemma SuffixedNames(name: string)
    requires IsPart(name) && name != ".."
    ensures IsPart(name + ".new") && name + ".new" != ".."
    ensures IsPart(name + ".old") && name + ".old" != ".."
    ensures name + ".new" != name && name + ".old" != name && name + ".new" != name + ".old"
  {
    var n, o := name + ".new", name + ".old";
    assert n[|name|..] == ".new" && o[|name|..] == ".old";
    assert n[|name| + 1] == 'n' && o[|name| + 1] == 'o';
    assert forall k :: 0 <= k < |n| ==> n[k] != '/' by {
      forall k | 0 <= k < |n| ensures n[k] != '/' {
        if k < |name| { assert n[k] == name[k]; }
      }
    }
    assert forall k :: 0 <= k < |o| ==> o[k] != '/' by {
      forall k | 0 <= k < |o| ensures o[k] != '/' {
        if k < |name| { assert o[k] == name[k]; }
      }
    }
  }

  /**
   * The sandbox property of the corrected resolver: whatever the install location
   * and filename, a successful result has all three paths clean (they name the
   * location the operating system resolves), strictly below the base, in one
   * directory, and pairwise distinct.
   */
  lemma TryNewSandboxed(a: ModArtifact, base: Path)
    requires WellFormed(base)
    requires TryNew(a, base).Ok?
    ensures Sandboxed(TryNew(a, base).value, base)
  {
    var filename := ArtifactFileName(a).value;
    var joined := Join(InstallDir(a, base), Parse(filename));
    CleanIsClean(joined);
    var f := FinalDest(a, base, filename);
    var name := f.parts[|f.parts| - 1];
    SuffixedNames(name);
    SiblingIsDescendant(f, base, name + ".new");
    SiblingIsDescendant(f, base, name + ".old");
    var t, o := Sibling(f, name + ".new"), Sibling(f, name + ".old");
    assert t.parts[|f.parts| - 1] == name + ".new";
    assert o.parts[|f.parts| - 1] == name + ".old";
    assert f.parts[|f.parts| - 1] != t.parts[|f.parts| - 1];
    assert TryNew(a, base).value == ArtifactPaths(f, t, o);
  }

  /** The resolver fails exactly when no filename can be found or the final destination is not below the base. */
  lemma TryNewErrorCases(a: ModArtifact, base: Path)
    ensures TryNew(a, base).Err? <==>
      ArtifactFileName(a).Err? || !IsDescendant(FinalDest(a, base, ArtifactFileName(a).value), base)
    ensures TryNew(a, base).Err? ==> TryNew(a, base).error.PathError?
  {
  }

  lemma ParseSinglePart(s: string)
    requires IsPart(s)
    ensures Parse(s) == Path(false, [s])
  {
    SplitFromNoSlash(s, "");
    assert "" + s == s;
  }

  lemma {:induction false} SplitFromNoSlash(s: string, current: string)
    requires '/' !in current && '/' !in s
    ensures SplitFrom(s, current) == Emit(current + s)
    decreases |s|
  {
    if s == [] {
      assert current + s == current;
    } else {
      assert s[0] in s && s[0] != '/';
      assert current + s == (current + [s[0]]) + s[1..];
      assert forall c :: c in s[1..] ==> c in s;
      SplitFromNoSlash(s[1..], current + [s[0]]);
    }
  }

  /** Parsing "x/rest" for a separator-free `x` emits `x`, then the parts of `rest`. */
  lemma {:induction false} SplitFromSlash(x: string, rest: string, current: string)
    requires '/' !in current && '/' !in x
    ensures SplitFrom(x + "/" + rest, current) == Emit(current + x) + SplitFrom(rest, "")
    decreases |x|
  {
    if x == [] {
      assert x + "/" + rest == "/" + rest;
      assert ("/" + rest)[1..] == rest;
      assert current + x == current;
    } else {
      assert x[0] in x && x[0] != '/';
      assert (x + "/" + rest)[0] == x[0] && (x + "/" + rest)[1..] == x[1..] + "/" + rest;
      assert current + x == (current + [x[0]]) + x[1..];
      assert forall c :: c in x[1..] ==> c in x;
      SplitFromSlash(x[1..], rest, current + [x[0]]);
    }
  }

  /** `Path::new("x/y")` for two components. */
  lemma ParseTwoParts(x: string, y: string)
    requires '/' !in x && x != "" && IsPart(y)
    ensures Parse(x + "/" + y) == Path(false, Emit(x) + [y])
  {
    SplitFromSlash(x, y, "");
    ParseSinglePart(y);
    assert "" + x == x;
    assert (x + "/" + y)[0] == x[0];
  }

  /**
   * For an ordinary filename (one component, not "..") the correction changes
   * nothing: whenever the corrected resolver succeeds, the source's resolver
   * returns the same three paths.
   */
  lemma TryNewAgreesOnPlainNames(a: ModArtifact, base: Path)
    requires ArtifactFileName(a).Ok?
    requires IsPart(ArtifactFileName(a).value) && ArtifactFileName(a).value != ".."
    requires TryNew(a, base).Ok?
    ensures TryNewAsWritten(a, base) == TryNew(a, base)
  {
    var filename := ArtifactFileName(a).value;
    ParseSinglePart(filename);
    var dir := InstallDir(a, base);
    var joined := Join(dir, Parse(filename));
    assert joined.parts == dir.parts + [filename];
    CleanFromLastPart(joined.rooted, [], dir.parts, filename);
    var f := FinalDest(a, base, filename);
    assert f.parts[|f.parts| - 1] == filename;
    assert IsPart(filename + ".new") && IsPart(filename + ".old") by {
      assert (filename + ".new")[|filename|..] == ".new";
      assert (filename + ".old")[|filename|..] == ".old";
    }
    ParseSinglePart(filename + ".new");
    ParseSinglePart(filename + ".old");
  }

  /**
   * Under a rooted base and for an ordinary filename, the two resolvers give the
   * same answer exactly unless the source's resolver accepts a final destination
   * equal to the base itself.
   */
  lemma ResolversAgreeUnlessBase(a: ModArtifact, base: Path)
    requires base.rooted
    requires ArtifactFileName(a).Ok?
    requires IsPart(ArtifactFileName(a).value) && ArtifactFileName(a).value != ".."
    ensures TryNew(a, base) == TryNewAsWritten(a, base) <==>
      !(TryNewAsWritten(a, base).Ok? && TryNewAsWritten(a, base).value.finalDest == base)
  {
    var filename := ArtifactFileName(a).value;
    var f := FinalDest(a, base, filename);
    ParseSinglePart(filename);
    var joined := Join(InstallDir(a, base), Parse(filename));
    assert joined.rooted;
    RootedCleanFromNoDotDot([], joined.parts);
    assert f.parts == CleanFrom(true, [], joined.parts);
    if StartsWith(f, base) && f != base {
      assert f.parts != base.parts;
      assert IsDescendant(f, base);
      TryNewAgreesOnPlainNames(a, base);
    }
  }

  /** Cleaning a path that ends in a named component keeps that component last. */
  lemma CleanFromLastPart(rooted: bool, out: seq<string>, rest: seq<string>, name: string)
    requires IsPart(name) && name != ".."
    ensures var r := CleanFrom(rooted, out, rest + [name]); |r| > 0 && r[|r| - 1] == name
    decreases |rest|
  {
    if rest == [] {
      assert CleanFrom(rooted, out, [name]) == CleanFrom(rooted, out + [name], []);
    } else {
      assert (rest + [name])[1..] == rest[1..] + [name];
      if rest[0] == ".." {
        if |out| > 0 && out[|out| - 1] != ".." {
          CleanFromLastPart(rooted, out[..|out| - 1], rest[1..], name);
        } else if rooted && |out| == 0 {
          CleanFromLastPart(rooted, out, rest[1..], name);
        } else {
          CleanFromLastPart(rooted, out + [".."], rest[1..], name);
        }
      } else {
        CleanFromLastPart(rooted, out + [rest[0]], rest[1..], name);
      }
    }
  }

  // ---- What the resolver as written gets wrong ----

  /** An artifact whose explicit filename steps up one directory. */
  function DotDotFilenameArtifact(): ModArtifact {
    ModArtifact(Url("https://example.com/evil.dll", "/evil.dll"), "", Some("../evil.dll"), None, None)
  }

  lemma ParseDotDotEvil()
    ensures Parse("../evil.dll") == Path(false, ["..", "evil.dll"])
  {
    assert "../evil.dll" == ".." + "/" + "evil.dll";
    ParseTwoParts("..", "evil.dll");
  }

  lemma CleanDotDotEvil()
    ensures CleanFrom(true, [], ["game", "rml_mods", "..", "evil.dll"]) == ["game", "evil.dll"]
  {
    calc {
      CleanFrom(true, [], ["game", "rml_mods", "..", "evil.dll"]);
      CleanFrom(true, ["game"], ["rml_mods", "..", "evil.dll"]);
      CleanFrom(true, ["game", "rml_mods"], ["..", "evil.dll"]);
      { assert ["game", "rml_mods"][..1] == ["game"]; }
      CleanFrom(true, ["game"], ["evil.dll"]);
      CleanFrom(true, ["game", "evil.dll"], []);
    }
  }

  /** The final destination of the "../evil.dll" artifact under "/game" is "/game/evil.dll". */
  lemma DotDotFinalDest()
    ensures FinalDest(DotDotFilenameArtifact(), Path(true, ["game"]), "../evil.dll") == Path(true, ["game", "evil.dll"])
  {
    ParseDotDotEvil();
    CleanDotDotEvil();
    var dir := InstallDir(DotDotFilenameArtifact(), Path(true, ["game"]));
    assert dir == Path(true, ["game", "rml_mods"]);
    assert Join(dir, Path(false, ["..", "evil.dll"])) == Path(true, ["game", "rml_mods", "..", "evil.dll"]);
  }

  /** Rebuilding the download path from the raw filename keeps its "..": "/game/../evil.dll.new". */
  lemma DotDotTmpDest()
    ensures WithFileName(Path(true, ["game", "evil.dll"]), "../evil.dll" + ".new") == Path(true, ["game", "..", "evil.dll.new"])
    ensures Clean(Path(true, ["game", "..", "evil.dll.new"])) == Path(true, ["evil.dll.new"])
  {
    assert "../evil.dll" + ".new" == ".." + "/" + "evil.dll.new";
    ParseTwoParts("..", "evil.dll.new");
    assert FileName(Path(true, ["game", "evil.dll"])) == Some("evil.dll");
    assert ["game", "evil.dll"][..1] == ["game"];
    calc {
      CleanFrom(true, [], ["game", "..", "evil.dll.new"]);
      CleanFrom(true, ["game"], ["..", "evil.dll.new"]);
      { assert ["game"][..0] == []; }
      CleanFrom(true, [], ["evil.dll.new"]);
      CleanFrom(true, ["evil.dll.new"], []);
    }
  }

  /**
   * With base "/game" and filename "../evil.dll", the final destination
   * "/game/evil.dll" passes the check, but the download path is built from the
   * raw filename: "/game/../evil.dll.new", which resolves to "/evil.dll.new",
   * outside the base. The corrected resolver puts it at "/game/evil.dll.new".
   */
  lemma DotDotFilenameEscapes()
    ensures var ps := TryNewAsWritten(DotDotFilenameArtifact(), Path(true, ["game"]));
      && ps.Ok?
      && ps.value.finalDest == Path(true, ["game", "evil.dll"])
      && ps.value.tmpDest == Path(true, ["game", "..", "evil.dll.new"])
      && Clean(ps.value.tmpDest) == Path(true, ["evil.dll.new"])
      && !StartsWith(Clean(ps.value.tmpDest), Path(true, ["game"]))
  {
    var base := Path(true, ["game"]);
    var a := DotDotFilenameArtifact();
    assert ArtifactFileName(a) == Ok("../evil.dll");
    DotDotFinalDest();
    DotDotTmpDest();
    var f := Path(true, ["game", "evil.dll"]);
    assert StartsWith(f, base) by { assert base.parts == f.parts[..1]; }
    assert ["evil.dll.new"][..1] != ["game"];
  }

  /** The corrected resolver's result once the filename and a descendant final destination are known. */
  lemma TryNewOfFinal(a: ModArtifact, base: Path, filename: string, f: Path)
    requires ArtifactFileName(a) == Ok(filename) && FinalDest(a, base, filename) == f
    requires IsDescendant(f, base)
    ensures TryNew(a, base) == Ok(ArtifactPaths(f,
      Sibling(f, f.parts[|f.parts| - 1] + ".new"), Sibling(f, f.parts[|f.parts| - 1] + ".old")))
  {
  }

  /** The corrected resolver accepts the same artifact and keeps its download path at "/game/evil.dll.new". */
  lemma DotDotFilenameCorrected()
    ensures TryNew(DotDotFilenameArtifact(), Path(true, ["game"])).Ok?
    ensures TryNew(DotDotFilenameArtifact(), Path(true, ["game"])).value.tmpDest == Path(true, ["game", "evil.dll.new"])
  {
    var base := Path(true, ["game"]);
    var f := Path(true, ["game", "evil.dll"]);
    DotDotFinalDest();
    assert IsDescendant(f, base) by {
      assert base.parts == f.parts[..1];
      assert "evil.dll" != "..";
    }
    TryNewOfFinal(DotDotFilenameArtifact(), base, "../evil.dll", f);
    EvilSibling();
  }

  lemma EvilSibling()
    ensures Sibling(Path(true, ["game", "evil.dll"]), "evil.dll" + ".new") == Path(true, ["game", "evil.dll.new"])
  {
    assert "evil.dll" + ".new" == "evil.dll.new";
    assert ["game", "evil.dll"][..1] + ["evil.dll.new"] == ["game", "evil.dll.new"];
  }

  /** An artifact installed one level up under the base directory's own name. */
  function BaseNamedArtifact(): ModArtifact {
    ModArtifact(Url("https://example.com/game", "/game"), "", Some("game"), Some(".."), None)
  }

  /**
   * With base "/game", install location ".." and filename "game", the final
   * destination is the base directory itself, which `starts_with` accepts; the
   * download path "/game.new" is then outside the base. The corrected resolver
   * rejects the artifact.
   */
  lemma FinalMayEqualBase()
    ensures var ps := TryNewAsWritten(BaseNamedArtifact(), Path(true, ["game"]));
      && ps.Ok?
      && ps.value.finalDest == Path(true, ["game"])
      && ps.value.tmpDest == Path(true, ["game.new"])
      && !StartsWith(ps.value.tmpDest, Path(true, ["game"]))
    ensures TryNew(BaseNamedArtifact(), Path(true, ["game"])).Err?
  {
    BaseNamedAsWritten();
    BaseNamedCorrected();
    assert ["game.new"][..1] != ["game"];
  }

  /** The resolver as written accepts the base-named artifact, with `.new`/`.old` beside the base. */
  lemma BaseNamedAsWritten()
    ensures TryNewAsWritten(BaseNamedArtifact(), Path(true, ["game"]))
      == Ok(ArtifactPaths(Path(true, ["game"]), Path(true, ["game.new"]), Path(true, ["game.old"])))
  {
    var a := BaseNamedArtifact();
    var base := Path(true, ["game"]);
    assert ArtifactFileName(a) == Ok("game");
    BaseNamedFinalDest();
    AsWrittenAccepts(a, base, "game", base);
    GameSuffixes();
    RenameSingle("game", "game.new");
    RenameSingle("game", "game.old");
  }

  lemma GameSuffixes()
    ensures "game" + ".new" == "game.new" && "game" + ".old" == "game.old"
  {
  }

  /** When the final destination starts with the base, the resolver as written names `.new`/`.old` from the filename. */
  lemma AsWrittenAccepts(a: ModArtifact, base: Path, filename: string, fd: Path)
    requires ArtifactFileName(a) == Ok(filename) && FinalDest(a, base, filename) == fd && StartsWith(fd, base)
    ensures TryNewAsWritten(a, base) == Ok(ArtifactPaths(fd, WithFileName(fd, filename + ".new"), WithFileName(fd, filename + ".old")))
  {
  }

  /** The corrected resolver rejects it, since the final destination is not strictly below the base. */
  lemma BaseNamedCorrected()
    ensures TryNew(BaseNamedArtifact(), Path(true, ["game"])).Err?
  {
    assert ArtifactFileName(BaseNamedArtifact()) == Ok("game");
    BaseNamedFinalDest();
  }

  /** Giving a one-component rooted path a new one-component name. */
  lemma RenameSingle(name: string, newName: string)
    requires IsPart(name) && name != ".." && IsPart(newName)
    ensures WithFileName(Path(true, [name]), newName) == Path(true, [newName])
  {
    ParseSinglePart(newName);
    assert [name][..0] == [];
  }

  /** Installing "game" at ".." under "/game" lands on "/game" itself. */
  lemma BaseNamedFinalDest()
    ensures FinalDest(BaseNamedArtifact(), Path(true, ["game"]), "game") == Path(true, ["game"])
  {
    ParseSinglePart("..");
    ParseSinglePart("game");
    var joined := Join(InstallDir(BaseNamedArtifact(), Path(true, ["game"])), Parse("game"));
    assert joined == Path(true, ["game", "..", "game"]);
    calc {
      CleanFrom(true, [], joined.parts);
      CleanFrom(true, ["game"], ["..", "game"]);
      { assert ["game"][..0] == []; }
      CleanFrom(true, [], ["game"]);
      CleanFrom(true, ["game"], []);
    }
  }

  /** An artifact named ".." with no install location. */
  function RootDotDotArtifact(): ModArtifact {
    ModArtifact(Url("https://example.com/mod.dll", "/mod.dll"), "", Some(".."), None, None)
  }

  /**
   * Under base "/", the filename ".." climbs back out of "rml_mods": the source's
   * resolver accepts the root itself as the final destination, which has no
   * parent directory. The corrected resolver rejects the artifact.
   */
  lemma RootFinalAsWritten()
    ensures var r := TryNewAsWritten(RootDotDotArtifact(), Path(true, []));
      r.Ok? && r.value.finalDest == Path(true, []) && Parent(r.value.finalDest).None?
    ensures TryNew(RootDotDotArtifact(), Path(true, [])) == Err(PathError(NotUnderBaseMessage))
  {
    ParseSinglePart("..");
    var joined := Join(InstallDir(RootDotDotArtifact(), Path(true, [])), Parse(".."));
    assert joined == Path(true, ["rml_mods", ".."]);
    assert ["rml_mods"][..0] == [];
    assert CleanFrom(true, [], joined.parts) == CleanFrom(true, ["rml_mods"], [".."]) == [];
  }
}
