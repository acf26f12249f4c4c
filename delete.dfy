/**
 * The removal engine: deleting every artifact of a version, collecting the
 * failures instead of stopping at the first, and deleting the artifacts an old
 * version had that a new one does not. A missing file always counts as deleted.
 *
 * Removals commute, so the files left behind are described by `Removed`: every
 * target whose removal is not made to fail disappears, everything else stays.
 */
module Delete {
  import opened Seqs
  import opened Wrappers
  import opened StdPath
  import opened Mods
  import opened Errors
  import opened ManagerPaths
  import opened FileSystem
  import opened Artifacts

  /** One artifact's removal and the files afterwards. */
  datatype Removal = Removal(result: Result<Path, ArtifactError>, files: Files)

  /** The failures collected so far and the files afterwards. */
  datatype Sweep = Sweep(failed: seq<ArtifactError>, files: Files)

  /** Removing `p` fails for a reason other than the file being missing. */
  predicate HardFault(faults: Faults, p: Path) {
    (RemoveOp, p) in faults && faults[(RemoveOp, p)] != NotFound
  }

  /** The files left after removing every path of `targets`, missing files tolerated. */
  function Removed(files: Files, faults: Faults, targets: set<Path>): Files {
    map q | q in files && (q !in targets || (RemoveOp, q) in faults) :: files[q]
  }

  // ---- Deleting one artifact ----

  /** `Deleter::delete_artifact`: resolve the artifact's path, then delete it, a missing file being fine. */
  function DeleteArtifactSpec(files: Files, faults: Faults, base: Path, a: ModArtifact): Removal {
    match MapPathlessArtifactErr(DestWithin(a, base), Delete)
    case Err(e) => Removal(Err(e), files)
    case Ok(p) =>
      var d := DeleteSpec(files, faults, p, true);
      Removal(if d.result.Err? then Err(d.result.error) else Ok(p), d.files)
  }

  /** Why deleting an artifact fails, whatever files are there; `None` when it succeeds. */
  function DeleteFailure(faults: Faults, base: Path, a: ModArtifact): Option<ArtifactError> {
    match DestWithin(a, base)
    case Err(e) => Some(ArtifactError(Delete, None, e))
    case Ok(p) => if HardFault(faults, p) then Some(ArtifactError(Delete, Some(p), Io(faults[(RemoveOp, p)]))) else None
  }

  /** The paths removing an artifact targets: its resolved path, if it resolves. */
  function Target(base: Path, a: ModArtifact): set<Path> {
    match DestWithin(a, base)
    case Ok(p) => {p}
    case Err(_) => {}
  }

  /**
   * Deleting one artifact: a resolution failure is reported with no path and
   * deletes nothing; otherwise it fails exactly on a hard fault, reporting the
   * path, and a success returns the path. Either way the files are those with
   * the target removed.
   */
  lemma DeleteArtifactOutcome(files: Files, faults: Faults, base: Path, a: ModArtifact)
    ensures DeleteArtifactSpec(files, faults, base, a).result.Err? <==> DeleteFailure(faults, base, a).Some?
    ensures DeleteArtifactSpec(files, faults, base, a).result.Err? ==>
      DeleteArtifactSpec(files, faults, base, a).result.error == DeleteFailure(faults, base, a).value
    ensures DeleteArtifactSpec(files, faults, base, a).result.Ok? ==>
      DestWithin(a, base) == Ok(DeleteArtifactSpec(files, faults, base, a).result.value)
    ensures DestWithin(a, base).Err? ==> DeleteArtifactSpec(files, faults, base, a).files == files
    ensures DeleteArtifactSpec(files, faults, base, a).files == Removed(files, faults, Target(base, a))
  {
    match DestWithin(a, base)
    case Err(e) =>
      assert Removed(files, faults, {}) == files;
    case Ok(p) =>
      var d := DeleteSpec(files, faults, p, true);
      if d.result == Ok(true) {
        assert d.files == Removed(files, faults, {p});
      } else {
        assert d.files == Removed(files, faults, {p});
      }
  }

  // ---- Deleting a version ----

  /** The loop of `delete_version` from artifact `i`: every artifact is attempted, failures are collected in order. */
  function DeleteVersionFrom(files: Files, faults: Faults, base: Path, arts: seq<ModArtifact>, i: nat, failed: seq<ArtifactError>): Sweep
    requires i <= |arts|
    decreases |arts| - i
  {
    if i == |arts| then Sweep(failed, files)
    else
      var d := DeleteArtifactSpec(files, faults, base, arts[i]);
      DeleteVersionFrom(d.files, faults, base, arts, i + 1, if d.result.Err? then failed + [d.result.error] else failed)
  }

  /** The failures of deleting each artifact of the list on its own, in list order. */
  function Failures(faults: Faults, base: Path, arts: seq<ModArtifact>): seq<ArtifactError> {
    if arts == [] then []
    else
      match DeleteFailure(faults, base, arts[0])
      case Some(e) => [e] + Failures(faults, base, arts[1..])
      case None => Failures(faults, base, arts[1..])
  }

  /** The paths of the artifacts of the list that resolve. */
  function Targets(base: Path, arts: seq<ModArtifact>): set<Path> {
    if arts == [] then {} else Target(base, arts[0]) + Targets(base, arts[1..])
  }

  lemma RemovedTwice(files: Files, faults: Faults, a: set<Path>, b: set<Path>)
    ensures Removed(Removed(files, faults, a), faults, b) == Removed(files, faults, a + b)
  {
  }

  /**
   * The version loop collects exactly the failures of the artifacts taken one by
   * one, in artifact order, and leaves the files with every resolvable artifact
   * path removed (hard faults aside).
   */
  lemma DeleteVersionFromSweeps(files: Files, faults: Faults, base: Path, arts: seq<ModArtifact>, i: nat, failed: seq<ArtifactError>)
    requires i <= |arts|
    ensures DeleteVersionFrom(files, faults, base, arts, i, failed).failed == failed + Failures(faults, base, arts[i..])
    ensures DeleteVersionFrom(files, faults, base, arts, i, failed).files == Removed(files, faults, Targets(base, arts[i..]))
  {
    DeleteVersionFromFailed(files, faults, base, arts, i, failed);
    DeleteVersionFromFiles(files, faults, base, arts, i, failed);
  }

  lemma {:induction false} DeleteVersionFromFailed(files: Files, faults: Faults, base: Path, arts: seq<ModArtifact>, i: nat, failed: seq<ArtifactError>)
    requires i <= |arts|
    ensures DeleteVersionFrom(files, faults, base, arts, i, failed).failed == failed + Failures(faults, base, arts[i..])
    decreases |arts| - i
  {
    if i < |arts| {
      var d := DeleteArtifactSpec(files, faults, base, arts[i]);
      var failed' := if d.result.Err? then failed + [d.result.error] else failed;
      assert DeleteVersionFrom(files, faults, base, arts, i, failed) == DeleteVersionFrom(d.files, faults, base, arts, i + 1, failed');
      var f := DeleteFailure(faults, base, arts[i]);
      var now := if f.Some? then [f.value] else [];
      DeleteArtifactOutcome(files, faults, base, arts[i]);
      assert failed' == failed + now;
      DeleteVersionFromFailed(d.files, faults, base, arts, i + 1, failed');
      SweepStep(faults, base, arts, i);
      assert Failures(faults, base, arts[i..]) == now + Failures(faults, base, arts[i + 1..]);
      ConcatAssoc(failed, now, Failures(faults, base, arts[i + 1..]));
    }
  }

  lemma {:induction false} DeleteVersionFromFiles(files: Files, faults: Faults, base: Path, arts: seq<ModArtifact>, i: nat, failed: seq<ArtifactError>)
    requires i <= |arts|
    ensures DeleteVersionFrom(files, faults, base, arts, i, failed).files == Removed(files, faults, Targets(base, arts[i..]))
    decreases |arts| - i
  {
    if i == |arts| {
      assert Removed(files, faults, {}) == files;
    } else {
      var d := DeleteArtifactSpec(files, faults, base, arts[i]);
      var failed' := if d.result.Err? then failed + [d.result.error] else failed;
      assert DeleteVersionFrom(files, faults, base, arts, i, failed) == DeleteVersionFrom(d.files, faults, base, arts, i + 1, failed');
      DeleteArtifactOutcome(files, faults, base, arts[i]);
      DeleteVersionFromFiles(d.files, faults, base, arts, i + 1, failed');
      SweepStep(faults, base, arts, i);
      RemovedTwice(files, faults, Target(base, arts[i]), Targets(base, arts[i + 1..]));
    }
  }

  /** The failures and targets of a suffix, one artifact at a time. */
  lemma SweepStep(faults: Faults, base: Path, arts: seq<ModArtifact>, i: nat)
    requires i < |arts|
    ensures var f := DeleteFailure(faults, base, arts[i]);
      Failures(faults, base, arts[i..]) == (if f.Some? then [f.value] else []) + Failures(faults, base, arts[i + 1..])
    ensures Targets(base, arts[i..]) == Target(base, arts[i]) + Targets(base, arts[i + 1..])
  {
    assert arts[i..][0] == arts[i] && arts[i..][1..] == arts[i + 1..];
  }

  /** No failure is collected exactly when every artifact resolves and none of their removals hits a hard fault. */
  lemma {:induction false} FailuresEmptyIff(faults: Faults, base: Path, arts: seq<ModArtifact>)
    ensures Failures(faults, base, arts) == [] <==>
      forall k :: 0 <= k < |arts| ==> DestWithin(arts[k], base).Ok? && !HardFault(faults, DestWithin(arts[k], base).value)
  {
    if arts != [] {
      FailuresEmptyIff(faults, base, arts[1..]);
      assert forall k :: 1 <= k < |arts| ==> arts[1..][k - 1] == arts[k];
    }
  }

  /** Exactly the resolved paths of the list's artifacts are targeted. */
  lemma {:induction false} TargetsMembers(base: Path, arts: seq<ModArtifact>, q: Path)
    ensures q in Targets(base, arts) <==> exists k :: 0 <= k < |arts| && DestWithin(arts[k], base) == Ok(q)
  {
    if arts != [] {
      TargetsMembers(base, arts[1..], q);
      if q in Targets(base, arts[1..]) {
        var k :| 0 <= k < |arts[1..]| && DestWithin(arts[1..][k], base) == Ok(q);
        assert DestWithin(arts[k + 1], base) == Ok(q);
      }
      if exists k :: 0 <= k < |arts| && DestWithin(arts[k], base) == Ok(q) {
        var k :| 0 <= k < |arts| && DestWithin(arts[k], base) == Ok(q);
        if k > 0 {
          assert DestWithin(arts[1..][k - 1], base) == Ok(q);
        }
      }
    }
  }

  /** `Deleter::delete_version`: Ok exactly when no artifact failed; otherwise every failure, in artifact order. */
  function DeleteVersionSpec(files: Files, faults: Faults, base: Path, v: ModVersion): (Result<(), seq<ArtifactError>>, Files) {
    var s := DeleteVersionFrom(files, faults, base, v.artifacts, 0, []);
    (if s.failed == [] then Ok(()) else Err(s.failed), s.files)
  }

  /**
   * Deleting a version attempts every artifact even after failures: it succeeds
   * exactly when every artifact resolves and no removal hits a hard fault, it
   * otherwise reports each artifact's failure in artifact order, and it removes
   * every resolvable artifact's file whose removal is not made to fail.
   */
  lemma DeleteVersionOutcome(files: Files, faults: Faults, base: Path, v: ModVersion)
    ensures DeleteVersionSpec(files, faults, base, v).0.Ok? <==>
      forall k :: 0 <= k < |v.artifacts| ==> DestWithin(v.artifacts[k], base).Ok? && !HardFault(faults, DestWithin(v.artifacts[k], base).value)
    ensures DeleteVersionSpec(files, faults, base, v).0.Err? ==> DeleteVersionSpec(files, faults, base, v).0.error == Failures(faults, base, v.artifacts)
    ensures DeleteVersionSpec(files, faults, base, v).1 == Removed(files, faults, Targets(base, v.artifacts))
  {
    DeleteVersionFromSweeps(files, faults, base, v.artifacts, 0, []);
    FailuresEmptyIff(faults, base, v.artifacts);
    assert v.artifacts[0..] == v.artifacts;
  }

  // ---- Deleting what a new version no longer has ----

  /** Resolving every artifact's path: the set of paths, or the first resolution error in list order. */
  function ResolveAll(base: Path, arts: seq<ModArtifact>): (r: Result<set<Path>, Error>)
    ensures r.Ok? ==> r.value == Targets(base, arts)
    ensures r.Ok? <==> forall k :: 0 <= k < |arts| ==> DestWithin(arts[k], base).Ok?
  {
    if arts == [] then Ok({})
    else
      assert forall k :: 1 <= k < |arts| ==> arts[1..][k - 1] == arts[k];
      match DestWithin(arts[0], base)
      case Err(e) => Err(e)
      case Ok(p) =>
        match ResolveAll(base, arts[1..])
        case Err(e) => Err(e)
        case Ok(rest) => Ok({p} + rest)
  }

  /** The errors of removing the paths of `ps` in that order: one per hard fault. */
  function HardErrors(faults: Faults, ps: seq<Path>): seq<ArtifactError> {
    if ps == [] then []
    else if HardFault(faults, ps[0]) then [ArtifactError(Delete, Some(ps[0]), Io(faults[(RemoveOp, ps[0])]))] + HardErrors(faults, ps[1..])
    else HardErrors(faults, ps[1..])
  }

  /** `order` lists every element of `s` exactly once. */
  predicate IsEnumeration(order: seq<Path>, s: set<Path>) {
    && (forall q :: q in s ==> q in order)
    && (forall i :: 0 <= i < |order| ==> order[i] in s)
    && (forall i, j :: 0 <= i < j < |order| ==> order[i] != order[j])
  }

  /**
   * The errors of an enumeration name each hard-faulted path once, with its
   * fault, and nothing else.
   */
  lemma {:induction false} HardErrorsCover(faults: Faults, ps: seq<Path>)
    requires forall i, j :: 0 <= i < j < |ps| ==> ps[i] != ps[j]
    ensures forall e :: e in HardErrors(faults, ps) ==>
      e.action == Delete && e.path.Some? && e.path.value in ps && HardFault(faults, e.path.value)
      && e.source == Io(faults[(RemoveOp, e.path.value)])
    ensures forall p :: p in ps && HardFault(faults, p) ==> exists e :: e in HardErrors(faults, ps) && e.path == Some(p)
    ensures forall i, j :: 0 <= i < j < |HardErrors(faults, ps)| ==> HardErrors(faults, ps)[i].path != HardErrors(faults, ps)[j].path
    ensures HardErrors(faults, ps) == [] <==> forall p :: p in ps ==> !HardFault(faults, p)
  {
    if ps != [] {
      var rest := ps[1..];
      assert forall i, j :: 0 <= i < j < |rest| ==> rest[i] != rest[j] by {
        forall i, j | 0 <= i < j < |rest| ensures rest[i] != rest[j] {
          assert rest[i] == ps[i + 1] && rest[j] == ps[j + 1];
        }
      }
      HardErrorsCover(faults, rest);
      assert ps[0] !in rest by {
        forall i | 0 <= i < |rest| ensures rest[i] != ps[0] {
          assert rest[i] == ps[i + 1];
        }
      }
      assert forall p :: p in ps ==> p == ps[0] || p in rest;
      forall p | p in ps && HardFault(faults, p) ensures exists e :: e in HardErrors(faults, ps) && e.path == Some(p) {
        if p == ps[0] {
          var e := ArtifactError(Delete, Some(p), Io(faults[(RemoveOp, p)]));
          assert HardErrors(faults, ps)[0] == e;
        } else {
          var e :| e in HardErrors(faults, rest) && e.path == Some(p);
          assert HardErrors(faults, ps) == HardErrors(faults, rest)
            || HardErrors(faults, ps) == [ArtifactError(Delete, Some(ps[0]), Io(faults[(RemoveOp, ps[0])]))] + HardErrors(faults, rest);
          assert e in HardErrors(faults, ps);
        }
      }
    }
  }

  /** Removing a path that is not in `targets`' complement twice over: a single removal step as `Removed`. */
  lemma RemoveOne(files: Files, faults: Faults, done: set<Path>, p: Path)
    ensures DeleteSpec(Removed(files, faults, done), faults, p, true).files == Removed(files, faults, done + {p})
  {
    var f := Removed(files, faults, done);
    var d := DeleteSpec(f, faults, p, true);
    if d.result == Ok(true) {
      assert d.files == f - {p};
    }
    RemovedTwice(files, faults, done, {p});
  }

  /** A path not in `targets` is left as it was. */
  lemma RemovedSpares(files: Files, faults: Faults, targets: set<Path>, q: Path)
    requires q !in targets
    ensures SameAt(Removed(files, faults, targets), files, q)
  {
  }

  // ---- The engine ----

  /** `Deleter`: the base directory artifacts are installed under. */
  class Deleter {
    var baseDest: Path

    constructor(base: Path)
      ensures baseDest == base
    {
      baseDest := base;
    }

    /** `Deleter::delete_artifact`. */
    method DeleteArtifact(fs: FileSystem, a: ModArtifact) returns (r: Result<Path, ArtifactError>)
      modifies fs
      ensures Removal(r, fs.files) == DeleteArtifactSpec(old(fs.files), fs.faults, baseDest, a)
    {
      var resolved := MapPathlessArtifactErr(DestWithin(a, baseDest), Delete);
      if resolved.Err? {
        return Err(resolved.error);
      }
      var path := resolved.value;
      var deleted := DeleteArtifactFile(fs, path, true);
      if deleted.Err? {
        return Err(deleted.error);
      }
      r := Ok(path);
    }

    /** `Deleter::delete_version`. */
    method DeleteVersion(fs: FileSystem, v: ModVersion) returns (r: Result<(), seq<ArtifactError>>)
      modifies fs
      ensures (r, fs.files) == DeleteVersionSpec(old(fs.files), fs.faults, baseDest, v)
    {
      ghost var sweep := DeleteVersionFrom(fs.files, fs.faults, baseDest, v.artifacts, 0, []);
      var failed := new ArtifactErrorVec();
      var i := 0;
      while i < |v.artifacts|
        invariant i <= |v.artifacts|
        invariant DeleteVersionFrom(fs.files, fs.faults, baseDest, v.artifacts, i, failed.errors) == sweep
      {
        var res := DeleteArtifact(fs, v.artifacts[i]);
        if res.Err? {
          failed.Push(res.error);
        }
        i := i + 1;
      }
      if failed.IsEmpty() {
        r := Ok(());
      } else {
        r := Err(failed.errors);
      }
    }

    /**
     * `Deleter::delete_artifacts_diff`: resolve the new artifacts' paths, then
     * the old ones', returning the first resolution error before anything is
     * deleted; then delete each old path the new artifacts do not have, in an
     * unspecified order, collecting the failures.
     */
    method DeleteArtifactsDiff(fs: FileSystem, oldArts: seq<ModArtifact>, newArts: seq<ModArtifact>) returns (r: Result<(), Error>)
      modifies fs
      ensures ResolveAll(baseDest, newArts).Err? ==> r == Err(ResolveAll(baseDest, newArts).error) && fs.files == old(fs.files)
      ensures ResolveAll(baseDest, newArts).Ok? && ResolveAll(baseDest, oldArts).Err? ==>
        r == Err(ResolveAll(baseDest, oldArts).error) && fs.files == old(fs.files)
      ensures ResolveAll(baseDest, newArts).Ok? && ResolveAll(baseDest, oldArts).Ok? ==>
        var diff := Targets(baseDest, oldArts) - Targets(baseDest, newArts);
        && fs.files == Removed(old(fs.files), fs.faults, diff)
        && (r.Ok? <==> forall p :: p in diff ==> !HardFault(fs.faults, p))
        && (r.Err? ==> r.error.Artifacts? && exists order :: IsEnumeration(order, diff) && r.error.errors == HardErrors(fs.faults, order))
    {
      var newPaths := ResolveAll(baseDest, newArts);
      if newPaths.Err? {
        return Err(newPaths.error);
      }
      var oldPaths := ResolveAll(baseDest, oldArts);
      if oldPaths.Err? {
        return Err(oldPaths.error);
      }
      var unnecessary := oldPaths.value - newPaths.value;
      var failed := DeletePaths(fs, unnecessary);
      if failed == [] {
        r := Ok(());
      } else {
        r := Err(Artifacts(failed));
      }
    }
  }

  /**
   * The loop of `delete_artifacts_diff`: delete each path of the set, in an
   * unspecified order, missing files tolerated, collecting the failures.
   */
  method DeletePaths(fs: FileSystem, paths: set<Path>) returns (failed: seq<ArtifactError>)
    modifies fs
    ensures fs.files == Removed(old(fs.files), fs.faults, paths)
    ensures failed == [] <==> forall p :: p in paths ==> !HardFault(fs.faults, p)
    ensures exists order :: IsEnumeration(order, paths) && failed == HardErrors(fs.faults, order)
  {
    ghost var files0 := fs.files;
    ghost var visited: seq<Path> := [];
    var errors := new ArtifactErrorVec();
    var rest := paths;
    while rest != {}
      invariant rest <= paths
      invariant forall q :: q in paths ==> q in rest || q in visited
      invariant forall i :: 0 <= i < |visited| ==> visited[i] in paths && visited[i] !in rest
      invariant forall i, j :: 0 <= i < j < |visited| ==> visited[i] != visited[j]
      invariant fs.files == Removed(files0, fs.faults, paths - rest)
      invariant errors.errors == HardErrors(fs.faults, visited)
      decreases rest
    {
      var p :| p in rest;
      RemoveOne(files0, fs.faults, paths - rest, p);
      assert paths - rest + {p} == paths - (rest - {p});
      var res := DeleteArtifactFile(fs, p, true);
      if res.Err? {
        errors.Push(res.error);
      }
      HardErrorsAppend(fs.faults, visited, p);
      visited := visited + [p];
      rest := rest - {p};
    }
    assert IsEnumeration(visited, paths);
    HardErrorsCover(fs.faults, visited);
    failed := errors.errors;
  }

  /** The errors of a longer enumeration extend those of the shorter one. */
  lemma {:induction false} HardErrorsAppend(faults: Faults, ps: seq<Path>, p: Path)
    ensures HardErrors(faults, ps + [p]) ==
      HardErrors(faults, ps) + (if HardFault(faults, p) then [ArtifactError(Delete, Some(p), Io(faults[(RemoveOp, p)]))] else [])
  {
    if ps != [] {
      assert (ps + [p])[1..] == ps[1..] + [p];
      HardErrorsAppend(faults, ps[1..], p);
    }
  }

  /** A path the new artifacts still have is never touched by the diff deletion. */
  lemma DiffSparesNew(files: Files, faults: Faults, base: Path, oldArts: seq<ModArtifact>, newArts: seq<ModArtifact>, q: Path)
    requires q in Targets(base, newArts)
    ensures SameAt(Removed(files, faults, Targets(base, oldArts) - Targets(base, newArts)), files, q)
  {
    RemovedSpares(files, faults, Targets(base, oldArts) - Targets(base, newArts), q);
  }
}
