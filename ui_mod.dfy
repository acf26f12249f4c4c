/**
 * The front end's view of a mod: its versions ordered newest first by semver
 * precedence, the installed version looked up by its semver key, and the
 * derived getters the mod list shows (latest version, update available, status
 * for sorting, text colour), plus the markers for mods and versions that were
 * found on disk but are not in the manifest, and the filename and install
 * location an artifact would get.
 *
 * Each version carries its semver text and that text's parsed form; the
 * version-map key the front end sorts by is the version's own semver, as the
 * catalog builds it.
 */
module UiMod {
  import opened Wrappers
  import opened SemVer

  /** The id prefix of mods found on disk that the manifest does not list. */
  const UnrecognizedPrefix: string := "dev.gawdl3y.resolute.unrecognized"

  /** The semver of a version standing for an unrecognized file. */
  const UnknownSemver: string := "0.0.0-unknown"

  datatype ArtifactView = ArtifactView(url: string, pathname: string, sha256: string, filename: Option<string>, installLocation: Option<string>)

  datatype VersionView = VersionView(semver: string, precedence: Version, artifacts: seq<ArtifactView>)

  /** The mod data as it arrives: versions in their key order, the installed version's key if any. */
  datatype ModData = ModData(id: string, category: string, flags: Option<seq<string>>, versions: seq<VersionView>, installedVersion: Option<string>, active: bool)

  /** `ResoluteMod` as the front end builds it. */
  datatype ModView = ModView(id: string, category: string, flags: Option<seq<string>>, versions: seq<VersionView>, installedVersion: Option<VersionView>, active: bool)

  // ---- Ordering the versions ----

  /** Newest first: no version is followed by one of higher precedence. */
  predicate Descending(vs: seq<VersionView>) {
    forall i, j :: 0 <= i < j < |vs| ==> Compare(vs[i].precedence, vs[j].precedence) >= 0
  }

  /** `x` has at least the precedence of every version of `s`. */
  predicate Dominates(x: VersionView, s: seq<VersionView>) {
    forall k :: 0 <= k < |s| ==> Compare(x.precedence, s[k].precedence) >= 0
  }

  lemma DescendingCons(x: VersionView, s: seq<VersionView>)
    ensures Descending([x] + s) <==> Dominates(x, s) && Descending(s)
  {
    var xs := [x] + s;
    if Dominates(x, s) && Descending(s) {
      forall i, j | 0 <= i < j < |xs|
        ensures Compare(xs[i].precedence, xs[j].precedence) >= 0
      {
        assert xs[j] == s[j - 1];
        if i > 0 {
          assert xs[i] == s[i - 1];
        } else {
          assert xs[i] == x;
        }
      }
    }
    if Descending(xs) {
      forall i, j | 0 <= i < j < |s|
        ensures Compare(s[i].precedence, s[j].precedence) >= 0
      {
        assert xs[i + 1] == s[i] && xs[j + 1] == s[j];
      }
      forall k | 0 <= k < |s|
        ensures Compare(x.precedence, s[k].precedence) >= 0
      {
        assert xs[0] == x && xs[k + 1] == s[k];
      }
    }
  }

  /** Dominating a list is dominating any rearrangement of it. */
  lemma DominatesPermutation(x: VersionView, s: seq<VersionView>, t: seq<VersionView>)
    requires Dominates(x, s) && multiset(t) == multiset(s)
    ensures Dominates(x, t)
  {
    forall k | 0 <= k < |t|
      ensures Compare(x.precedence, t[k].precedence) >= 0
    {
      assert t[k] in multiset(s);
      var m :| 0 <= m < |s| && s[m] == t[k];
    }
  }

  /** Puts `v` into a newest-first list, before the first version it outranks. */
  function Insert(v: VersionView, vs: seq<VersionView>): seq<VersionView> {
    if vs == [] then [v]
    else if Compare(v.precedence, vs[0].precedence) > 0 then [v] + vs
    else [vs[0]] + Insert(v, vs[1..])
  }

  /** Inserting keeps a list newest first and adds exactly `v`. */
  lemma {:induction false} InsertSorted(v: VersionView, vs: seq<VersionView>)
    requires Descending(vs)
    ensures Descending(Insert(v, vs))
    ensures multiset(Insert(v, vs)) == multiset(vs) + multiset{v}
  {
    InsertPermutes(v, vs);
    if vs != [] {
      assert vs == [vs[0]] + vs[1..];
      DescendingCons(vs[0], vs[1..]);
      if Compare(v.precedence, vs[0].precedence) > 0 {
        OutranksHead(v, vs);
        DescendingCons(v, vs);
      } else {
        var rest := Insert(v, vs[1..]);
        InsertSorted(v, vs[1..]);
        CompareAntisymmetric(v.precedence, vs[0].precedence);
        assert Dominates(vs[0], vs[1..] + [v]);
        DominatesPermutation(vs[0], vs[1..] + [v], rest);
        DescendingCons(vs[0], rest);
      }
    }
  }

  lemma {:induction false} InsertPermutes(v: VersionView, vs: seq<VersionView>)
    ensures multiset(Insert(v, vs)) == multiset(vs) + multiset{v}
  {
    if vs != [] && Compare(v.precedence, vs[0].precedence) <= 0 {
      InsertPermutes(v, vs[1..]);
      assert vs == [vs[0]] + vs[1..];
    }
  }

  /** A version newer than the head of a newest-first list is at least as new as all of it. */
  lemma OutranksHead(v: VersionView, vs: seq<VersionView>)
    requires Descending(vs) && vs != [] && Compare(v.precedence, vs[0].precedence) > 0
    ensures Dominates(v, vs)
  {
    forall k | 0 <= k < |vs|
      ensures Compare(v.precedence, vs[k].precedence) >= 0
    {
      CompareAntisymmetric(v.precedence, vs[0].precedence);
      CompareAntisymmetric(vs[0].precedence, vs[k].precedence);
      CompareTransitive(vs[k].precedence, vs[0].precedence, v.precedence);
      CompareAntisymmetric(vs[k].precedence, v.precedence);
    }
  }

  /** The versions sorted by descending precedence (`sort` with the negated `compare`). */
  function SortDescending(vs: seq<VersionView>): (r: seq<VersionView>)
    ensures Descending(r)
    ensures multiset(r) == multiset(vs)
  {
    if vs == [] then []
    else
      assert vs == [vs[0]] + vs[1..];
      InsertSorted(vs[0], SortDescending(vs[1..]));
      Insert(vs[0], SortDescending(vs[1..]))
  }

  /** The version stored under a semver key, if any. */
  function Lookup(vs: seq<VersionView>, key: string): (r: Option<VersionView>)
    ensures r.Some? ==> r.value in vs && r.value.semver == key
    ensures r.None? ==> forall i :: 0 <= i < |vs| ==> vs[i].semver != key
  {
    if vs == [] then None
    else if vs[0].semver == key then Some(vs[0])
    else Lookup(vs[1..], key)
  }

  /** Rearrangements hold the same versions. */
  lemma SameElements(a: seq<VersionView>, b: seq<VersionView>)
    requires multiset(a) == multiset(b)
    ensures forall v :: v in a <==> v in b
  {
    forall v
      ensures v in a <==> v in b
    {
      assert v in a <==> v in multiset(a);
      assert v in b <==> v in multiset(b);
    }
  }

  /** A key no version of `a` has is a key no version of `b` has when both hold the same versions. */
  lemma LookupMisses(a: seq<VersionView>, b: seq<VersionView>, key: string)
    requires forall v :: v in a <==> v in b
    ensures (forall i :: 0 <= i < |a| ==> a[i].semver != key) ==> (forall i :: 0 <= i < |b| ==> b[i].semver != key)
  {
    if forall i :: 0 <= i < |a| ==> a[i].semver != key {
      forall i | 0 <= i < |b|
        ensures b[i].semver != key
      {
        assert b[i] in a;
      }
    }
  }

  /**
   * The `ResoluteMod` constructor: versions newest first, and the installed
   * version looked up by its key; an absent or empty key, or a key no version
   * has, leaves it null.
   */
  function NewModView(data: ModData): (m: ModView)
    ensures Descending(m.versions) && multiset(m.versions) == multiset(data.versions)
    ensures m.installedVersion.Some? <==>
      data.installedVersion.Some? && data.installedVersion.value != "" && exists i :: 0 <= i < |data.versions| && data.versions[i].semver == data.installedVersion.value
    ensures m.installedVersion.Some? ==> m.installedVersion.value in data.versions && m.installedVersion.value.semver == data.installedVersion.value
  {
    var sorted := SortDescending(data.versions);
    var key := if data.installedVersion.Some? then data.installedVersion.value else "";
    var installed := if key != "" then Lookup(sorted, key) else None;
    SameElements(sorted, data.versions);
    LookupMisses(sorted, data.versions, key);
    ModView(data.id, data.category, data.flags, sorted, installed, data.active)
  }

  // ---- Getters ----

  /** `isUnrecognized` of a mod. */
  predicate IsUnrecognizedMod(m: ModView) {
    UnrecognizedPrefix <= m.id
  }

  /** `isDeprecated`. */
  predicate IsDeprecated(m: ModView) {
    m.flags.Some? && "deprecated" in m.flags.value
  }

  /** `latestVersion`: the first version, which outranks or equals every other; none without versions. */
  function LatestVersion(m: ModView): (r: Option<VersionView>)
    ensures r.Some? <==> m.versions != []
    ensures r.Some? ==> r.value in m.versions
    ensures r.Some? && Descending(m.versions) ==> forall k :: 0 <= k < |m.versions| ==> Compare(r.value.precedence, m.versions[k].precedence) >= 0
  {
    if m.versions == [] then None
    else
      CompareAntisymmetric(m.versions[0].precedence, m.versions[0].precedence);
      Some(m.versions[0])
  }

  /** `hasUpdate`: something is installed and it ranks below the latest version. */
  predicate HasUpdate(m: ModView) {
    && m.installedVersion.Some?
    && LatestVersion(m).Some?
    && Less(m.installedVersion.value.precedence, LatestVersion(m).value.precedence)
  }

  /** `versionTextClass`. */
  function VersionTextClass(m: ModView): (r: string)
    ensures m.installedVersion.None? ==> r == ""
    ensures m.installedVersion.Some? && IsUnrecognizedMod(m) ==> r == "text-blue"
    ensures m.installedVersion.Some? && !IsUnrecognizedMod(m) ==> (r == "text-warning" <==> HasUpdate(m))
    ensures r in {"", "text-blue", "text-warning", "text-success"}
  {
    if m.installedVersion.None? then ""
    else if IsUnrecognizedMod(m) then "text-blue"
    else if HasUpdate(m) then "text-warning"
    else "text-success"
  }

  /** `sortableVersionStatus`: 0 with an update available, else 1 when installed, else 2. */
  function SortableVersionStatus(m: ModView): (r: nat)
    ensures r <= 2
    ensures r == 0 <==> HasUpdate(m)
    ensures r == 2 <==> m.installedVersion.None?
  {
    if HasUpdate(m) then 0 else if m.installedVersion.Some? then 1 else 2
  }

  /**
   * For a mod built by the constructor, an update is available exactly when the
   * installed version does not have the highest precedence among the versions:
   * it is false when the installed version is the latest.
   */
  lemma HasUpdateIff(data: ModData)
    ensures var m := NewModView(data);
      HasUpdate(m) <==> m.installedVersion.Some? && exists v :: v in data.versions && Less(m.installedVersion.value.precedence, v.precedence)
  {
    var m := NewModView(data);
    if m.installedVersion.Some? {
      var inst := m.installedVersion.value;
      var latest := LatestVersion(m).value;
      assert latest in data.versions by {
        assert latest in multiset(m.versions);
      }
      if exists v :: v in data.versions && Less(inst.precedence, v.precedence) {
        var v :| v in data.versions && Less(inst.precedence, v.precedence);
        SameElements(m.versions, data.versions);
        var j :| 0 <= j < |m.versions| && m.versions[j] == v;
        assert Compare(latest.precedence, v.precedence) >= 0;
        LessThanAtLeast(inst.precedence, v.precedence, latest.precedence);
      }
    }
  }

  /** When the installed version is the latest one, no update is shown. */
  lemma NoUpdateAtLatest(data: ModData)
    requires NewModView(data).installedVersion.Some?
    requires NewModView(data).installedVersion == LatestVersion(NewModView(data))
    ensures !HasUpdate(NewModView(data))
    ensures SortableVersionStatus(NewModView(data)) == 1
  {
    var m := NewModView(data);
    CompareAntisymmetric(m.installedVersion.value.precedence, m.installedVersion.value.precedence);
  }

  // ---- Versions and artifacts ----

  /** `ModVersion.isUnrecognized`. */
  predicate IsUnrecognizedVersion(v: VersionView) {
    v.semver == UnknownSemver
  }

  /** `ModVersion.label`: "Unknown" for the unrecognized version, the semver otherwise. */
  function Label(v: VersionView): (r: string)
    ensures IsUnrecognizedVersion(v) ==> r == "Unknown"
    ensures !IsUnrecognizedVersion(v) ==> r == v.semver
  {
    if IsUnrecognizedVersion(v) then "Unknown" else v.semver
  }

  /** `lastIndexOf('/')`: the index of the last '/', or -1 when there is none. */
  function LastSlash(s: string): (r: int)
    ensures -1 <= r < |s|
    ensures r >= 0 ==> s[r] == '/'
    ensures forall k :: r < k < |s| ==> s[k] != '/'
  {
    if s == [] then -1
    else if s[|s| - 1] == '/' then |s| - 1
    else LastSlash(s[..|s| - 1])
  }

  /** `inferredFilename`: the URL path after its last '/'. */
  function InferredFilename(a: ArtifactView): (r: string)
    ensures '/' !in r
    ensures exists k :: 0 <= k <= |a.pathname| && a.pathname == a.pathname[..k] + r && (k == 0 || a.pathname[k - 1] == '/')
    ensures |a.pathname| > 0 && a.pathname[|a.pathname| - 1] == '/' ==> r == ""
  {
    var k := LastSlash(a.pathname) + 1;
    assert a.pathname == a.pathname[..k] + a.pathname[k..];
    assert forall c :: c in a.pathname[k..] ==> c != '/';
    a.pathname[k..]
  }

  /** `inferredInstallLocation`: "/Libraries" for plugins, "/rml_mods" for everything else. */
  function InferredInstallLocation(category: string): (r: string)
    ensures r == "/Libraries" <==> category == "Plugins"
    ensures r == "/Libraries" || r == "/rml_mods"
  {
    if category == "Plugins" then "/Libraries" else "/rml_mods"
  }
}
