/**
 * The crate's error type and the artifact errors that wrap it, with the
 * messages their `Display` implementations produce. Errors raised by foreign
 * crates (reqwest, tokio, serde_json, semver, steamlocate, the database) carry
 * their own rendered text as `detail`.
 */
module Errors {
  import opened Seqs
  import opened Wrappers
  import opened StdPath
  import opened Mods

  /** The `std::io::ErrorKind`s the engine distinguishes. */
  datatype IoKind = NotFound | AlreadyExists | PermissionDenied | InvalidData | OtherIo

  datatype ArtifactAction = Download | Delete | Rename

  datatype Error =
    | Request(detail: string)
    | Http(status: nat)
    | Io(kind: IoKind)
    | Task(detail: string)
    | PathError(message: string)
    | UrlError(message: string)
    | SemverError(detail: string)
    | Json(detail: string)
    | Checksum(checksum: string, expected: string, file: string)
    | UnknownVersion(modId: string, version: string)
    | ModNotInstalled(rmod: ResoluteMod)
    | Artifact(artifactError: ArtifactError)
    | Artifacts(errors: seq<ArtifactError>)
    | NoOldArtifact
    | Discovery(detail: string)
    | Database(detail: string)
    | ItemNotFound(item: string)

  /** An action on an artifact that failed, the file involved when known, and the cause. */
  datatype ArtifactError = ArtifactError(action: ArtifactAction, path: Option<Path>, source: Error)

  /** `ArtifactError::new`. */
  function NewArtifactError(action: ArtifactAction, path: Path, source: Error): ArtifactError {
    ArtifactError(action, Some(path), source)
  }

  /** `ArtifactError::new_pathless`. */
  function NewPathlessArtifactError(action: ArtifactAction, source: Error): ArtifactError {
    ArtifactError(action, None, source)
  }

  /** The `Display` label of an action. */
  function ActionLabel(a: ArtifactAction): (r: string)
    ensures r in {"download", "delete", "rename"}
  {
    match a
    case Download => "download"
    case Delete => "delete"
    case Rename => "rename"
  }

  /** Distinct actions are displayed differently, so the label identifies the action. */
  lemma ActionLabelInjective(a: ArtifactAction, b: ArtifactAction)
    ensures ActionLabel(a) == ActionLabel(b) <==> a == b
  {
  }

  function DigitChar(d: nat): char
    requires d < 10
  {
    "0123456789"[d]
  }

  /** Decimal rendering of a natural number. */
  function NatText(n: nat): (r: string)
    ensures |r| > 0
    ensures forall i :: 0 <= i < |r| ==> '0' <= r[i] <= '9'
  {
    if n < 10 then [DigitChar(n)] else NatText(n / 10) + [DigitChar(n % 10)]
  }

  /** Rendering of a path with '/' separators (`Path::display`). */
  function PathText(p: Path): string {
    (if p.rooted then "/" else "") + JoinWith(p.parts, "/")
  }

  function JoinWith(items: seq<string>, sep: string): string {
    if items == [] then ""
    else if |items| == 1 then items[0]
    else items[0] + sep + JoinWith(items[1..], sep)
  }

  function IoKindText(k: IoKind): string {
    match k
    case NotFound => "entity not found"
    case AlreadyExists => "entity already exists"
    case PermissionDenied => "permission denied"
    case InvalidData => "invalid data"
    case OtherIo => "other error"
  }

  /** The message of each error variant. */
  function Describe(e: Error): string
    decreases e, 2
  {
    match e
    case Request(d) => "http connection failed: " + d
    case Http(s) => "http request resulted in a non-successful (not 2xx) status: " + NatText(s)
    case Io(k) => "io error: " + IoKindText(k)
    case Task(d) => "task error: " + d
    case PathError(m) => "unable to process path: " + m
    case UrlError(m) => "unable to parse url: " + m
    case SemverError(d) => "unable to parse semver: " + d
    case Json(d) => "json error: " + d
    case Checksum(checksum, expected, file) =>
      "checksum error for " + file + ": calculated hash " + checksum + " doesn't match expected hash " + expected
    case UnknownVersion(id, v) => "unknown version \"" + v + "\" for mod \"" + id + "\""
    case ModNotInstalled(m) => "mod \"" + m.id + "\" isn't installed"
    case Artifact(ae) => "artifact error: " + DescribeArtifactError(ae)
    case Artifacts(errs) => "multiple artifact errors: " + DescribeErrorVec(errs)
    case NoOldArtifact => "no old artifact exists to delete"
    case Discovery(d) => "resonite discovery error: " + d
    case Database(d) => "database error: " + d
    case ItemNotFound(i) => "item not found in database: " + i
  }

  /** The detail a variant's message shows after its fixed text, for the variants that show one. */
  function Shown(e: Error): Option<string> {
    match e
    case Request(d) => Some(d)
    case Http(s) => Some(NatText(s))
    case Io(k) => Some(IoKindText(k))
    case Task(d) => Some(d)
    case PathError(m) => Some(m)
    case UrlError(m) => Some(m)
    case SemverError(d) => Some(d)
    case Json(d) => Some(d)
    case Artifact(ae) => Some(DescribeArtifactError(ae))
    case Artifacts(errs) => Some(DescribeErrorVec(errs))
    case Discovery(d) => Some(d)
    case Database(d) => Some(d)
    case ItemNotFound(i) => Some(i)
    case _ => None
  }

  /** The fixed text in front of the detail a variant shows. */
  function Fixed(e: Error): string {
    match e
    case Request(_) => "http connection failed: "
    case Http(_) => "http request resulted in a non-successful (not 2xx) status: "
    case Io(_) => "io error: "
    case Task(_) => "task error: "
    case PathError(_) => "unable to process path: "
    case UrlError(_) => "unable to parse url: "
    case SemverError(_) => "unable to parse semver: "
    case Json(_) => "json error: "
    case Artifact(_) => "artifact error: "
    case Artifacts(_) => "multiple artifact errors: "
    case Discovery(_) => "resonite discovery error: "
    case Database(_) => "database error: "
    case _ => "item not found in database: "
  }

  /** A message that shows a detail is a fixed text ending in ": ", then exactly that detail. */
  lemma DescribeShowsDetail(e: Error)
    requires Shown(e).Some?
    ensures var t, d := Describe(e), Shown(e).value;
      |t| >= |d| + 2 && t[|t| - |d|..] == d && t[|t| - |d| - 2] == ':' && t[|t| - |d| - 1] == ' '
  {
    DescribeIsFixedThenShown(e);
    FixedEndsInColon(e);
    FixedThenDetail(Fixed(e), Shown(e).value);
  }

  lemma DescribeIsFixedThenShown(e: Error)
    requires Shown(e).Some?
    ensures Describe(e) == Fixed(e) + Shown(e).value
  {
    if e.Request? || e.Http? || e.Io? || e.Task? || e.PathError? || e.UrlError? {
      FixedThenShownFirst(e);
    } else {
      FixedThenShownRest(e);
    }
  }

  lemma FixedThenShownFirst(e: Error)
    requires e.Request? || e.Http? || e.Io? || e.Task? || e.PathError? || e.UrlError?
    ensures Describe(e) == Fixed(e) + Shown(e).value
  {
  }

  lemma FixedThenShownRest(e: Error)
    requires Shown(e).Some?
    requires !(e.Request? || e.Http? || e.Io? || e.Task? || e.PathError? || e.UrlError?)
    ensures Describe(e) == Fixed(e) + Shown(e).value
  {
  }

  lemma FixedEndsInColon(e: Error)
    ensures var f := Fixed(e); |f| >= 2 && f[|f| - 2] == ':' && f[|f| - 1] == ' '
  {
  }

  lemma FixedThenDetail(fixed: string, d: string)
    requires |fixed| >= 2 && fixed[|fixed| - 2] == ':' && fixed[|fixed| - 1] == ' '
    ensures var t := fixed + d;
      |t| >= |d| + 2 && t[|t| - |d|..] == d && t[|t| - |d| - 2] == ':' && t[|t| - |d| - 1] == ' '
  {
    ConcatParts(fixed, d);
  }

  /** `Display for ArtifactError`: the action and file when a path is known, else only the cause. */
  function DescribeArtifactError(ae: ArtifactError): string
    decreases ae, 1
  {
    match ae.path
    case Some(p) => "artifact " + ActionLabel(ae.action) + " error for file (" + PathText(p) + "): " + Describe(ae.source)
    case None => "artifact error: " + Describe(ae.source)
  }

  /** The element texts of an error list, in order. */
  function DescribeEach(errs: seq<ArtifactError>): (r: seq<string>)
    ensures |r| == |errs|
    decreases errs, 0
  {
    if errs == [] then [] else [DescribeArtifactError(errs[0])] + DescribeEach(errs[1..])
  }

  /** `Display for ArtifactErrorVec`: the element texts joined by ", " inside brackets. */
  function DescribeErrorVec(errs: seq<ArtifactError>): string
    decreases errs, 1
  {
    "[" + JoinWith(DescribeEach(errs), ", ") + "]"
  }

  /**
   * Every artifact error's text starts with "artifact " and ends with its cause's
   * text; the action label appears right after that prefix exactly when the path is known.
   */
  lemma ArtifactErrorTextShape(ae: ArtifactError)
    ensures var t := DescribeArtifactError(ae);
      && |t| > 9 && t[..9] == "artifact "
      && |t| >= |Describe(ae.source)| && t[|t| - |Describe(ae.source)|..] == Describe(ae.source)
      && (ae.path.Some? <==> t[9..][..|ActionLabel(ae.action)|] == ActionLabel(ae.action))
  {
    if ae.path.Some? {
      TextShapeWithPath(ae);
    } else {
      TextShapeWithoutPath(ae);
    }
  }

  lemma TextShapeWithPath(ae: ArtifactError)
    requires ae.path.Some?
    ensures var t := DescribeArtifactError(ae);
      && |t| > 9 && t[..9] == "artifact "
      && |t| >= |Describe(ae.source)| && t[|t| - |Describe(ae.source)|..] == Describe(ae.source)
      && t[9..][..|ActionLabel(ae.action)|] == ActionLabel(ae.action)
  {
    var act := ActionLabel(ae.action);
    var rest := " error for file (" + PathText(ae.path.value) + "): ";
    var d := Describe(ae.source);
    var t := DescribeArtifactError(ae);
    assert t == ("artifact " + (act + rest)) + d;
    assert t == "artifact " + (act + (rest + d));
    ConcatParts("artifact ", act + (rest + d));
    ConcatParts("artifact " + (act + rest), d);
    ConcatParts(act, rest + d);
  }

  lemma TextShapeWithoutPath(ae: ArtifactError)
    requires ae.path.None?
    ensures var t := DescribeArtifactError(ae);
      && |t| > 9 && t[..9] == "artifact "
      && |t| >= |Describe(ae.source)| && t[|t| - |Describe(ae.source)|..] == Describe(ae.source)
      && t[9..][..|ActionLabel(ae.action)|] != ActionLabel(ae.action)
  {
    var t := DescribeArtifactError(ae);
    assert t == "artifact " + "error: " + Describe(ae.source);
    assert t[9] == 'e' && ActionLabel(ae.action)[0] != 'e';
    assert t[9..][..|ActionLabel(ae.action)|][0] == 'e';
  }

  lemma {:induction false} JoinWithEmpty(items: seq<string>, sep: string)
    requires |items| > 0 ==> items[0] != ""
    ensures JoinWith(items, sep) == "" <==> items == []
  {
  }

  /** An error vec displays as "[]" exactly when it holds no error. */
  lemma ErrorVecTextEmpty(errs: seq<ArtifactError>)
    ensures DescribeErrorVec(errs) == "[]" <==> errs == []
  {
    var texts := DescribeEach(errs);
    if errs != [] {
      ArtifactErrorTextShape(errs[0]);
      assert texts[0] == DescribeArtifactError(errs[0]);
    }
    JoinWithEmpty(texts, ", ");
    assert DescribeErrorVec(errs) == "[" + JoinWith(texts, ", ") + "]";
  }
}
