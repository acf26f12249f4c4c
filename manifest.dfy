/**
 * The mod manifest: the shape of its JSON data, the client configuration and
 * its builder, and the policy that decides between the cached copy and a fresh
 * download. The network, the cache file and the clock are given as the
 * outcomes they produce, so the policy is a function of those outcomes.
 *
 * JSON objects whose iteration order shows in a result (the author lists) are
 * given as sequences of (key, value) pairs in that order; objects that are only
 * collected into maps are maps.
 */
module Manifest {
  import opened Wrappers
  import opened StdPath
  import opened Mods
  import opened Errors

  /** The default manifest location, in the Resonite Modding Group's repository. */
  const ManifestUrl: string := "https://raw.githubusercontent.com/resonite-modding-group/resonite-mod-manifest/main/manifest.json"

  /** Six hours, in seconds: how old a cached manifest may be by default. */
  const DefaultStaleAfter: nat := 60 * 60 * 6

  // ---- The manifest data ----

  datatype ManifestAuthor = ManifestAuthor(url: Option<Url>, icon: Option<Url>, support: Option<Url>)

  /** An "author" object: author names and their details, in iteration order. */
  type ManifestAuthors = seq<(string, ManifestAuthor)>

  datatype ManifestEntryArtifact = ManifestEntryArtifact(url: Url, sha256: string, filename: Option<string>, installLocation: Option<string>)

  /** A "dependencies" or "conflicts" entry: the version requirement, as written. */
  datatype ManifestEntryDependency = ManifestEntryDependency(version: string)

  datatype ManifestEntryVersion = ManifestEntryVersion(
    artifacts: seq<ManifestEntryArtifact>,
    dependencies: Option<map<string, ManifestEntryDependency>>,
    conflicts: Option<map<string, ManifestEntryDependency>>,
    releaseUrl: Option<Url>)

  datatype ManifestEntry = ManifestEntry(
    name: string,
    description: string,
    category: string,
    sourceLocation: Option<Url>,
    website: Option<Url>,
    tags: Option<seq<string>>,
    flags: Option<seq<string>>,
    platforms: Option<seq<string>>,
    additionalAuthors: Option<ManifestAuthors>,
    versions: map<string, ManifestEntryVersion>)

  /** An "objects" entry: a group's authors and its mods by id. */
  datatype ManifestObject = ManifestObject(authors: ManifestAuthors, entries: map<string, ManifestEntry>)

  /** The top-level manifest: its objects, in iteration order. */
  datatype ManifestData = ManifestData(objects: seq<ManifestObject>, schemaVersion: string)

  // ---- Configuration ----

  /** `Config`: where the manifest comes from, where it is cached, and after how many seconds the cache is stale. */
  datatype Config = Config(remoteUrl: Url, cacheFilePath: Option<Path>, cacheStaleAfter: Option<nat>)

  /** The parsed default manifest URL. */
  function DefaultRemoteUrl(): Url {
    Url(ManifestUrl, "/resonite-modding-group/resonite-mod-manifest/main/manifest.json")
  }

  /** `Config::default`. */
  function DefaultConfig(): (c: Config)
    ensures c.remoteUrl.text == ManifestUrl
    ensures c.cacheFilePath == None
    ensures c.cacheStaleAfter == Some(21600)
  {
    Config(DefaultRemoteUrl(), None, Some(DefaultStaleAfter))
  }

  /**
   * `Config::set_remote_url`: the given URL's parse result is stored when it
   * parsed; otherwise `Error::Url` is returned and the configuration is kept.
   */
  function SetRemoteUrl(c: Config, parsed: Option<Url>): (r: (Result<(), Error>, Config))
    ensures r.0.Ok? <==> parsed.Some?
    ensures parsed.Some? ==> r.1 == c.(remoteUrl := parsed.value)
    ensures parsed.None? ==> r.0 == Err(UrlError("manifest remote url")) && r.1 == c
  {
    match parsed
    case Some(u) => (Ok(()), c.(remoteUrl := u))
    case None => (Err(UrlError("manifest remote url")), c)
  }

  /** `ClientBuilder`: a configuration being assembled and the HTTP client to use. */
  datatype ClientBuilder<H> = ClientBuilder(config: Config, httpClient: H) {

    /** `ClientBuilder::url`: the URL must parse (the builder panics otherwise). */
    function WithUrl(parsed: Option<Url>): (b: ClientBuilder<H>)
      requires parsed.Some?
      ensures b.config.remoteUrl == parsed.value
      ensures b.config.cacheFilePath == config.cacheFilePath && b.config.cacheStaleAfter == config.cacheStaleAfter
      ensures b.httpClient == httpClient
    {
      this.(config := config.(remoteUrl := parsed.value))
    }

    /** `ClientBuilder::cache`. */
    function Cache(path: Path): (b: ClientBuilder<H>)
      ensures b.config.cacheFilePath == Some(path)
      ensures b.config.remoteUrl == config.remoteUrl && b.config.cacheStaleAfter == config.cacheStaleAfter
      ensures b.httpClient == httpClient
    {
      this.(config := config.(cacheFilePath := Some(path)))
    }

    /** `ClientBuilder::no_cache`. */
    function NoCache(): (b: ClientBuilder<H>)
      ensures b.config.cacheFilePath == None
      ensures b.config.remoteUrl == config.remoteUrl && b.config.cacheStaleAfter == config.cacheStaleAfter
      ensures b.httpClient == httpClient
    {
      this.(config := config.(cacheFilePath := None))
    }

    /** `ClientBuilder::stale_after`, in seconds. */
    function StaleAfter(seconds: nat): (b: ClientBuilder<H>)
      ensures b.config.cacheStaleAfter == Some(seconds)
      ensures b.config.remoteUrl == config.remoteUrl && b.config.cacheFilePath == config.cacheFilePath
      ensures b.httpClient == httpClient
    {
      this.(config := config.(cacheStaleAfter := Some(seconds)))
    }

    /** `ClientBuilder::never_stale`. */
    function NeverStale(): (b: ClientBuilder<H>)
      ensures b.config.cacheStaleAfter == None
      ensures b.config.remoteUrl == config.remoteUrl && b.config.cacheFilePath == config.cacheFilePath
      ensures b.httpClient == httpClient
    {
      this.(config := config.(cacheStaleAfter := None))
    }

    /** `ClientBuilder::http_client`. */
    function WithHttpClient(client: H): (b: ClientBuilder<H>)
      ensures b.httpClient == client && b.config == config
    {
      this.(httpClient := client)
    }
  }

  /** `ClientBuilder::new`: the default configuration. */
  function NewBuilder<H>(client: H): (b: ClientBuilder<H>)
    ensures b.config == DefaultConfig() && b.httpClient == client
  {
    ClientBuilder(DefaultConfig(), client)
  }

  /** Turning caching off and back on, or staleness off and back on, only the last setting counts. */
  lemma LastSettingWins<H>(b: ClientBuilder<H>, path: Path, seconds: nat)
    ensures b.Cache(path).NoCache().config == b.NoCache().config
    ensures b.NoCache().Cache(path).config == b.Cache(path).config
    ensures b.StaleAfter(seconds).NeverStale().config == b.NeverStale().config
    ensures b.NeverStale().StaleAfter(seconds).config == b.StaleAfter(seconds).config
    ensures b.Cache(path).StaleAfter(seconds).config == b.StaleAfter(seconds).Cache(path).config
  {
  }

  // ---- Downloading and retrieving ----

  /** What the HTTP request produced: a transport failure, or a status and the body as read. */
  datatype Reply = RequestFailed(detail: string) | Reply(status: nat, body: Result<string, Error>)

  /**
   * How writing the body to the cache file went. The open truncates the file
   * before anything is copied, so a copy that fails leaves the file holding the
   * body's first `written` characters, followed, when `midChar` and the next
   * character is not ASCII, by the leading bytes of that character's encoding.
   */
  datatype CacheWrite =
    | OpenFailed(error: Error)
    | CopyFailed(error: Error, written: nat, midChar: bool)
    | Copied

  /** Reading a file of `body`'s bytes back as text: an undecodable tail is `InvalidData`. */
  function ReadBack(body: string, w: CacheWrite): (r: Result<string, Error>)
    ensures w.Copied? ==> r == Ok(body)
    ensures r.Ok? ==> r.value <= body
    ensures r.Err? ==> r == Err(Io(InvalidData))
  {
    match w
    case CopyFailed(_, written, midChar) =>
      var n := if written < |body| then written else |body|;
      if midChar && n < |body| && body[n] as int >= 0x80 then Err(Io(InvalidData))
      else Ok(body[..n])
    case _ => Ok(body)
  }

  /**
   * What `download` did: its result, and what the cache file reads as afterwards
   * when it was opened for writing (`None`: the file was not touched).
   */
  datatype Downloaded = Downloaded(result: Result<string, Error>, cacheAfter: Option<Result<string, Error>>)

  /**
   * `Client::download`: a request failure or a non-2xx status is an error before
   * the body is read; a successful body is written to the cache file when one is
   * configured, and returned. The cache file is opened with truncation before the
   * copy, so a copy that fails leaves it holding part of the body.
   */
  function DownloadSpec(config: Config, reply: Reply, cacheWrite: CacheWrite): (d: Downloaded)
    ensures d.result.Ok? <==>
      reply.Reply? && 200 <= reply.status <= 299 && reply.body.Ok? && (config.cacheFilePath.Some? ==> cacheWrite.Copied?)
    ensures d.result.Ok? ==> d.result.value == reply.body.value
    ensures reply.Reply? && !(200 <= reply.status <= 299) ==> d.result == Err(Http(reply.status))
    ensures d.cacheAfter.Some? <==>
      config.cacheFilePath.Some? && reply.Reply? && 200 <= reply.status <= 299 && reply.body.Ok? && !cacheWrite.OpenFailed?
    ensures d.cacheAfter.Some? ==> d.cacheAfter.value == ReadBack(reply.body.value, cacheWrite)
    ensures d.result.Ok? && d.cacheAfter.Some? ==> d.cacheAfter.value == d.result
  {
    match reply
    case RequestFailed(detail) => Downloaded(Err(Request(detail)), None)
    case Reply(status, body) =>
      if !(200 <= status <= 299) then Downloaded(Err(Http(status)), None)
      else if body.Err? then Downloaded(Err(body.error), None)
      else if config.cacheFilePath.None? then Downloaded(Ok(body.value), None)
      else match cacheWrite
        case OpenFailed(e) => Downloaded(Err(e), None)
        case CopyFailed(e, _, _) => Downloaded(Err(e), Some(ReadBack(body.value, cacheWrite)))
        case Copied => Downloaded(Ok(body.value), Some(Ok(body.value)))
  }

  /**
   * `download` as its caller at manifest.rs:81 expects it: the body replaces the
   * cache file only once it is completely written (staged and then moved into
   * place), so a failed write leaves the old cache as it was.
   */
  function DownloadCorrected(config: Config, reply: Reply, cacheWrite: CacheWrite): (d: Downloaded)
    ensures d.result == DownloadSpec(config, reply, cacheWrite).result
    ensures d.result.Err? ==> d.cacheAfter.None?
    ensures d.cacheAfter.Some? <==> d.result.Ok? && config.cacheFilePath.Some?
    ensures d.cacheAfter.Some? ==> d.cacheAfter.value == d.result
  {
    var d := DownloadSpec(config, reply, cacheWrite);
    if d.result.Ok? then d else d.(cacheAfter := None)
  }

  /**
   * What the cache file offered: whether it opened, its modification time (in
   * seconds) or the error reading it, and its contents or the error reading them
   * as they were when it was opened.
   */
  datatype CacheProbe = CacheProbe(openResult: Result<(), Error>, modified: Result<nat, Error>, contents: Result<string, Error>)

  /** What `retrieve` did: its result, whether it downloaded, and what the cache file reads as afterwards when the download touched it. */
  datatype Retrieved = Retrieved(result: Result<string, Error>, downloaded: bool, cacheAfter: Option<Result<string, Error>>)

  /** The cache is stale when the present moment is past its modification time plus the threshold. */
  predicate IsStale(config: Config, modified: nat, now: nat) {
    config.cacheStaleAfter.Some? && now > modified + config.cacheStaleAfter.value
  }

  /**
   * `Client::retrieve`, given what its download does: with no cache path, or a
   * cache file that does not open, download. Otherwise, when a staleness
   * threshold is set, read the file's modification time (its error is returned)
   * and, if the cache is stale, try a download, returning its JSON if it worked.
   * In every other case the cache is read through the handle opened first, so
   * after a download that rewrote the file it reads the rewritten contents.
   */
  function RetrieveFrom(config: Config, cache: CacheProbe, now: nat, d: Downloaded): (r: Retrieved)
    ensures r.downloaded <==>
      config.cacheFilePath.None? || cache.openResult.Err? ||
      (config.cacheStaleAfter.Some? && cache.modified.Ok? && IsStale(config, cache.modified.value, now))
    ensures !r.downloaded ==> r.cacheAfter.None?
    ensures r.downloaded ==> r.cacheAfter == d.cacheAfter
  {
    if config.cacheFilePath.None? || cache.openResult.Err? then Retrieved(d.result, true, d.cacheAfter)
    else if config.cacheStaleAfter.Some? && cache.modified.Err? then Retrieved(Err(cache.modified.error), false, None)
    else
      var stale := config.cacheStaleAfter.Some? && IsStale(config, cache.modified.value, now);
      if !stale then Retrieved(cache.contents, false, None)
      else if d.result.Ok? then Retrieved(d.result, true, d.cacheAfter)
      else if d.cacheAfter.Some? then Retrieved(d.cacheAfter.value, true, d.cacheAfter)
      else Retrieved(cache.contents, true, None)
  }

  /** `Client::retrieve` as written, over `download` as written. */
  function RetrieveSpec(config: Config, cache: CacheProbe, now: nat, reply: Reply, cacheWrite: CacheWrite): (r: Retrieved)
    ensures r.downloaded <==>
      config.cacheFilePath.None? || cache.openResult.Err? ||
      (config.cacheStaleAfter.Some? && cache.modified.Ok? && IsStale(config, cache.modified.value, now))
  {
    RetrieveFrom(config, cache, now, DownloadSpec(config, reply, cacheWrite))
  }

  /** `Client::retrieve` over the corrected `download`, whose failure leaves the cache file alone. */
  function RetrieveCorrected(config: Config, cache: CacheProbe, now: nat, reply: Reply, cacheWrite: CacheWrite): (r: Retrieved)
    ensures r.downloaded == RetrieveSpec(config, cache, now, reply, cacheWrite).downloaded
  {
    RetrieveFrom(config, cache, now, DownloadCorrected(config, reply, cacheWrite))
  }

  /** Without a usable cache, `retrieve` is exactly a download. */
  lemma RetrieveWithoutCache(config: Config, cache: CacheProbe, now: nat, reply: Reply, cacheWrite: CacheWrite)
    requires config.cacheFilePath.None? || cache.openResult.Err?
    ensures RetrieveSpec(config, cache, now, reply, cacheWrite).result == DownloadSpec(config, reply, cacheWrite).result
  {
  }

  /** A fresh cache, or one that never goes stale, is returned as read, with no download. */
  lemma RetrieveFreshCache(config: Config, cache: CacheProbe, now: nat, reply: Reply, cacheWrite: CacheWrite)
    requires config.cacheFilePath.Some? && cache.openResult.Ok?
    requires config.cacheStaleAfter.None? || (cache.modified.Ok? && !IsStale(config, cache.modified.value, now))
    ensures RetrieveSpec(config, cache, now, reply, cacheWrite) == Retrieved(cache.contents, false, None)
  {
  }

  /**
   * A stale cache is replaced by a successful download's JSON. When the download
   * fails, `retrieve` falls back to reading the cache file: its old contents if
   * the download never opened it, and otherwise what the failed copy left there.
   */
  lemma RetrieveStaleCache(config: Config, cache: CacheProbe, now: nat, reply: Reply, cacheWrite: CacheWrite)
    requires config.cacheFilePath.Some? && cache.openResult.Ok? && cache.modified.Ok?
    requires IsStale(config, cache.modified.value, now)
    ensures var r, d := RetrieveSpec(config, cache, now, reply, cacheWrite), DownloadSpec(config, reply, cacheWrite);
      && r.downloaded
      && (d.result.Ok? ==> r.result == d.result)
      && (d.result.Err? && d.cacheAfter.None? ==> r.result == cache.contents)
      && (d.result.Err? && d.cacheAfter.Some? ==>
            cacheWrite.CopyFailed? && r.result == ReadBack(reply.body.value, cacheWrite))
  {
  }

  /**
   * Whatever JSON `retrieve` returns is the response body, a leading part of it
   * read back from the cache file after a failed copy, or the old cache contents.
   */
  lemma RetrieveSource(config: Config, cache: CacheProbe, now: nat, reply: Reply, cacheWrite: CacheWrite)
    requires RetrieveSpec(config, cache, now, reply, cacheWrite).result.Ok?
    ensures var r := RetrieveSpec(config, cache, now, reply, cacheWrite).result;
      || (reply.Reply? && reply.body == r)
      || (reply.Reply? && reply.body.Ok? && cacheWrite.CopyFailed? && r.value <= reply.body.value)
      || cache.contents == r
  {
  }

  /**
   * The stale-cache fallback as written: with a 2xx reply whose copy into the
   * cache fails before any byte is written, `retrieve` returns the empty text
   * instead of the cached manifest.
   */
  lemma StaleFallbackReadsTruncated()
    ensures var config := Config(DefaultRemoteUrl(), Some(Path(true, ["cache.json"])), Some(DefaultStaleAfter));
      var cache := CacheProbe(Ok(()), Ok(0), Ok("{}"));
      var now := DefaultStaleAfter + 1;
      var reply := Reply(200, Ok("{\"objects\": []}"));
      var cacheWrite := CopyFailed(Io(OtherIo), 0, false);
      && DownloadSpec(config, reply, cacheWrite).result.Err?
      && RetrieveSpec(config, cache, now, reply, cacheWrite).result == Ok("")
      && RetrieveSpec(config, cache, now, reply, cacheWrite).result != cache.contents
  {
  }

  /**
   * With the corrected `download`, a stale cache is replaced by a successful
   * download's JSON and is returned as it was when the download fails, as the
   * comment at manifest.rs:81 promises; a failed download leaves the file alone.
   */
  lemma RetrieveCorrectedStaleCache(config: Config, cache: CacheProbe, now: nat, reply: Reply, cacheWrite: CacheWrite)
    requires config.cacheFilePath.Some? && cache.openResult.Ok? && cache.modified.Ok?
    requires IsStale(config, cache.modified.value, now)
    ensures var r, d := RetrieveCorrected(config, cache, now, reply, cacheWrite), DownloadSpec(config, reply, cacheWrite);
      && r.downloaded
      && (d.result.Ok? ==> r.result == d.result && r.cacheAfter == Some(d.result))
      && (d.result.Err? ==> r.result == cache.contents && r.cacheAfter.None?)
  {
  }

  /** With the corrected `download`, whatever JSON `retrieve` returns is the response body or the old cache contents. */
  lemma RetrieveCorrectedSource(config: Config, cache: CacheProbe, now: nat, reply: Reply, cacheWrite: CacheWrite)
    requires RetrieveCorrected(config, cache, now, reply, cacheWrite).result.Ok?
    ensures var r := RetrieveCorrected(config, cache, now, reply, cacheWrite).result;
      (reply.Reply? && reply.body == r) || cache.contents == r
  {
  }

  /** The two differ only where the copy into the cache fails part-way. */
  lemma RetrieveCorrectedAgrees(config: Config, cache: CacheProbe, now: nat, reply: Reply, cacheWrite: CacheWrite)
    requires !cacheWrite.CopyFailed?
    ensures RetrieveCorrected(config, cache, now, reply, cacheWrite) == RetrieveSpec(config, cache, now, reply, cacheWrite)
  {
  }
}
