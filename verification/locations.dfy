/** Where the CLI reads its settings and its registry from (`loadSettings`
    and `loadRegistry` of cli/utils.ts, duplicated verbatim at the top of
    cli/index.ts). A location is either a URL, fetched over the network, or
    a file path resolved against the working directory. The network and the
    file system are inputs: a table of fetch responses and a table of file
    contents. */
module Locations {
  import opened Outcomes
  import opened Text
  import opened Paths

  /** Used when no settings path is given. */
  const DefaultSettingsUrl: string :=
    RawHost + "Killian-Aidalinfo/tsai-registry/refs/heads/main/settings.json"

  const GithubPrefix: string := "https://github.com/"
  const RawHost: string := "https://" + "raw.githubusercontent.com/"
  const Branch: string := "main"

  /** The one test both loaders use to tell a URL from a path. */
  predicate IsRemote(p: string) {
    StartsWith(p, "http://") || StartsWith(p, "https://")
  }

  lemma RawHostIsRemote(s: string)
    requires StartsWith(s, RawHost)
    ensures IsRemote(s)
  {
    StartsWithConcat("https://", "raw.githubusercontent.com/");
    StartsWithTrans(s, RawHost, "https://");
  }

  lemma DefaultIsRemote()
    ensures IsRemote(DefaultSettingsUrl)
  {
    StartsWithConcat(RawHost, "Killian-Aidalinfo/tsai-registry/refs/heads/main/settings.json");
    RawHostIsRemote(DefaultSettingsUrl);
  }

  /** `if (!settingsPath) settingsPath = <default>`. */
  function SettingsLocation(arg: Option<string>): (r: string)
    ensures !Truthy(arg) ==> r == DefaultSettingsUrl && IsRemote(r)
    ensures Truthy(arg) ==> r == arg.value
  {
    if Truthy(arg) then arg.value
    else
      DefaultIsRemote();
      DefaultSettingsUrl
  }

  /** The raw-content URL of `path` on branch `main` of the repository at
      `sourceUrl`; only the first `https://github.com/` is removed. */
  function RawUrl(sourceUrl: string, path: string): (r: string)
    ensures IsRemote(r) && StartsWith(r, RawHost)
    ensures EndsWith(r, "/refs/heads/" + Branch + "/" + path)
  {
    var repo := ReplaceFirst(sourceUrl, GithubPrefix, "");
    var tail := "/refs/heads/" + Branch + "/" + path;
    var r := RawHost + (repo + tail);
    StartsWithConcat(RawHost, repo + tail);
    RawHostIsRemote(r);
    assert r == (RawHost + repo) + tail;
    EndsWithConcat(RawHost + repo, tail);
    r
  }

  /** For a GitHub repository URL, the rewrite names that repository. */
  lemma RawUrlOfGithubRepo(repo: string, path: string)
    ensures RawUrl(GithubPrefix + repo, path) == RawHost + repo + "/refs/heads/main/" + path
  {
    ReplaceFirstPrefix(GithubPrefix, repo);
  }

  /** The registry location after the rewrite: a path that is not a URL is
      turned into a raw GitHub URL whenever a source URL is configured. */
  function RegistryLocation(registryPath: string, sourceUrl: Option<string>): (r: string)
    ensures IsRemote(registryPath) || !Truthy(sourceUrl) ==> r == registryPath
    ensures !IsRemote(registryPath) && Truthy(sourceUrl) ==> r == RawUrl(sourceUrl.value, registryPath)
  {
    if !IsRemote(registryPath) && Truthy(sourceUrl) then RawUrl(sourceUrl.value, registryPath)
    else registryPath
  }

  /** After the rewrite a registry location is local only when no source
      URL was configured. */
  lemma RegistryLocationRemote(registryPath: string, sourceUrl: Option<string>)
    ensures IsRemote(RegistryLocation(registryPath, sourceUrl)) <==>
      IsRemote(registryPath) || Truthy(sourceUrl)
  {
  }

  datatype Location = Remote(url: string) | Local(path: string)

  /** A URL is fetched as is; a path is resolved against `cwd` unless it is
      absolute. */
  function Classify(cwd: string, p: string): (r: Location)
    ensures r.Remote? <==> IsRemote(p)
    ensures r.Remote? ==> r.url == p
    ensures r.Local? && IsAbsolute(p) ==> r.path == p
    ensures r.Local? && !IsAbsolute(p) ==> StartsWith(r.path, DirPrefix(cwd)) && r.path[|DirPrefix(cwd)|..] == p
  {
    if IsRemote(p) then Remote(p) else Local(Resolve(cwd, p))
  }

  /** What `fetch` answers: `res.ok`, `res.statusText` and `res.text()`. */
  datatype Response = Response(ok: bool, statusText: string, body: string)

  /** The world the loaders see. A URL absent from `network` cannot be
      reached; a path absent from `files` does not exist. */
  datatype World = World(cwd: string, network: map<string, Response>, files: map<string, string>)

  datatype LoadError =
    | Unreachable(url: string)
    | FetchFailed(statusText: string)
    | NotFound(path: string)

  /** The text at a location, or the error the loader throws. */
  function LoadText(w: World, loc: Location): (r: Result<string, LoadError>)
    ensures loc.Remote? ==>
      (r.Ok? <==> loc.url in w.network && w.network[loc.url].ok)
    ensures loc.Remote? && r.Ok? ==> r.value == w.network[loc.url].body
    ensures loc.Remote? && loc.url in w.network && !w.network[loc.url].ok ==>
      r == Err(FetchFailed(w.network[loc.url].statusText))
    ensures loc.Local? ==> (r.Ok? <==> loc.path in w.files)
    ensures loc.Local? && r.Ok? ==> r.value == w.files[loc.path]
    ensures loc.Local? && r.Err? ==> r == Err(NotFound(loc.path))
  {
    match loc
    case Remote(u) =>
      if u !in w.network then Err(Unreachable(u))
      else if !w.network[u].ok then Err(FetchFailed(w.network[u].statusText))
      else Ok(w.network[u].body)
    case Local(p) =>
      if p in w.files then Ok(w.files[p]) else Err(NotFound(p))
  }

  /** `loadSettings(settingsPath)`, up to `JSON.parse`. */
  function LoadSettings(w: World, arg: Option<string>): (r: Result<string, LoadError>)
    ensures r.Ok? ==>
      var p := SettingsLocation(arg);
      if IsRemote(p) then p in w.network && w.network[p].ok && r.value == w.network[p].body
      else Resolve(w.cwd, p) in w.files && r.value == w.files[Resolve(w.cwd, p)]
  {
    LoadText(w, Classify(w.cwd, SettingsLocation(arg)))
  }

  /** `loadRegistry(registryPath, settingsUrl)`, up to `JSON.parse`. */
  function LoadRegistry(w: World, registryPath: string, sourceUrl: Option<string>): (r: Result<string, LoadError>)
    ensures r.Ok? ==>
      var p := RegistryLocation(registryPath, sourceUrl);
      if IsRemote(p) then p in w.network && w.network[p].ok && r.value == w.network[p].body
      else Resolve(w.cwd, p) in w.files && r.value == w.files[Resolve(w.cwd, p)]
  {
    LoadText(w, Classify(w.cwd, RegistryLocation(registryPath, sourceUrl)))
  }

  /** Without a settings path the default URL is fetched and no file is read:
      the settings text is the body the default URL answers with. */
  lemma DefaultSettingsFetched(w: World)
    ensures LoadSettings(w, None) == LoadText(w, Remote(DefaultSettingsUrl))
    ensures LoadSettings(w, None) == LoadSettings(w, Some(""))
    ensures LoadSettings(w, None).Ok? <==>
      DefaultSettingsUrl in w.network && w.network[DefaultSettingsUrl].ok
  {
    DefaultIsRemote();
  }

  /** With a source URL configured, a registry path that is not a URL is
      never read from disk: the raw GitHub copy is fetched instead. */
  lemma RegistryPathFetchedFromGithub(w: World, registryPath: string, repo: string)
    requires !IsRemote(registryPath)
    ensures LoadRegistry(w, registryPath, Some(GithubPrefix + repo))
         == LoadText(w, Remote(RawHost + repo + "/refs/heads/main/" + registryPath))
  {
    RawUrlOfGithubRepo(repo, registryPath);
  }

  /** A failed fetch or a missing file yields an error, never a document. */
  lemma FailuresAreErrors(w: World, registryPath: string, sourceUrl: Option<string>)
    ensures var p := RegistryLocation(registryPath, sourceUrl);
      && (IsRemote(p) && p in w.network && !w.network[p].ok ==>
            LoadRegistry(w, registryPath, sourceUrl) == Err(FetchFailed(w.network[p].statusText)))
      && (!IsRemote(p) && Resolve(w.cwd, p) !in w.files ==>
            LoadRegistry(w, registryPath, sourceUrl) == Err(NotFound(Resolve(w.cwd, p))))
  {
  }
}
