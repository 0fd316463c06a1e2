/** The decisions of the `list` and `add` commands of cli/index.ts. Effects
    are not performed but listed, in order, as the result of a run; the
    network and the file system are the `World` of the loaders, plus the set
    of paths that exist, and the overwrite prompt is its answer string. JSON
    decoding is a parameter. */
module Cli {
  import opened Outcomes
  import opened Text
  import opened Paths
  import opened Manifest
  import opened Locations
  import opened Walker

  /** The `settings` object of a settings document; absent fields are `None`. */
  datatype SettingsDoc = SettingsDoc(registry: Option<string>, url: Option<string>, local: Option<string>)

  datatype CliError =
    | SettingsLoad(cause: LoadError)
    | RegistryLoad(cause: LoadError)
    | BadDocument
    | MissingSetting
    | UnknownEntry(name: string)
    | NoSourceUrl
    | DownloadFailed(cause: LoadError)

  /** The settings and registry objects, as the command sees them. A
      document that does not decode stops the command. */
  function LoadDocuments(w: World, settingsArg: Option<string>, needLocal: bool,
                         decodeSettings: string -> Option<SettingsDoc>,
                         decodeRegistry: string -> Option<Registry>): (r: Result<(SettingsDoc, Registry), CliError>)
    ensures r.Ok? ==> Truthy(r.value.0.registry) && (needLocal ==> Truthy(r.value.0.local))
    ensures LoadSettings(w, settingsArg).Err? ==> r == Err(SettingsLoad(LoadSettings(w, settingsArg).error))
  {
    match LoadSettings(w, settingsArg)
    case Err(e) => Err(SettingsLoad(e))
    case Ok(text) =>
      match decodeSettings(text)
      case None => Err(BadDocument)
      case Some(s) =>
        if !Truthy(s.registry) || (needLocal && !Truthy(s.local)) then Err(MissingSetting)
        else
          match LoadRegistry(w, s.registry.value, s.url)
          case Err(e) => Err(RegistryLoad(e))
          case Ok(text2) =>
            match decodeRegistry(text2)
            case None => Err(BadDocument)
            case Some(reg) => Ok((s, reg))
  }

  // ---------------------------------------------------------------------
  // list [type]

  /** `type.slice(0, -1)`: the argument without its last character. */
  function Singular(t: string): (r: string)
    ensures |t| > 0 ==> t == r + [t[|t| - 1]]
    ensures |t| == 0 ==> r == ""
  {
    if |t| == 0 then "" else t[..|t| - 1]
  }

  /** The entries whose `type` is `kind`, or all of them without a kind; in
      manifest order. */
  function SelectKind(m: Registry, kind: Option<string>): (r: Registry)
    ensures forall it :: it in r <==> it in m && (kind.None? || it.entry.kind == kind.value)
    ensures kind.None? ==> r == m
    ensures |r| <= |m|
    decreases |m|
  {
    if |m| == 0 then []
    else
      var rest := SelectKind(m[1..], kind);
      assert m == [m[0]] + m[1..];
      if kind.None? || m[0].entry.kind == kind.value then [m[0]] + rest else rest
  }

  /** Selection keeps manifest order: the selected entries of an earlier
      part of the manifest are listed before those of a later part. */
  lemma {:induction false} SelectKindAppend(a: Registry, b: Registry, kind: Option<string>)
    ensures SelectKind(a + b, kind) == SelectKind(a, kind) + SelectKind(b, kind)
    decreases |a|
  {
    if |a| > 0 {
      assert (a + b)[0] == a[0];
      assert (a + b)[1..] == a[1..] + b;
      SelectKindAppend(a[1..], b, kind);
    } else {
      assert a + b == b;
    }
  }

  /** The kind `list` compares entries with, as written: the argument is
      singularised, so `agents` selects entries of type `agent`. An empty
      argument is falsy and selects everything. */
  function ListKindAsWritten(typeArg: Option<string>): (r: Option<string>)
    ensures Truthy(typeArg) ==> r == Some(Singular(typeArg.value))
    ensures !Truthy(typeArg) ==> r.None?
  {
    if Truthy(typeArg) then Some(Singular(typeArg.value)) else None
  }

  /** The kind that selects the entries the build stores under the
      argument's directory: the argument itself, which is plural. */
  function ListKind(typeArg: Option<string>): (r: Option<string>)
    ensures Truthy(typeArg) ==> r == typeArg
    ensures !Truthy(typeArg) ==> r.None?
  {
    if Truthy(typeArg) then typeArg else None
  }

  /** No supported type is the singular of another. */
  lemma SingularNotSupported(t: string)
    requires t in SupportedTypes
    ensures Singular(t) !in SupportedTypes
  {
    SupportedTypeCases(t);
    var s := Singular(t);
    assert |s| == |t| - 1;
    assert t == "agents" || |s| in {8, 4, 2};
    assert s != "agents" && s != "workflows" && s != "mcp";
    if t == "agents" {
      // Only `tools` has the length of the singular `agent`.
      assert s[0] == 'a';
      assert "tools"[0] == 't';
    }
  }

  /** As written, `list <type>` over a manifest the build produced shows
      nothing: every stored type is plural and never equals a singular. */
  lemma TypedListOfBuiltManifestIsEmpty(m: Registry, t: string)
    requires t in SupportedTypes
    requires forall i :: 0 <= i < |m| ==> m[i].entry.kind in SupportedTypes
    ensures SelectKind(m, ListKindAsWritten(Some(t))) == []
  {
    var s := Singular(t);
    SupportedTypeCases(t);
    assert ListKindAsWritten(Some(t)) == Some(s);
    SingularNotSupported(t);
    forall i | 0 <= i < |m| ensures m[i].entry.kind != s {
      assert m[i].entry.kind in SupportedTypes;
    }
    NoneSelected(m, s);
  }

  lemma {:induction false} NoneSelected(m: Registry, kind: string)
    requires forall i :: 0 <= i < |m| ==> m[i].entry.kind != kind
    ensures SelectKind(m, Some(kind)) == []
    decreases |m|
  {
    if |m| > 0 {
      NoneSelected(m[1..], kind);
    }
  }

  /** A concrete run: one built `agents` entry, listed with `list agents`. */
  lemma ListAgentsShowsNothing()
    ensures var m := [Item("exa-agent", RegistryEntry("agents", "exa-agent", [], [], []))];
      && SelectKind(m, ListKindAsWritten(Some("agents"))) == []
      && SelectKind(m, ListKind(Some("agents"))) == m
  {
    var m := [Item("exa-agent", RegistryEntry("agents", "exa-agent", [], [], []))];
    assert Singular("agents") == "agent";
    assert m[0] in m;
  }

  /** With the plural comparison, `list <type>` over a registry with
      distinct keys shows exactly the keys whose entry has that type; over
      a built manifest, those are the entries found under that type's
      directory and under no later one. */
  lemma TypedListSelectsKind(m: Registry, t: string, k: string)
    requires WellFormed(m) && |t| > 0
    ensures (exists it :: it in SelectKind(m, ListKind(Some(t))) && it.key == k) <==>
      Lookup(m, k).Some? && Lookup(m, k).value.kind == t
  {
    var sel := SelectKind(m, ListKind(Some(t)));
    if exists it :: it in sel && it.key == k {
      var it :| it in sel && it.key == k;
      var i :| 0 <= i < |m| && m[i] == it;
      LookupUnique(m, i);
    }
    if Lookup(m, k).Some? && Lookup(m, k).value.kind == t {
      var i :| 0 <= i < |m| && m[i].key == k;
      LookupUnique(m, i);
      assert m[i] in sel;
    }
  }

  /** In a registry with distinct keys an item is what its key looks up. */
  lemma {:induction false} LookupUnique(m: Registry, i: nat)
    requires WellFormed(m) && i < |m|
    ensures Lookup(m, m[i].key) == Some(m[i].entry)
    decreases |m|
  {
    if i > 0 {
      assert m[0].key != m[i].key by {
        assert Keys(m)[0] == m[0].key && Keys(m)[i] == m[i].key;
      }
      assert WellFormed(m[1..]) by {
        assert Keys(m[1..]) == Keys(m)[1..];
      }
      LookupUnique(m[1..], i - 1);
    }
  }

  /** One line of the listing. */
  function ListLine(it: Item): (r: string)
    ensures StartsWith(r, "- " + it.key) && EndsWith(r, "[" + it.entry.kind + "]")
  {
    var r := "- " + it.key + " [" + it.entry.kind + "]";
    assert r == ("- " + it.key) + (" [" + it.entry.kind + "]");
    assert r == ("- " + it.key + " ") + ("[" + it.entry.kind + "]");
    r
  }

  const NothingFound: string := "Aucun objet trouv\U{00E9} dans le registry."

  /** The message for a type argument that selects nothing. */
  function NothingOfType(t: string): string {
    "Aucun objet de type " + t
  }

  /** What `list` prints for the selected entries: one line per entry in
      manifest order, or a single message when none is selected. */
  function ListOutput(selected: Registry, typeArg: Option<string>): (r: seq<string>)
    ensures |selected| == 0 ==> |r| == 1
    ensures |selected| == 0 && !Truthy(typeArg) ==> r == [NothingFound]
    ensures |selected| == 0 && Truthy(typeArg) ==> r == [NothingOfType(typeArg.value)]
    ensures |selected| > 0 ==> |r| == |selected| && forall i :: 0 <= i < |r| ==> r[i] == ListLine(selected[i])
  {
    if |selected| == 0 then
      [if Truthy(typeArg) then NothingOfType(typeArg.value) else NothingFound]
    else
      seq(|selected|, i requires 0 <= i < |selected| => ListLine(selected[i]))
  }

  /** The `list` command as written: the listing, or the error it exits 1
      with. Entries are compared with the singularised type argument. */
  function List(w: World, settingsArg: Option<string>, typeArg: Option<string>,
                decodeSettings: string -> Option<SettingsDoc>,
                decodeRegistry: string -> Option<Registry>): (r: Result<seq<string>, CliError>)
    ensures r.Ok? ==> |r.value| >= 1
    ensures r.Err? <==> LoadDocuments(w, settingsArg, false, decodeSettings, decodeRegistry).Err?
    ensures r.Err? ==> r.error == LoadDocuments(w, settingsArg, false, decodeSettings, decodeRegistry).error
  {
    match LoadDocuments(w, settingsArg, false, decodeSettings, decodeRegistry)
    case Err(e) => Err(e)
    case Ok((_, reg)) => Ok(ListOutput(SelectKind(reg, ListKindAsWritten(typeArg)), typeArg))
  }

  /** As written, `list <type>` over a manifest the build produced prints
      only the "nothing of this type" message, however many entries of
      that type the manifest holds. */
  lemma TypedListOfBuiltManifest(w: World, settingsArg: Option<string>, t: string,
                                 decodeSettings: string -> Option<SettingsDoc>,
                                 decodeRegistry: string -> Option<Registry>)
    requires t in SupportedTypes
    requires LoadDocuments(w, settingsArg, false, decodeSettings, decodeRegistry).Ok?
    requires var m := LoadDocuments(w, settingsArg, false, decodeSettings, decodeRegistry).value.1;
      forall i :: 0 <= i < |m| ==> m[i].entry.kind in SupportedTypes
    ensures List(w, settingsArg, Some(t), decodeSettings, decodeRegistry) == Ok([NothingOfType(t)])
  {
    var m := LoadDocuments(w, settingsArg, false, decodeSettings, decodeRegistry).value.1;
    SupportedTypeCases(t);
    TypedListOfBuiltManifestIsEmpty(m, t);
  }

  /** The `list` command with the corrected comparison: entries are
      compared with the type argument as given. */
  function ListCorrected(w: World, settingsArg: Option<string>, typeArg: Option<string>,
                         decodeSettings: string -> Option<SettingsDoc>,
                         decodeRegistry: string -> Option<Registry>): (r: Result<seq<string>, CliError>)
    ensures r.Ok? ==> |r.value| >= 1
    ensures r.Err? <==> LoadDocuments(w, settingsArg, false, decodeSettings, decodeRegistry).Err?
  {
    match LoadDocuments(w, settingsArg, false, decodeSettings, decodeRegistry)
    case Err(e) => Err(e)
    case Ok((_, reg)) => Ok(ListOutput(SelectKind(reg, ListKind(typeArg)), typeArg))
  }

  /** With the corrected comparison, `list <type>` prints the line of
      entry `k` exactly when the manifest stores `k` with that type. */
  lemma ListCorrectedShowsKind(w: World, settingsArg: Option<string>, t: string, k: string,
                               decodeSettings: string -> Option<SettingsDoc>,
                               decodeRegistry: string -> Option<Registry>)
    requires |t| > 0
    requires LoadDocuments(w, settingsArg, false, decodeSettings, decodeRegistry).Ok?
    requires WellFormed(LoadDocuments(w, settingsArg, false, decodeSettings, decodeRegistry).value.1)
    ensures var m := LoadDocuments(w, settingsArg, false, decodeSettings, decodeRegistry).value.1;
      Lookup(m, k).Some? && Lookup(m, k).value.kind == t ==>
        ListLine(Item(k, Lookup(m, k).value)) in ListCorrected(w, settingsArg, Some(t), decodeSettings, decodeRegistry).value
  {
    var m := LoadDocuments(w, settingsArg, false, decodeSettings, decodeRegistry).value.1;
    if Lookup(m, k).Some? && Lookup(m, k).value.kind == t {
      var i :| 0 <= i < |m| && m[i].key == k;
      LookupUnique(m, i);
      SelectedLineShown(m, t, i);
    }
  }

  lemma SelectedLineShown(m: Registry, t: string, i: nat)
    requires i < |m| && m[i].entry.kind == t && |t| > 0
    ensures ListLine(m[i]) in ListOutput(SelectKind(m, ListKind(Some(t))), Some(t))
  {
    var sel := SelectKind(m, ListKind(Some(t)));
    assert m[i] in sel;
    var j :| 0 <= j < |sel| && sel[j] == m[i];
    assert ListOutput(sel, Some(t))[j] == ListLine(m[i]);
  }

  // ---------------------------------------------------------------------
  // add <name>

  /** `path.join(process.cwd(), localPath, entry.type, name)`. */
  function TargetDir(cwd: string, local: string, kind: string, name: string): string {
    JoinPath(JoinPath(JoinPath(cwd, local), kind), name)
  }

  /** The target directory is named after the entry and lies below
      `<cwd>/<local>/<type>/`. */
  lemma TargetDirShape(cwd: string, local: string, kind: string, name: string)
    requires |name| >= 1 && '/' !in name
    ensures var r := TargetDir(cwd, local, kind, name);
      && Basename(r) == name
      && StartsWith(r, DirPrefix(JoinPath(JoinPath(cwd, local), kind)))
      && StartsWith(r, DirPrefix(cwd))
  {
    var d := JoinPath(JoinPath(cwd, local), kind);
    BasenameOfJoin(d, name);
    var r := TargetDir(cwd, local, kind, name);
    PrefixOfDirPrefix(JoinPath(cwd, local), kind, r);
    PrefixOfDirPrefix(cwd, local, r);
  }

  /** The overwrite prompt proceeds only on an answer that lower-cases to `y`. */
  predicate Confirmed(answer: string) {
    Lower(answer) == "y"
  }

  lemma ConfirmedIff(answer: string)
    ensures Confirmed(answer) <==> answer == "y" || answer == "Y"
  {
    LowerIsY(answer);
  }

  /** Where a registry file is downloaded from: a path already starting
      with `http` is used verbatim, any other is rewritten to the raw
      GitHub URL, which needs a source URL. */
  function FileUrl(file: string, sourceUrl: Option<string>): (r: Result<string, CliError>)
    ensures StartsWith(file, "http") ==> r == Ok(file)
    ensures !StartsWith(file, "http") && sourceUrl.None? ==> r == Err(NoSourceUrl)
    ensures !StartsWith(file, "http") && sourceUrl.Some? ==>
      r.Ok? && StartsWith(r.value, RawHost) && EndsWith(r.value, "/refs/heads/main/" + file)
  {
    if StartsWith(file, "http") then Ok(file)
    else if sourceUrl.None? then Err(NoSourceUrl)
    else Ok(RawUrl(sourceUrl.value, file))
  }

  /** A file whose name starts with `http` but is not a URL (say
      `httpclient.ts`) is fetched verbatim, not rewritten: the prefix test is
      weaker than the loaders' remote test. */
  lemma FileUrlPrefixIsLoose()
    ensures !IsRemote("httpclient.ts")
    ensures FileUrl("httpclient.ts", Some("https://github.com/o/r")) == Ok("httpclient.ts")
  {
    var f := "httpclient.ts";
    assert f[..4] == "http";
    assert f[4] == 'c';
    assert f[..7] != "http://" by { assert f[..7][4] != "http://"[4]; }
    assert f[..8] != "https://" by { assert f[..8][4] != "https://"[4]; }
  }

  /** `path.join(targetDir, path.basename(file))`. */
  function LocalFile(targetDir: string, file: string): string {
    JoinPath(targetDir, Basename(file))
  }

  /** Every downloaded file lands directly inside the target directory. */
  lemma LocalFileInTarget(targetDir: string, file: string)
    ensures var r := LocalFile(targetDir, file);
      StartsWith(r, DirPrefix(targetDir)) && '/' !in r[|DirPrefix(targetDir)|..]
  {
  }

  /** Nested registry paths are flattened: two files in different
      subdirectories with the same name land on the same local file. */
  lemma LocalFileFlattens(targetDir: string, a: string, b: string, name: string)
    requires |name| >= 1 && '/' !in name
    ensures LocalFile(targetDir, JoinPath(a, name)) == LocalFile(targetDir, JoinPath(b, name))
    ensures LocalFile(targetDir, JoinPath(a, name)) == JoinPath(targetDir, name)
  {
    BasenameOfJoin(a, name);
    BasenameOfJoin(b, name);
  }

  datatype PackageManager = Pnpm | Npm | Yarn | Bun

  /** The lockfile that selects a package manager; Bun is the default and
      has none. */
  function Lockfile(pm: PackageManager): string {
    match pm
    case Pnpm => "pnpm-lock.yaml"
    case Npm => "package-lock.json"
    case Yarn => "yarn.lock"
    case Bun => ""
  }

  /** Position in the probing order. */
  function Priority(pm: PackageManager): nat {
    match pm
    case Pnpm => 0
    case Npm => 1
    case Yarn => 2
    case Bun => 3
  }

  predicate HasLockfile(cwd: string, present: set<string>, pm: PackageManager) {
    pm != Bun && JoinPath(cwd, Lockfile(pm)) in present
  }

  /** The first package manager in probing order whose lockfile exists in
      the working directory, else Bun. */
  function ChoosePackageManager(cwd: string, present: set<string>): (r: PackageManager)
    ensures r == Bun || HasLockfile(cwd, present, r)
    ensures forall q: PackageManager :: Priority(q) < Priority(r) ==> !HasLockfile(cwd, present, q)
  {
    if JoinPath(cwd, "pnpm-lock.yaml") in present then Pnpm
    else if JoinPath(cwd, "package-lock.json") in present then Npm
    else if JoinPath(cwd, "yarn.lock") in present then Yarn
    else Bun
  }

  /** The two words each package manager is invoked with. */
  function InstallWords(pm: PackageManager): (r: seq<string>)
    ensures |r| == 2 && ' ' !in r[0] && ' ' !in r[1]
  {
    match pm
    case Bun => ["bun", "add"]
    case Pnpm => ["pnpm", "add"]
    case Npm => ["npm", "install"]
    case Yarn => ["yarn", "add"]
  }

  /** `<tool> <verb> ${deps.join(' ')}`. */
  function InstallCommand(pm: PackageManager, deps: seq<string>): string {
    var w := InstallWords(pm);
    w[0] + " " + w[1] + " " + Join(deps, ' ')
  }

  /** Split on spaces, the command is the tool, its verb and then exactly
      the dependencies, in order. */
  lemma InstallCommandWords(pm: PackageManager, deps: seq<string>)
    requires |deps| >= 1
    requires forall i :: 0 <= i < |deps| ==> ' ' !in deps[i]
    ensures Split(InstallCommand(pm, deps), ' ') == InstallWords(pm) + deps
  {
    var w := InstallWords(pm);
    var tail := Join(deps, ' ');
    assert InstallCommand(pm, deps) == w[0] + [' '] + (w[1] + [' '] + tail);
    SplitJoin(deps, ' ');
    SplitTwoFields(w[0], w[1], tail, ' ');
    assert [w[0], w[1]] == w;
  }

  lemma SplitTwoFields(a: string, b: string, tail: string, sep: char)
    requires sep !in a && sep !in b
    ensures Split(a + [sep] + (b + [sep] + tail), sep) == [a, b] + Split(tail, sep)
  {
    SplitField(a, sep, b + [sep] + tail);
    SplitField(b, sep, tail);
  }

  /** What a run of `add` does, in order. */
  datatype Effect =
    | RemoveDir(path: string)
    | MakeDir(path: string)
    | WriteFile(path: string, content: string)
    | RunInstall(command: string)
    | PrintEnvLine(line: string)

  datatype Status = Completed | Aborted | Failed(error: CliError)

  datatype Run = Run(effects: seq<Effect>, status: Status)

  /** Cancelling the overwrite is not an error; every failure exits 1. */
  function ExitCode(s: Status): (r: int)
    ensures r == 0 <==> !s.Failed?
  {
    if s.Failed? then 1 else 0
  }

  /** The download loop: each file fetched and written in list order; the
      first failure stops it, leaving the files already written. */
  function Download(w: World, files: seq<string>, targetDir: string, sourceUrl: Option<string>):
    (r: (seq<Effect>, Option<CliError>))
    ensures |r.0| <= |files|
    ensures r.1.None? ==> |r.0| == |files|
    ensures forall i :: 0 <= i < |r.0| ==> r.0[i].WriteFile?
    decreases |files|
  {
    if |files| == 0 then ([], None)
    else
      match FileUrl(files[0], sourceUrl)
      case Err(e) => ([], Some(e))
      case Ok(u) =>
        match LoadText(w, Remote(u))
        case Err(e) => ([], Some(DownloadFailed(e)))
        case Ok(content) =>
          var rest := Download(w, files[1..], targetDir, sourceUrl);
          assert forall i :: 0 < i < |files| ==> files[i] == files[1..][i - 1];
          ([WriteFile(LocalFile(targetDir, files[0]), content)] + rest.0, rest.1)
  }

  /** Each written file holds what was fetched for it, under its local name. */
  lemma {:induction false} DownloadWrites(w: World, files: seq<string>, targetDir: string, sourceUrl: Option<string>)
    ensures var r := Download(w, files, targetDir, sourceUrl);
      forall i :: 0 <= i < |r.0| ==>
        && r.0[i].path == LocalFile(targetDir, files[i])
        && FileUrl(files[i], sourceUrl).Ok?
        && LoadText(w, Remote(FileUrl(files[i], sourceUrl).value)) == Ok(r.0[i].content)
    decreases |files|
  {
    if |files| > 0 {
      match FileUrl(files[0], sourceUrl)
      case Err(_) =>
      case Ok(u) =>
        match LoadText(w, Remote(u))
        case Err(_) =>
        case Ok(c) =>
          var rest := Download(w, files[1..], targetDir, sourceUrl);
          var r := Download(w, files, targetDir, sourceUrl);
          assert r.0 == [WriteFile(LocalFile(targetDir, files[0]), c)] + rest.0;
          DownloadWrites(w, files[1..], targetDir, sourceUrl);
          forall i | 0 < i < |r.0|
            ensures && r.0[i].path == LocalFile(targetDir, files[i])
                    && FileUrl(files[i], sourceUrl).Ok?
                    && LoadText(w, Remote(FileUrl(files[i], sourceUrl).value)) == Ok(r.0[i].content)
          {
            assert r.0[i] == rest.0[i - 1];
            assert files[i] == files[1..][i - 1];
          }
    }
  }

  /** A stopped loop stopped at the file after the last one written, whose
      URL or fetch failed. */
  lemma {:induction false} DownloadStops(w: World, files: seq<string>, targetDir: string, sourceUrl: Option<string>)
    ensures var r := Download(w, files, targetDir, sourceUrl);
      r.1.Some? ==>
        var k := |r.0|;
        k < |files| && (FileUrl(files[k], sourceUrl).Err? ||
                        LoadText(w, Remote(FileUrl(files[k], sourceUrl).value)).Err?)
    decreases |files|
  {
    if |files| > 0 {
      match FileUrl(files[0], sourceUrl)
      case Err(_) =>
      case Ok(u) =>
        match LoadText(w, Remote(u))
        case Err(_) =>
        case Ok(c) =>
          var rest := Download(w, files[1..], targetDir, sourceUrl);
          var r := Download(w, files, targetDir, sourceUrl);
          assert r == ([WriteFile(LocalFile(targetDir, files[0]), c)] + rest.0, rest.1);
          DownloadStops(w, files[1..], targetDir, sourceUrl);
          if rest.1.Some? {
            assert |r.0| == 1 + |rest.0|;
            assert files[|r.0|] == files[1..][|rest.0|];
          }
    }
  }

  function EnvLines(envs: seq<string>): (r: seq<Effect>)
    ensures |r| == |envs|
    ensures forall i :: 0 <= i < |r| ==> r[i] == PrintEnvLine(envs[i] + "=")
  {
    seq(|envs|, i requires 0 <= i < |envs| => PrintEnvLine(envs[i] + "="))
  }

  /** The install step: one package-manager run when there are
      dependencies, none otherwise. */
  function InstallStep(cwd: string, present: set<string>, deps: seq<string>): (r: seq<Effect>)
    ensures forall i :: 0 <= i < |r| ==> r[i].RunInstall?
  {
    if |deps| > 0 then [RunInstall(InstallCommand(ChoosePackageManager(cwd, present), deps))] else []
  }

  lemma InstallsOfStep(cwd: string, present: set<string>, deps: seq<string>)
    ensures Installs(InstallStep(cwd, present, deps)) ==
      (if |deps| > 0 then [InstallCommand(ChoosePackageManager(cwd, present), deps)] else [])
  {
    var c := InstallCommand(ChoosePackageManager(cwd, present), deps);
    if |deps| > 0 {
      assert InstallStep(cwd, present, deps) == [RunInstall(c)];
      assert Installs([RunInstall(c)]) == [c] + Installs([]);
    }
  }

  /** The commands of the install effects, in order. */
  function Installs(effs: seq<Effect>): seq<string>
    decreases |effs|
  {
    if |effs| == 0 then []
    else (if effs[0].RunInstall? then [effs[0].command] else []) + Installs(effs[1..])
  }

  lemma {:induction false} InstallsAppend(a: seq<Effect>, b: seq<Effect>)
    ensures Installs(a + b) == Installs(a) + Installs(b)
    decreases |a|
  {
    if |a| == 0 {
      assert a + b == b;
    } else {
      InstallsAppend(a[1..], b);
      assert (a + b)[1..] == a[1..] + b;
    }
  }

  lemma {:induction false} InstallsNone(effs: seq<Effect>)
    requires forall i :: 0 <= i < |effs| ==> !effs[i].RunInstall?
    ensures Installs(effs) == []
    decreases |effs|
  {
    if |effs| > 0 {
      InstallsNone(effs[1..]);
    }
  }

  /** The effects after the optional removal: create the target, download
      the files and, when every download succeeded, install and list the
      environment variables. */
  function Populate(w: World, present: set<string>, target: string, sourceUrl: Option<string>,
                    entry: RegistryEntry): (r: Run)
    ensures |r.effects| >= 1 && r.effects[0] == MakeDir(target)
    ensures forall i :: 0 <= i < |r.effects| ==> !r.effects[i].RemoveDir?
    ensures r.status.Failed? ==> r.status.error == NoSourceUrl || r.status.error.DownloadFailed?
    ensures !r.status.Aborted?
  {
    var d := Download(w, entry.files, target, sourceUrl);
    DownloadErrors(w, entry.files, target, sourceUrl);
    var tail := if d.1.Some? then [] else InstallStep(w.cwd, present, entry.dependencies) + EnvLines(entry.envs);
    var effs := [MakeDir(target)] + d.0 + tail;
    assert forall i :: 0 <= i < |tail| ==> !tail[i].RemoveDir?;
    NoRemoval(target, d.0, tail);
    Run(effs, if d.1.Some? then Failed(d.1.value) else Completed)
  }

  lemma NoRemoval(target: string, writes: seq<Effect>, tail: seq<Effect>)
    requires forall i :: 0 <= i < |writes| ==> writes[i].WriteFile?
    requires forall i :: 0 <= i < |tail| ==> !tail[i].RemoveDir?
    ensures var effs := [MakeDir(target)] + writes + tail;
      forall i :: 0 <= i < |effs| ==> !effs[i].RemoveDir?
  {
    var effs := [MakeDir(target)] + writes + tail;
    forall i | 0 <= i < |effs| ensures !effs[i].RemoveDir? {
      if 1 <= i < 1 + |writes| {
        assert effs[i] == writes[i - 1];
      } else if i >= 1 + |writes| {
        assert effs[i] == tail[i - 1 - |writes|];
      }
    }
  }

  /** A completed population runs the package manager once, with the
      command of the highest-priority lockfile, exactly when the entry has
      dependencies. */
  lemma PopulateInstalls(w: World, present: set<string>, target: string, sourceUrl: Option<string>,
                         entry: RegistryEntry)
    ensures var r := Populate(w, present, target, sourceUrl, entry);
      r.status.Completed? ==>
        Installs(r.effects) == (if |entry.dependencies| > 0
                                then [InstallCommand(ChoosePackageManager(w.cwd, present), entry.dependencies)]
                                else [])
  {
    var d := Download(w, entry.files, target, sourceUrl);
    if d.1.None? {
      PopulateCompleted(w, present, target, sourceUrl, entry);
      InstallsAfterWrites(target, d.0, InstallStep(w.cwd, present, entry.dependencies), EnvLines(entry.envs));
      InstallsOfStep(w.cwd, present, entry.dependencies);
    }
  }

  /** The effects of a population whose downloads all succeeded. */
  lemma PopulateCompleted(w: World, present: set<string>, target: string, sourceUrl: Option<string>,
                          entry: RegistryEntry)
    requires Download(w, entry.files, target, sourceUrl).1.None?
    ensures Populate(w, present, target, sourceUrl, entry).effects
         == [MakeDir(target)] + Download(w, entry.files, target, sourceUrl).0
            + InstallStep(w.cwd, present, entry.dependencies) + EnvLines(entry.envs)
  {
  }

  /** Directory creation, writes and environment lines install nothing. */
  lemma InstallsAfterWrites(target: string, writes: seq<Effect>, inst: seq<Effect>, envs: seq<Effect>)
    requires forall i :: 0 <= i < |writes| ==> writes[i].WriteFile?
    requires forall i :: 0 <= i < |envs| ==> envs[i].PrintEnvLine?
    ensures Installs([MakeDir(target)] + writes + inst + envs) == Installs(inst)
  {
    var head := [MakeDir(target)] + writes;
    assert forall i :: 0 <= i < |head| ==> !head[i].RunInstall? by {
      forall i | 0 <= i < |head| ensures !head[i].RunInstall? {
        if i > 0 {
          assert head[i] == writes[i - 1];
        }
      }
    }
    InstallsBetween(head, inst, envs);
  }

  /** Surrounding effects that install nothing do not change the installs. */
  lemma InstallsBetween(head: seq<Effect>, mid: seq<Effect>, tail: seq<Effect>)
    requires forall i :: 0 <= i < |head| ==> !head[i].RunInstall?
    requires forall i :: 0 <= i < |tail| ==> !tail[i].RunInstall?
    ensures Installs(head + mid + tail) == Installs(mid)
  {
    InstallsNone(head);
    InstallsNone(tail);
    InstallsAppend(head, mid);
    InstallsAppend(head + mid, tail);
  }


  /** `add` once the entry is found. `present` is the set of existing paths
      and `answer` the reply to the overwrite prompt. */
  function AddEntry(w: World, present: set<string>, answer: string, local: string,
                    sourceUrl: Option<string>, name: string, entry: RegistryEntry): (r: Run)
    ensures r.status.Failed? ==> r.status.error == NoSourceUrl || r.status.error.DownloadFailed?
  {
    var target := TargetDir(w.cwd, local, entry.kind, name);
    if target in present && !Confirmed(answer) then Run([], Aborted)
    else
      var p := Populate(w, present, target, sourceUrl, entry);
      if target in present then Run([RemoveDir(target)] + p.effects, p.status) else p
  }

  /** The `add <name>` command. */
  function Add(w: World, present: set<string>, answer: string, settingsArg: Option<string>, name: string,
               decodeSettings: string -> Option<SettingsDoc>,
               decodeRegistry: string -> Option<Registry>): (r: Run)
    ensures r.status.Failed? && r.status.error.UnknownEntry? ==> r.effects == []
  {
    match LoadDocuments(w, settingsArg, true, decodeSettings, decodeRegistry)
    case Err(e) => Run([], Failed(e))
    case Ok((s, reg)) =>
      match Lookup(reg, name)
      case None => Run([], Failed(UnknownEntry(name)))
      case Some(entry) =>
        AddEntry(w, present, answer, s.local.value, s.url, name, entry)
  }

  /** The download loop fails only on a missing source URL or a fetch. */
  lemma {:induction false} DownloadErrors(w: World, files: seq<string>, targetDir: string, sourceUrl: Option<string>)
    ensures var err := Download(w, files, targetDir, sourceUrl).1;
      err.Some? ==> err.value == NoSourceUrl || err.value.DownloadFailed?
    decreases |files|
  {
    if |files| > 0 {
      DownloadErrors(w, files[1..], targetDir, sourceUrl);
    }
  }

  /** A name the registry does not hold exits 1 and touches nothing. */
  lemma UnknownNameExits1(w: World, present: set<string>, answer: string, settingsArg: Option<string>, name: string,
                          decodeSettings: string -> Option<SettingsDoc>,
                          decodeRegistry: string -> Option<Registry>)
    requires LoadDocuments(w, settingsArg, true, decodeSettings, decodeRegistry).Ok?
    requires name !in Keys(LoadDocuments(w, settingsArg, true, decodeSettings, decodeRegistry).value.1)
    ensures var r := Add(w, present, answer, settingsArg, name, decodeSettings, decodeRegistry);
      r == Run([], Failed(UnknownEntry(name))) && ExitCode(r.status) == 1
  {
  }

  /** A settings document without `registry` or without `local` is an
      error before anything is fetched from the registry. */
  lemma MissingSettingIsError(w: World, settingsArg: Option<string>, needLocal: bool,
                              decodeSettings: string -> Option<SettingsDoc>,
                              decodeRegistry: string -> Option<Registry>)
    requires LoadSettings(w, settingsArg).Ok?
    requires decodeSettings(LoadSettings(w, settingsArg).value).Some?
    ensures var s := decodeSettings(LoadSettings(w, settingsArg).value).value;
      !Truthy(s.registry) || (needLocal && !Truthy(s.local)) ==>
        LoadDocuments(w, settingsArg, needLocal, decodeSettings, decodeRegistry) == Err(MissingSetting)
  {
  }

  /** With an existing target directory, any answer but `y` or `Y` exits 0
      having done nothing. */
  lemma OverwriteDeclined(w: World, present: set<string>, answer: string, local: string,
                          sourceUrl: Option<string>, name: string, entry: RegistryEntry)
    requires TargetDir(w.cwd, local, entry.kind, name) in present
    requires answer != "y" && answer != "Y"
    ensures AddEntry(w, present, answer, local, sourceUrl, name, entry) == Run([], Aborted)
    ensures ExitCode(Aborted) == 0
  {
    ConfirmedIff(answer);
  }

  /** With an existing target directory, a `y` or `Y` removes it and then
      creates it afresh. */
  lemma OverwriteConfirmed(w: World, present: set<string>, answer: string, local: string,
                           sourceUrl: Option<string>, name: string, entry: RegistryEntry)
    requires TargetDir(w.cwd, local, entry.kind, name) in present
    requires answer == "y" || answer == "Y"
    ensures var r := AddEntry(w, present, answer, local, sourceUrl, name, entry);
      var target := TargetDir(w.cwd, local, entry.kind, name);
      |r.effects| >= 2 && r.effects[0] == RemoveDir(target) && r.effects[1] == MakeDir(target)
  {
    ConfirmedIff(answer);
    var target := TargetDir(w.cwd, local, entry.kind, name);
    var p := Populate(w, present, target, sourceUrl, entry);
    assert AddEntry(w, present, answer, local, sourceUrl, name, entry).effects == [RemoveDir(target)] + p.effects;
    assert ([RemoveDir(target)] + p.effects)[1] == p.effects[0];
  }

  /** A directory is only ever removed when it existed and the answer was
      `y` or `Y`, and then first of all. */
  lemma RemovalNeedsConsent(w: World, present: set<string>, answer: string, local: string,
                            sourceUrl: Option<string>, name: string, entry: RegistryEntry, i: nat)
    ensures var r := AddEntry(w, present, answer, local, sourceUrl, name, entry);
      i < |r.effects| && r.effects[i].RemoveDir? ==>
        && i == 0
        && r.effects[i].path == TargetDir(w.cwd, local, entry.kind, name)
        && r.effects[i].path in present
        && (answer == "y" || answer == "Y")
  {
    ConfirmedIff(answer);
    var target := TargetDir(w.cwd, local, entry.kind, name);
    var p := Populate(w, present, target, sourceUrl, entry);
    if target in present && Confirmed(answer) && 0 < i < |p.effects| + 1 {
      assert ([RemoveDir(target)] + p.effects)[i] == p.effects[i - 1];
    }
  }

  /** A completed run invokes the package manager once when the entry has
      dependencies, with the command of the highest-priority lockfile, and
      never otherwise. */
  lemma InstallOnlyWithDependencies(w: World, present: set<string>, answer: string, local: string,
                                    sourceUrl: Option<string>, name: string, entry: RegistryEntry)
    ensures var r := AddEntry(w, present, answer, local, sourceUrl, name, entry);
      r.status.Completed? ==>
        Installs(r.effects) == (if |entry.dependencies| > 0
                                then [InstallCommand(ChoosePackageManager(w.cwd, present), entry.dependencies)]
                                else [])
  {
    var target := TargetDir(w.cwd, local, entry.kind, name);
    var r := AddEntry(w, present, answer, local, sourceUrl, name, entry);
    if target !in present || Confirmed(answer) {
      var p := Populate(w, present, target, sourceUrl, entry);
      PopulateInstalls(w, present, target, sourceUrl, entry);
      InstallsAfterRemoval(target, p.effects);
    }
  }

  lemma InstallsAfterRemoval(target: string, effs: seq<Effect>)
    ensures Installs([RemoveDir(target)] + effs) == Installs(effs)
  {
    assert ([RemoveDir(target)] + effs)[1..] == effs;
  }

  /** On a fresh target `add` only populates it; on an existing one it
      removes it first, given consent. */
  lemma AddEntryFresh(w: World, present: set<string>, answer: string, local: string,
                      sourceUrl: Option<string>, name: string, entry: RegistryEntry)
    ensures var target := TargetDir(w.cwd, local, entry.kind, name);
      target !in present ==>
        AddEntry(w, present, answer, local, sourceUrl, name, entry)
        == Populate(w, present, target, sourceUrl, entry)
  {
  }

  /** A file that downloads is written and the loop goes on with the rest. */
  lemma DownloadCons(w: World, f: string, rest: seq<string>, target: string, sourceUrl: Option<string>, c: string)
    requires FileUrl(f, sourceUrl).Ok? && LoadText(w, Remote(FileUrl(f, sourceUrl).value)) == Ok(c)
    ensures var d := Download(w, rest, target, sourceUrl);
      Download(w, [f] + rest, target, sourceUrl) == ([WriteFile(LocalFile(target, f), c)] + d.0, d.1)
  {
    assert ([f] + rest)[1..] == rest;
  }

  /** Two files that download, no dependencies, no environment variables:
      the run creates the target, writes the two files under their base
      names and runs no package manager. With `AddEntryFresh`, this is
      what `add` does on a clean target directory. */
  lemma TwoFilesNoDependencies(w: World, present: set<string>, target: string, sourceUrl: Option<string>,
                               kind: string, name: string, f1: string, f2: string, c1: string, c2: string)
    requires FileUrl(f1, sourceUrl).Ok? && LoadText(w, Remote(FileUrl(f1, sourceUrl).value)) == Ok(c1)
    requires FileUrl(f2, sourceUrl).Ok? && LoadText(w, Remote(FileUrl(f2, sourceUrl).value)) == Ok(c2)
    ensures Populate(w, present, target, sourceUrl, RegistryEntry(kind, name, [f1, f2], [], []))
      == Run([MakeDir(target),
              WriteFile(JoinPath(target, Basename(f1)), c1),
              WriteFile(JoinPath(target, Basename(f2)), c2)], Completed)
  {
    var e := RegistryEntry(kind, name, [f1, f2], [], []);
    var writes := [WriteFile(LocalFile(target, f1), c1), WriteFile(LocalFile(target, f2), c2)];
    DownloadTwo(w, target, sourceUrl, f1, f2, c1, c2);
    PopulateCompleted(w, present, target, sourceUrl, e);
    assert InstallStep(w.cwd, present, []) == [];
    assert EnvLines([]) == [];
    assert [MakeDir(target)] + writes + [] + [] == [MakeDir(target)] + writes;
    assert Populate(w, present, target, sourceUrl, e).status == Completed;
  }

  lemma DownloadTwo(w: World, target: string, sourceUrl: Option<string>, f1: string, f2: string, c1: string, c2: string)
    requires FileUrl(f1, sourceUrl).Ok? && LoadText(w, Remote(FileUrl(f1, sourceUrl).value)) == Ok(c1)
    requires FileUrl(f2, sourceUrl).Ok? && LoadText(w, Remote(FileUrl(f2, sourceUrl).value)) == Ok(c2)
    ensures Download(w, [f1, f2], target, sourceUrl)
         == ([WriteFile(LocalFile(target, f1), c1), WriteFile(LocalFile(target, f2), c2)], None)
  {
    var w1 := WriteFile(LocalFile(target, f1), c1);
    var w2 := WriteFile(LocalFile(target, f2), c2);
    assert Download(w, [], target, sourceUrl) == ([], None);
    DownloadCons(w, f2, [], target, sourceUrl, c2);
    assert [f2] + [] == [f2];
    assert [w2] + [] == [w2];
    DownloadCons(w, f1, [f2], target, sourceUrl, c1);
    assert [f1] + [f2] == [f1, f2];
    assert [w1] + [w2] == [w1, w2];
  }}
