# tsai-registry: manifest builder, CLI and docs navigation in Dafny

tsai-registry is a registry of ready-made Mastra agents, workflows, tools and
MCP servers. Users copy an entry into their own project with a small CLI.
This project models the logic of that system that does not depend on its
runtime:

- **The manifest builder** (`cli/build.ts`). It walks
  `app/src/mastra/registry/<type>/<name>/`, scans every file for `import`
  specifiers and `process.env.X` reads, and writes one manifest value per
  entry directory. Each value has the entry's type, name, files,
  deduplicated package names and deduplicated variable names. Modules
  `Walker`, `Extract` and `Manifest`, built on `Text`, `Seqs` and `Paths`.
- **The loaders** (`cli/utils.ts` and the copies in `cli/index.ts`). They
  decide whether settings and the registry come from a URL or a local file.
  A registry path that is not a URL is rewritten to the raw GitHub URL of
  the configured repository. Module `Locations`.
- **The CLI commands** `list` and `add` (`cli/index.ts`). `list` selects
  entries by type and prints them. `add` covers the target directory, the
  overwrite prompt, the downloads, the choice of package manager from
  lockfiles, the install command and the environment lines. Module `Cli`.
- **The docs navigation** (`docs/src/lib/docs-navigation.ts`). This covers
  titles made from file names, icons chosen by keyword, the page tree built
  from the glob of page paths, and its rendering into sorted navigation
  items. Modules `Titles`, `NavTree` and `Nav`.

The outside world is passed in as values:

- A directory tree is a `Node` tree.
- `fetch` and the file system are the maps of a `World`.
- The answer to the overwrite prompt is a string.
- The existing lockfiles are a set of paths.
- JSON decoding is a function parameter.
- `localeCompare` is a collation key, `collate: string -> real`.

Effects of `add` are returned as a list of `Effect` values, in the order the
command performs them.

## Model

| member | source | states |
|---|---|---|
| Text.IndexOf | docs/src/lib/docs-navigation.ts:39-43 | `includes` and the first match: the index returned is an occurrence of the pattern, no earlier index is, and `None` means the pattern occurs nowhere |
| Text.ContainsIff | docs/src/lib/docs-navigation.ts:39 | a substring test succeeds exactly when the pattern occurs at some position |
| Text.ReplaceFirst | cli/utils.ts:26 | a string-pattern `replace` changes only the first occurrence, and leaves a string without the pattern unchanged |
| Text.Split | cli/build.ts:45 | `split` yields at least one field, and no field contains the separator |
| Text.JoinSplit | cli/build.ts:45 | joining the fields of a split with the same separator gives back the original string |
| Text.SplitJoin | cli/index.ts:183-186 | splitting a join of separator-free fields gives back exactly those fields |
| Text.SplitLastField | docs/src/lib/docs-navigation.ts:83 | the text after the last separator is the last field of the split (what `pop()` returns) |
| Text.SplitFirstField | cli/build.ts:45-46 | the first field is a prefix of the string, and it is the whole string exactly when there is no separator |
| Text.Lower | cli/index.ts:151 | lower-casing keeps the length and maps each character on its own |
| Text.LowerIdempotent | docs/src/lib/docs-navigation.ts:38 | lower-casing a lower-cased name changes nothing |
| Text.LowerIsY | cli/index.ts:151 | an answer lower-cases to `y` exactly when it is `y` or `Y` |
| Seqs.Dedup | cli/build.ts:88-89 | `Array.from(new Set(xs))` has no duplicates and holds exactly the values of `xs` |
| Seqs.DedupOrder | cli/build.ts:88-89 | the deduplicated values appear in the order of their first occurrence in the input |
| Seqs.DedupUnique | cli/build.ts:88-89 | no duplicates, the same values and first-occurrence order together determine the result: any sequence with the three properties is `Dedup` |
| Seqs.DedupIdempotent | cli/build.ts:88-89 | deduplicating twice is deduplicating once |
| Seqs.DedupOfDistinct | cli/build.ts:55 | a sequence without duplicates is its own deduplication |
| Seqs.DedupAppend | cli/build.ts:85 | deduplicating a concatenation keeps the values of the first part, then the new values of the second part in their order |
| Seqs.DedupFlattenDedups | cli/build.ts:83-89 | deduplicating each file's list before the entry-wide deduplication changes nothing |
| Paths.JoinPath | cli/build.ts:23 | `path.join(dir, name)` is the directory, then one `/`, then the name |
| Paths.RelativeJoin | cli/build.ts:80 | `path.relative(base, p)` of a path joined below `base` gives back the relative part |
| Paths.Resolve | cli/utils.ts:14-16 | an absolute path is kept, and a relative one is placed below the working directory |
| Paths.TrimTrailingSlashes | cli/index.ts:170 | the trimmed path is a prefix of the original, does not end in `/`, and only slashes were removed |
| Paths.BasenameOfJoin | cli/index.ts:170 | the basename of `dir/name` is `name` |
| Walker.Walk | cli/build.ts:19-35 | every listed file lies below the walked directory |
| Walker.WalkComplete | cli/build.ts:19-35 | the walk reports exactly the files of the tree, at any depth, whose path does not end in an ignored extension |
| Walker.ListFilesRecursive | cli/build.ts:19-35 | the listed paths are, in walk order, exactly the paths of the files of the tree, at any depth, that end in no ignored extension |
| Walker.WalkPaths | cli/build.ts:19-35 | a path is found by the walk exactly when it names a file of the tree that ends in no ignored extension |
| Walker.NothingIgnoredByDefault | cli/build.ts:9 | when no ignore list is configured, every file of the tree is listed |
| Extract.NextQuote | cli/build.ts:39 | finds the first quote character at or after a position, and `None` means there is none |
| Extract.TrailingSpaces | cli/build.ts:39 | measures the maximal whitespace suffix, so the `\s+` before the quote is as long as possible |
| Extract.ImportMatchAt | cli/build.ts:39 | a match at a position has the form `import`, a gap the pattern admits, a quote, and a non-empty quote-free capture |
| Extract.ImportSpecifiers | cli/build.ts:42-43 | every capture of the import regex is non-empty and free of quotes |
| Extract.Normalize | cli/build.ts:44-52 | a specifier yields a non-empty package name that is a prefix of it and is not local, or nothing |
| Extract.IsLocalFirstChar | cli/build.ts:44 | a specifier is local exactly when it starts with `.` or `/` |
| Extract.NormalizeScoped | cli/build.ts:47-48 | a scoped specifier `@scope/name/...` is reduced to `@scope/name` |
| Extract.NormalizeBareScope | cli/build.ts:48 | a scope with no package name after it, as `@scope` or `@scope/`, names no package |
| Extract.NormalizeUnscoped | cli/build.ts:49-50 | an unscoped specifier such as `dotenv/config` is reduced to its first segment |
| Extract.NormalizeIdempotent | cli/build.ts:44-52 | a package name normalises to itself |
| Extract.NormalizeAll | cli/build.ts:42-54 | the normalised list holds exactly the package names some specifier names |
| Extract.NormalizeAllAppend | cli/build.ts:42-54 | normalising keeps the specifiers' order: the names of an earlier run of specifiers come before those of a later one |
| Extract.ExtractDependencies | cli/build.ts:38-56 | the result has no duplicates, holds exactly the package names the file's imports name, and none of them is local or empty; the names appear in the order of their first import |
| Extract.EnvMatchAt | cli/build.ts:60 | a match is `process.env.` followed by the maximal non-empty run of `[A-Z0-9_]` |
| Extract.NoMatchInside | cli/build.ts:63 | no match of the env regex starts strictly inside another match |
| Extract.RefSkipMatch | cli/build.ts:63 | after a match, the scan may resume past its end without losing a reference |
| Extract.ScanEnvsComplete | cli/build.ts:59-65 | the global regex scan finds every variable read through `process.env.` and nothing else |
| Extract.ExtractEnvs | cli/build.ts:59-67 | the result has no duplicates and holds exactly the variables the file reads through `process.env.`, in the order of their first read |
| Manifest.SupportedTypeCases | cli/build.ts:16 | the supported types are `agents`, `workflows`, `tools` and `mcp` |
| Manifest.Lookup | cli/index.ts:141 | a key is found exactly when the object holds it |
| Manifest.Put | cli/build.ts:90 | an assignment to an existing key keeps the key order, and a new key is appended last |
| Manifest.PutLookup | cli/build.ts:90-96 | after an assignment the key reads back the new value, and every other key reads as before |
| Manifest.PutItems | cli/build.ts:90 | an assignment adds no item other than the one it stores |
| Manifest.PutWellFormed | cli/build.ts:90-92 | storing a value under its own name keeps keys distinct and each value named after its key |
| Manifest.BuildEntryContents | cli/build.ts:79-96 | an entry lists one relative path per walked file, and each package name and variable some file mentions exactly once |
| Manifest.EntryDependenciesOneSet | cli/build.ts:83-89 | the entry's dependencies are one first-occurrence deduplication of all package names, across files in walk order |
| Manifest.AddEntries | cli/build.ts:76-78 | the inner loop adds exactly the subdirectories of the type directory as keys, and plain files are skipped |
| Manifest.LastEntryDir | cli/build.ts:76-78 | finds the last subdirectory with a given name in the listing |
| Manifest.AddEntriesLookup | cli/build.ts:76-96 | the value stored under a key is the entry built from the last listed subdirectory of that name, or the old value when none is listed |
| Manifest.TypeDir | cli/build.ts:73-74 | the type directory found carries the type's name |
| Manifest.AddTypes | cli/build.ts:72-98 | the outer loop fails exactly when a type "directory" is a plain file, and otherwise adds exactly the entry directories of the listed types as keys, keeping the registry well formed |
| Manifest.AddTypesUntouched | cli/build.ts:72-98 | a key no type directory lists keeps its value |
| Manifest.EntryChildren | cli/build.ts:73-78 | a listing is found exactly when the type directory has a subdirectory of that name |
| Manifest.AddTypesLastWins | cli/build.ts:72-98 | a name listed under several types is stored with the entry built from the directory of the last of those types |
| Manifest.Build | cli/build.ts:69-98 | the build fails exactly when a supported type's path is a file, and otherwise yields a well-formed registry keyed by exactly the entry directories of the supported types |
| Manifest.BuildKinds | cli/build.ts:90-96 | each built value is named after its key and records the last supported type whose directory lists that name, and is the entry built from that directory's files, dependencies and variables |
| Manifest.LookupName | cli/build.ts:90-92 | in a registry whose values carry their key, a lookup returns a value with that name |
| Locations.RawHostIsRemote | cli/utils.ts:9 | a raw GitHub URL passes the URL test |
| Locations.DefaultIsRemote | cli/utils.ts:7 | the default settings location is a URL |
| Locations.SettingsLocation | cli/utils.ts:6-8 | a missing or empty settings argument is replaced by the default URL, a remote location, and any other argument is used as given |
| Locations.RawUrl | cli/utils.ts:26-28 | the rewritten location is a raw GitHub URL ending in `/refs/heads/main/<path>` |
| Locations.RawUrlOfGithubRepo | cli/utils.ts:26-28 | for `https://github.com/<repo>` the rewrite names the same repository on the raw host |
| Locations.RegistryLocation | cli/utils.ts:25-29 | a URL, or a path with no source URL configured, is kept, and any other path is rewritten to the raw URL |
| Locations.RegistryLocationRemote | cli/utils.ts:25-30 | after the rewrite a location is a URL exactly when it was one already or a source URL is configured |
| Locations.Classify | cli/utils.ts:9-17 | a location is fetched exactly when it passes the URL test, and otherwise is resolved against the working directory |
| Locations.LoadText | cli/utils.ts:10-18 | a fetch succeeds exactly on an `ok` response, a failed one reports its status text, and a file is read exactly when it exists, otherwise "not found" names the resolved path |
| Locations.LoadSettings | cli/utils.ts:4-21 | loaded settings text is the body of the fetched URL or the content of the resolved file |
| Locations.LoadRegistry | cli/utils.ts:23-42 | loaded registry text comes from the rewritten location, fetched or read from the resolved file |
| Locations.DefaultSettingsFetched | cli/utils.ts:6-12 | with no settings argument the settings text is the default URL's answer, and no file is read |
| Locations.RegistryPathFetchedFromGithub | cli/index.ts:35-46 | with a GitHub source URL configured, a registry path is fetched from that repository's `main` branch |
| Locations.FailuresAreErrors | cli/utils.ts:31-38 | a failed fetch or a missing registry file is an error, never a document |
| Cli.LoadDocuments | cli/index.ts:96-100 | a command proceeds only with a registry setting, and for `add` also a local setting; a settings load failure is reported as such |
| Cli.MissingSettingIsError | cli/index.ts:139 | a settings document without `registry`, or without `local` when `add` needs it, stops the command with the missing-setting error |
| Cli.Singular | cli/index.ts:103 | `slice(0, -1)` drops exactly the last character, and an empty string stays empty |
| Cli.SelectKind | cli/index.ts:102-104 | selection keeps exactly the entries of the requested type, or all of them without a type, and never adds any |
| Cli.SelectKindAppend | cli/index.ts:102-104 | selection keeps registry order: selecting from two parts of a registry is selecting from each part in turn |
| Cli.ListKindAsWritten | cli/index.ts:101-103 | the type `list` compares with, as written: the argument without its last character, and none when no type is given |
| Cli.SingularNotSupported | cli/index.ts:103 | no supported type is the singular of another supported type |
| Cli.TypedListOfBuiltManifestIsEmpty | cli/index.ts:101-104 | as written, `list <type>` over a manifest the build produced selects nothing |
| Cli.ListAgentsShowsNothing | cli/index.ts:101-106 | a built `agents` entry is not shown by `list agents` |
| Cli.ListKind | cli/index.ts:101-103 | the corrected comparison uses the type argument as given |
| Cli.TypedListSelectsKind | cli/index.ts:102-104 | with the corrected comparison, `list <type>` shows exactly the keys whose value has that type |
| Cli.LookupUnique | cli/index.ts:141 | in a registry with distinct keys, looking up an item's key returns that item's value |
| Cli.ListLine | cli/index.ts:110 | a listing line starts with `- <name>` and ends with `[<type>]` |
| Cli.ListOutput | cli/index.ts:105-111 | an empty selection prints one message, naming the type when one is given, and otherwise one line per selected entry in order |
| Cli.List | cli/index.ts:94-117 | `list` fails exactly when the settings or the registry cannot be loaded or decoded, or the settings lack the registry setting, with that error, and otherwise prints at least one line |
| Cli.TypedListOfBuiltManifest | cli/index.ts:100-106 | as written, `list <type>` over a loaded manifest the build produced prints only `Aucun objet de type <type>` |
| Cli.ListCorrected | cli/index.ts:94-117 | the corrected `list` fails exactly when the documents cannot be loaded, and otherwise prints at least one line |
| Cli.ListCorrectedShowsKind | cli/index.ts:100-111 | with the corrected comparison, `list <type>` prints the line of every entry the manifest stores with that type |
| Cli.TargetDirShape | cli/index.ts:147 | the target directory is named after the entry and lies below `<cwd>/<local>/<type>` |
| Cli.ConfirmedIff | cli/index.ts:151 | the overwrite prompt proceeds exactly on `y` or `Y` |
| Cli.FileUrl | cli/index.ts:160-166 | a file starting with `http` is fetched as is, any other needs the source URL and is fetched from the raw GitHub URL |
| Cli.FileUrlPrefixIsLoose | cli/index.ts:161 | a registry file named like `httpclient.ts` is fetched as a URL although it is not one |
| Cli.LocalFileInTarget | cli/index.ts:170 | every downloaded file lands directly inside the target directory |
| Cli.LocalFileFlattens | cli/index.ts:170 | files with the same name in different registry subdirectories are written to the same local file |
| Cli.ChoosePackageManager | cli/index.ts:178-181 | the package manager is the first of pnpm, npm, yarn whose lockfile exists, and Bun when none does |
| Cli.InstallWords | cli/index.ts:183-186 | each package manager is invoked with a tool word and a verb word, neither containing a space |
| Cli.InstallCommandWords | cli/index.ts:183-186 | split on spaces, the install command is the tool, its verb, then exactly the dependencies |
| Cli.ExitCode | cli/index.ts:153 | the exit code is 0 exactly when the run did not fail, so a declined overwrite exits 0 |
| Cli.Download | cli/index.ts:159-173 | the download loop writes at most one file per registry file, and all of them when it does not stop |
| Cli.DownloadWrites | cli/index.ts:159-171 | each written file holds what was fetched for its registry file, under its local name |
| Cli.DownloadStops | cli/index.ts:161-168 | a stopped loop stopped at the file after the last one written, whose URL or fetch failed |
| Cli.DownloadErrors | cli/index.ts:163-168 | the download loop fails only on a missing source URL or a failed fetch |
| Cli.EnvLines | cli/index.ts:191-196 | one `NAME=` line per variable of the entry, in order |
| Cli.InstallsOfStep | cli/index.ts:175-189 | the install step runs the chosen command once when there are dependencies, and nothing otherwise |
| Cli.Populate | cli/index.ts:157-196 | populating creates the target first, never removes anything, is never a cancellation, and fails only on a download |
| Cli.PopulateInstalls | cli/index.ts:175-189 | a completed population runs the package manager once, with the highest-priority lockfile's command, exactly when the entry has dependencies |
| Cli.AddEntry | cli/index.ts:147-197 | `add` on a found entry fails only on a missing source URL or a failed download |
| Cli.Add | cli/index.ts:132-202 | an unknown entry fails with no effect |
| Cli.UnknownNameExits1 | cli/index.ts:141-145 | a name the registry does not hold exits 1 and touches nothing |
| Cli.OverwriteDeclined | cli/index.ts:148-154 | with an existing target, any answer but `y` or `Y` aborts with exit code 0 and no effect |
| Cli.OverwriteConfirmed | cli/index.ts:148-157 | with an existing target, `y` or `Y` removes it and then recreates it |
| Cli.RemovalNeedsConsent | cli/index.ts:148-155 | a directory is removed only as the first effect, only the target, and only after a `y` or `Y` answer |
| Cli.InstallOnlyWithDependencies | cli/index.ts:175-189 | a completed `add` installs once with the chosen command exactly when the entry has dependencies |
| Cli.AddEntryFresh | cli/index.ts:148-157 | on a fresh target `add` only populates it |
| Cli.TwoFilesNoDependencies | cli/index.ts:157-197 | two downloadable files and no dependencies or variables: create the directory, write both files in order, complete |
| Titles.LeadingDigits | docs/src/lib/docs-navigation.ts:28 | counts the maximal run of ASCII digits at the start |
| Titles.StripNumericPrefix | docs/src/lib/docs-navigation.ts:28 | the result is a suffix of the name, what was removed is digits followed by a dash, and a name is unchanged only when no prefix of it has that form |
| Titles.Dashes | docs/src/lib/docs-navigation.ts:29 | every `-` and `_` becomes a space, and nothing else changes |
| Titles.StripExtension | docs/src/lib/docs-navigation.ts:30 | the result is a prefix of the name, what was removed is one of `.md`, `.mdx`, `.astro`, and a name is unchanged only when it ends in none of them |
| Titles.Capitalize | docs/src/lib/docs-navigation.ts:32 | only the first character is upper-cased, and the length is kept |
| Titles.CapitalizeAll | docs/src/lib/docs-navigation.ts:32 | every word is capitalised, one for one |
| Titles.FormatTitleNoDashes | docs/src/lib/docs-navigation.ts:26-34 | a title never contains `-` or `_` |
| Titles.FormatTitleWords | docs/src/lib/docs-navigation.ts:26-34 | the words of a title are the capitalised words of the stripped name |
| Titles.FormatTitleOfOrderedPage | docs/src/lib/docs-navigation.ts:26-34 | an ordered page `<digits>-<a>_<b>.mdx` is titled `A B`, its two capitalised words |
| Titles.GetIconFirstMatch | docs/src/lib/docs-navigation.ts:37-45 | the icon is that of the first keyword rule whose keyword occurs in the lower-cased name |
| Titles.GetIconDefault | docs/src/lib/docs-navigation.ts:44 | the icon is `FileText` exactly when no rule matches |
| Titles.RuleMatchesIff | docs/src/lib/docs-navigation.ts:39-43 | each rule matches exactly when one of its keywords occurs in the name |
| Titles.GetIconCaseInsensitive | docs/src/lib/docs-navigation.ts:38 | the icon ignores ASCII case |
| Titles.AgentToolsIsUsers | docs/src/lib/docs-navigation.ts:41-42 | a name matching both the agent rule and the tool rule gets the earlier rule's icon, `Users` |
| NavTree.FirstLine | docs/src/lib/docs-navigation.ts:56 | finds where the first line ends, the part of the path the regex `.` can span |
| NavTree.LastMarker | docs/src/lib/docs-navigation.ts:56 | finds the last occurrence of `/pages/docs/` at or before a position |
| NavTree.RelPath | docs/src/lib/docs-navigation.ts:56 | the relative path is the suffix after the last `/pages/docs/` starting on the first line, and a path without one is kept |
| NavTree.FindKey | docs/src/lib/docs-navigation.ts:63 | finds the first entry with a given key, and `None` means there is none |
| NavTree.Insert | docs/src/lib/docs-navigation.ts:59-69 | inserting keeps every existing key in place and every page unchanged, and adds at most the first name as a new last key |
| NavTree.InsertFirstWins | docs/src/lib/docs-navigation.ts:63-67 | a path that already leads to a node, or runs through a page, leaves the tree unchanged |
| NavTree.InsertFresh | docs/src/lib/docs-navigation.ts:59-69 | a free path leads to the inserted page afterwards |
| NavTree.InsertKeepsPages | docs/src/lib/docs-navigation.ts:63-67 | a page already in the tree stays where it is, whatever is inserted |
| NavTree.FindKeyUnique | docs/src/lib/docs-navigation.ts:63 | the first position holding a key is the one the lookup returns |
| NavTree.Names | docs/src/lib/docs-navigation.ts:62 | each segment is filed under its name without extension |
| NavTree.PageFor | docs/src/lib/docs-navigation.ts:65 | the node created for a file is a page whose path starts with `/docs/` |
| NavTree.Filings | docs/src/lib/docs-navigation.ts:54-57 | one filing per glob entry, in the glob's key order |
| NavTree.InsertWellFormed | docs/src/lib/docs-navigation.ts:59-69 | inserting keeps keys distinct in every folder and every page under `/docs/` |
| NavTree.InsertAllWellFormed | docs/src/lib/docs-navigation.ts:54-70 | the tree built from all filings is well formed |
| NavTree.BuildTreeWellFormed | docs/src/lib/docs-navigation.ts:53-70 | every tree built from a glob result is well formed |
| NavTree.InsertAllKeepsPages | docs/src/lib/docs-navigation.ts:54-70 | a page filed by an earlier glob entry is never replaced by a later one |
| NavTree.InsertAllFiles | docs/src/lib/docs-navigation.ts:54-70 | a filing whose path is free when it comes up is filed there |
| NavTree.InsertAllFirstWins | docs/src/lib/docs-navigation.ts:54-70 | a filing whose path is free when it comes up is still found at that path in the finished tree |
| Nav.InsertSorted | docs/src/lib/docs-navigation.ts:101 | inserting into a sorted list keeps it sorted and adds exactly the one item |
| Nav.InsertSortedPosition | docs/src/lib/docs-navigation.ts:101 | an item goes after every item it does not strictly precede, which makes the sort stable |
| Nav.SortItems | docs/src/lib/docs-navigation.ts:101 | the sorted list orders by `order`, then by title collation, and is a permutation of the input |
| Nav.SortedFirstIsMin | docs/src/lib/docs-navigation.ts:97 | a sorted list starts with its smallest order |
| Nav.Item | docs/src/lib/docs-navigation.ts:76-99 | an entry renders as a link exactly when it is a page |
| Nav.PageLink | docs/src/lib/docs-navigation.ts:79-89 | a page links to its path, with `/docs/index` shown as `/docs`; its icon comes from its key, a missing order reads as 9999, and the title is the navbar title, else `Introduction` for the docs root |
| Nav.IndexTitledAfterFolder | docs/src/lib/docs-navigation.ts:83 | an `index` page without a navbar title is titled after the folder that holds it |
| Nav.KeyTitle | docs/src/lib/docs-navigation.ts:83 | any other page without a navbar title is titled after its own key, with no dash or underscore |
| Nav.SectionOrder | docs/src/lib/docs-navigation.ts:91-98 | a folder becomes a section titled and iconed after its key and holding its rendered children; its order is the smallest child order, 9999 when empty |
| Nav.TreeToNav | docs/src/lib/docs-navigation.ts:73-102 | the rendered items are sorted |
| Nav.MappedMembers | docs/src/lib/docs-navigation.ts:74-100 | the mapped items are exactly the items of the entries with non-reserved keys |
| Nav.TreeToNavMembers | docs/src/lib/docs-navigation.ts:74-101 | a folder lists one item per entry whose key is not reserved, and no other |
| Nav.TreeToNavLength | docs/src/lib/docs-navigation.ts:74-101 | sorting neither drops nor repeats items: a folder lists as many items as it has visible entries |
| Nav.GetNavigationItems | docs/src/lib/docs-navigation.ts:105-116 | the navigation is a `Home` link to `/` and a `Documentation` group with the `BookOpen` icon holding items sorted by order, then title |

## Left out

- File-system and network effects: `fs.readdirSync`, `statSync`, `existsSync`, `readFileSync`, `writeFileSync`, `rmSync`, `mkdirSync`, `fetch`, Bun's `write` and `registry.json` output. They are values (a `Node` tree, a `World`) or returned `Effect`s.
- `JSON.parse` and `JSON.stringify`: decoding is a function parameter of `Cli.LoadDocuments`, and the manifest is a key-ordered list of items.
- Argument parsing with yargs, the `readline-sync` prompt, and console output other than the `list` lines and the `NAME=` lines.
- The `build` command (cli/index.ts:204-225) only spawns `bun build.ts`. Its `registryPath` argument is never passed on, so the script always uses `app/src/mastra/registry`. The process spawn is not modelled.
- `execSync` of the install command: its output and failure are outside the model, and the command string is what `add` runs.
- `localeCompare` is a collation key `collate: string -> real`. A total preorder on titles is all the sort relies on. Locale data is not modelled.
- Upper- and lower-casing cover ASCII letters only, not full Unicode case mapping.
- `path.join` normalisation of `.`, `..` and repeated slashes. Joins are modelled on clean segments.
- JavaScript's ordering of integer-like object keys before other keys. Object keys are kept in insertion order.
- Keys inherited from `Object.prototype`, such as `registry["constructor"]` or a page folder named `constructor`.
- Nav.Item: chooses the page branch by the node's constructor, where the source (docs/src/lib/docs-navigation.ts:77) tests a truthy `__file` key. A glob path with a segment named `__file`, such as `/src/pages/docs/guide/__file.md` or `/src/pages/docs/guide/__file/x.md`, gives the folder `guide` such a key: the source then renders `guide` as a page and throws a TypeError when it reads `value.frontmatter.navbar_title` (line 80), or, with a sibling `guide/frontmatter.md`, renders a link with no `url`. The model renders an ordinary section `Guide` instead.
- Writing into a page node while building the docs tree (a page path used as a folder) is modelled as leaving the tree unchanged, and here the model differs from the source. The source walks into the page object: a path through one of its field names writes into that field, so `guide.mdx` together with `guide/frontmatter/order.md` stores a page object as the frontmatter's `order` of `guide` when it has none (its sort key is then not a number), and `guide/frontmatter/navbar_title.md` gives it an object for a title the same way; a path through a string field such as `path` throws in strict mode. Other paths through a page add keys that the rendering never visits.
- `import.meta.glob` is an input: a list of paths with their frontmatter, in key order.
- `order` values that are not integers, and `navbar_title` values that are not strings.
- NavTree.RelPath: states the regex match on any path, and no lemma evaluates it on a concrete glob path.
- Nav.SortItems: stability is stated through the position of each insertion (Nav.InsertSortedPosition), not as a whole-list property.
- Nav.GetNavigationItems: does not state which items the tree produces for a given glob result, only their shape and order. NavTree and Nav.TreeToNavMembers state those separately.
- The source has no `init` command, no upserting of `.env` files and no layering of several settings files, so none is modelled.
- The registry content under `app/`, the Astro site's pages and components, and the test files are not part of this model.

## Findings

| source | as written | input that shows it | evidently intended | confidence | as-written member | corrected member |
|---|---|---|---|---|---|---|
| cli/index.ts:103 | `list <type>` keeps entries whose `type` equals the argument without its last character, but the build stores the plural type name (cli/build.ts:90-91) | a manifest with entry `exa-agent` of type `agents`, listed with `list agents`: the comparison is against `agent`, so nothing is shown | keep entries whose type equals the argument, so `list agents` shows `exa-agent` | not executed | Cli.List | Cli.ListCorrected |
