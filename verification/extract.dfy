/** The two textual scans the manifest builder runs over every registry file
    (cli/build.ts): import specifiers reduced to top-level package names, and
    the environment variable names read through `process.env.NAME`. */
module Extract {
  import opened Outcomes
  import opened Text
  import opened Seqs

  // ---------------------------------------------------------------------
  // The import scanner: the global regular expression
  //   import\s+(?:[^'"]+from\s+)?["']([^"']+)["']
  // Its first quote is the first quote after `import`; what lies between
  // must be whitespace alone, or start with whitespace and end with `from`
  // followed by whitespace. The capture is the non-empty quote-free run up to
  // the next quote.

  predicate IsQuote(c: char) {
    c == '\'' || c == '"'
  }

  /** Index of the first quote at or after `from`. */
  function NextQuote(s: string, from: nat): (r: Option<nat>)
    ensures r.Some? ==> from <= r.value < |s| && IsQuote(s[r.value])
    ensures r.Some? ==> forall j :: from <= j < r.value ==> !IsQuote(s[j])
    ensures r.None? ==> forall j :: from <= j < |s| ==> !IsQuote(s[j])
    decreases |s| - from
  {
    if from >= |s| then None
    else if IsQuote(s[from]) then Some(from)
    else NextQuote(s, from + 1)
  }

  predicate AllSpace(t: string) {
    forall i :: 0 <= i < |t| ==> IsJsSpace(t[i])
  }

  /** Length of the longest all-whitespace suffix of `t`. */
  function TrailingSpaces(t: string): (n: nat)
    ensures n <= |t|
    ensures forall i :: |t| - n <= i < |t| ==> IsJsSpace(t[i])
    ensures n < |t| ==> !IsJsSpace(t[|t| - n - 1])
    decreases |t|
  {
    if |t| == 0 || !IsJsSpace(t[|t| - 1]) then 0
    else
      var init := t[..|t| - 1];
      var n := TrailingSpaces(init);
      assert forall i :: 0 <= i < |init| ==> init[i] == t[i];
      n + 1
  }

  /** `\s+[^'"]+from\s+` matches the quote-free `gap` exactly. */
  predicate FromClause(gap: string) {
    var n := TrailingSpaces(gap);
    n >= 1 && |gap| - n >= 6 && IsJsSpace(gap[0])
    && gap[|gap| - n - 4..|gap| - n] == "from"
  }

  /** What may stand between `import` and the opening quote. */
  predicate ImportGap(gap: string) {
    (|gap| >= 1 && AllSpace(gap)) || FromClause(gap)
  }

  /** The match of the import expression that starts at index `i`, as the
      captured specifier and the index just past the closing quote. */
  function ImportMatchAt(s: string, i: nat): (r: Option<(string, nat)>)
    ensures r.Some? ==>
      var (spec, end) := r.value;
      && OccursAt(s, "import", i)
      && |spec| >= 1 && i + 6 + 1 + |spec| + 1 <= end <= |s|
      && IsQuote(s[end - |spec| - 2]) && IsQuote(s[end - 1])
      && s[end - |spec| - 1..end - 1] == spec
      && (forall k :: 0 <= k < |spec| ==> !IsQuote(spec[k]))
  {
    if !OccursAt(s, "import", i) then None
    else
      match NextQuote(s, i + 6)
      case None => None
      case Some(q) =>
        if !ImportGap(s[i + 6..q]) then None
        else
          match NextQuote(s, q + 1)
          case None => None
          case Some(e) =>
            if e == q + 1 then None
            else
              assert |s[i + 6..q]| >= 1;
              Some((s[q + 1..e], e + 1))
  }

  /** The captures of all matches from index `from` on, leftmost first;
      each search resumes just past the previous match. */
  function ImportSpecifiers(s: string, from: nat): (r: seq<string>)
    ensures forall k :: 0 <= k < |r| ==> |r[k]| >= 1
    ensures forall k :: 0 <= k < |r| ==> forall j :: 0 <= j < |r[k]| ==> !IsQuote(r[k][j])
    decreases |s| - from
  {
    if from >= |s| then []
    else
      match ImportMatchAt(s, from)
      case Some((spec, end)) => [spec] + ImportSpecifiers(s, end)
      case None => ImportSpecifiers(s, from + 1)
  }

  // ---------------------------------------------------------------------
  // Specifier normalisation

  /** A specifier that names a local module. */
  predicate IsLocal(dep: string) {
    StartsWith(dep, ".") || StartsWith(dep, "/")
  }

  /** One captured specifier reduced to its package name, or `None` when
      the specifier is local or contributes nothing. */
  function Normalize(dep: string): (r: Option<string>)
    ensures r.Some? ==> |r.value| >= 1 && StartsWith(dep, r.value)
    ensures r.Some? ==> !IsLocal(r.value)
  {
    if |dep| == 0 || IsLocal(dep) then None
    else
      SplitFirstField(dep, '/');
      var parts := Split(dep, '/');
      assert |parts| >= 2 ==> StartsWith(dep, parts[0] + "/" + parts[1]) by {
        if |parts| >= 2 {
          JoinStartsWithFirst(parts[1..], '/');
          assert dep == parts[0] + ['/'] + Join(parts[1..], '/');
        }
      }
      PackageName(parts)
  }

  /** The package named by the `/`-separated fields of a non-local specifier:
      the first field, or the first two when the first is a scope. */
  function PackageName(parts: seq<string>): Option<string>
    requires |parts| >= 1
  {
    if parts[0] == "" then None
    else if StartsWith(parts[0], "@") then
      if |parts| >= 2 && parts[1] != "" then Some(parts[0] + "/" + parts[1])
      else None
    else Some(parts[0])
  }

  /** A specifier is local exactly when its first character is `.` or `/`. */
  lemma IsLocalFirstChar(dep: string)
    requires |dep| >= 1
    ensures IsLocal(dep) <==> dep[0] == '.' || dep[0] == '/'
  {
    assert dep[..1] == [dep[0]];
  }

  /** A non-local specifier is normalised through its fields. */
  lemma NormalizeNonLocal(dep: string)
    requires |dep| >= 1 && dep[0] != '.' && dep[0] != '/'
    ensures Normalize(dep) == PackageName(Split(dep, '/'))
  {
    IsLocalFirstChar(dep);
  }

  /** Scoped packages keep their scope and name, whatever follows. */
  lemma NormalizeScoped(parts: seq<string>)
    requires |parts| >= 2 && |parts[0]| >= 1 && parts[0][0] == '@' && |parts[1]| >= 1
    requires forall k :: 0 <= k < |parts| ==> '/' !in parts[k]
    ensures Normalize(Join(parts, '/')) == Some(parts[0] + "/" + parts[1])
  {
    JoinedFields(parts, '/');
    NormalizeNonLocal(Join(parts, '/'));
    assert parts[0][..1] == "@";
  }

  /** The joined fields split back and begin with the first field's first character. */
  lemma JoinedFields(parts: seq<string>, sep: char)
    requires |parts| >= 1 && |parts[0]| >= 1
    requires forall k :: 0 <= k < |parts| ==> sep !in parts[k]
    ensures Split(Join(parts, sep), sep) == parts
    ensures |Join(parts, sep)| >= 1 && Join(parts, sep)[0] == parts[0][0]
  {
    SplitJoin(parts, sep);
    JoinStartsWithFirst(parts, sep);
    assert Join(parts, sep)[..|parts[0]|] == parts[0];
  }

  /** A scope on its own (`@scope` or `@scope/`) names no package. */
  lemma NormalizeBareScope(scope: string)
    requires |scope| >= 1 && scope[0] == '@' && '/' !in scope
    ensures Normalize(scope) == None
    ensures Normalize(scope + "/") == None
  {
    SplitNoSep(scope, '/');
    assert StartsWith(scope, "@");
    SplitJoin([scope, ""], '/');
    assert Join([scope, ""], '/') == scope + "/";
    assert (scope + "/")[0] == '@';
  }

  /** Unscoped packages keep their first path segment: `dotenv/config`
      becomes `dotenv`. */
  lemma NormalizeUnscoped(parts: seq<string>)
    requires |parts| >= 1 && |parts[0]| >= 1 && parts[0][0] != '@' && parts[0][0] != '.'
    requires forall k :: 0 <= k < |parts| ==> '/' !in parts[k]
    ensures Normalize(Join(parts, '/')) == Some(parts[0])
  {
    JoinedFields(parts, '/');
    NormalizeNonLocal(Join(parts, '/'));
    NotScope(parts[0]);
  }

  lemma NotScope(name: string)
    requires |name| >= 1 && name[0] != '@'
    ensures !StartsWith(name, "@")
  {
    assert name[..1][0] == name[0];
  }

  /** A package name is its own normal form. */
  lemma NormalizeIdempotent(dep: string)
    requires Normalize(dep).Some?
    ensures Normalize(Normalize(dep).value) == Normalize(dep)
  {
    var parts := Split(dep, '/');
    SplitFirstField(dep, '/');
    assert parts[0][0] == dep[0];
    if StartsWith(parts[0], "@") {
      NormalizeScoped([parts[0], parts[1]]);
      assert Join([parts[0], parts[1]], '/') == parts[0] + "/" + parts[1];
    } else {
      NormalizeUnscoped([parts[0]]);
    }
  }

  /** Some specifier of `deps` names the package `x`. */
  ghost predicate Names(deps: seq<string>, x: string) {
    exists k :: 0 <= k < |deps| && Normalize(deps[k]) == Some(x)
  }

  /** The package names of a list of specifiers, in order, local ones dropped. */
  function NormalizeAll(deps: seq<string>): (r: seq<string>)
    ensures forall x :: x in r <==> Names(deps, x)
    decreases |deps|
  {
    if |deps| == 0 then []
    else
      var rest := NormalizeAll(deps[1..]);
      assert forall k :: 0 < k < |deps| ==> deps[k] == deps[1..][k - 1];
      match Normalize(deps[0])
      case Some(d) => [d] + rest
      case None => rest
  }

  /** The package names of consecutive runs of specifiers follow each other:
      a name from an earlier import is listed before one from a later import. */
  lemma {:induction false} NormalizeAllAppend(a: seq<string>, b: seq<string>)
    ensures NormalizeAll(a + b) == NormalizeAll(a) + NormalizeAll(b)
    decreases |a|
  {
    if |a| > 0 {
      assert (a + b)[1..] == a[1..] + b;
      NormalizeAllAppend(a[1..], b);
    } else {
      assert a + b == b;
    }
  }

  /** `extractDependencies`: the distinct package names the file's imports
      name, in order of first appearance. */
  function ExtractDependencies(content: string): (r: seq<string>)
    ensures NoDuplicates(r)
    ensures forall x :: x in r <==> Names(ImportSpecifiers(content, 0), x)
    ensures forall k :: 0 <= k < |r| ==> |r[k]| >= 1 && !IsLocal(r[k])
    ensures forall k :: 0 <= k < |r| ==> r[k] in NormalizeAll(ImportSpecifiers(content, 0))
    ensures InFirstOccurrenceOrder(r, NormalizeAll(ImportSpecifiers(content, 0)))
  {
    var names := NormalizeAll(ImportSpecifiers(content, 0));
    var r := Dedup(names);
    assert forall k :: 0 <= k < |r| ==> r[k] in names;
    DedupOrder(names);
    r
  }

  // ---------------------------------------------------------------------
  // The environment scanner: the global regular expression
  //   process\.env\.([A-Z0-9_]+)

  const EnvPrefix: string := "process.env."

  predicate IsEnvChar(c: char) {
    ('A' <= c <= 'Z') || ('0' <= c <= '9') || c == '_'
  }

  /** Length of the run of `[A-Z0-9_]` starting at `k`. */
  function EnvRun(s: string, k: nat): (n: nat)
    ensures k + n <= |s| || n == 0
    ensures forall j :: k <= j < k + n ==> IsEnvChar(s[j])
    ensures k + n < |s| ==> !IsEnvChar(s[k + n])
    decreases |s| - k
  {
    if k >= |s| || !IsEnvChar(s[k]) then 0 else 1 + EnvRun(s, k + 1)
  }

  /** The name matched at index `i`: the maximal non-empty `[A-Z0-9_]` run
      right after `process.env.`, if there is one. */
  function EnvMatchAt(s: string, i: nat): (r: Option<string>)
    ensures r.Some? ==>
      (&& OccursAt(s, EnvPrefix, i) && |r.value| >= 1
       && OccursAt(s, r.value, i + |EnvPrefix|)
       && (forall j :: 0 <= j < |r.value| ==> IsEnvChar(r.value[j]))
       && (i + |EnvPrefix| + |r.value| < |s| ==> !IsEnvChar(s[i + |EnvPrefix| + |r.value|])))
    ensures r.None? && OccursAt(s, EnvPrefix, i) ==>
      i + |EnvPrefix| == |s| || !IsEnvChar(s[i + |EnvPrefix|])
  {
    if !OccursAt(s, EnvPrefix, i) then None
    else
      var n := EnvRun(s, i + |EnvPrefix|);
      if n == 0 then None
      else Some(s[i + |EnvPrefix|..i + |EnvPrefix| + n])
  }

  /** The names of all matches from index `from` on, leftmost first. */
  function ScanEnvs(s: string, from: nat): seq<string>
    decreases |s| - from
  {
    if from >= |s| then []
    else
      match EnvMatchAt(s, from)
      case Some(name) => [name] + ScanEnvs(s, from + |EnvPrefix| + |name|)
      case None => ScanEnvs(s, from + 1)
  }

  /** `x` is the variable read by some `process.env.` at or after `from`. */
  ghost predicate EnvReferencedFrom(s: string, from: nat, x: string) {
    exists i: nat :: from <= i && EnvMatchAt(s, i) == Some(x)
  }

  lemma MatchStartsWithP(s: string, j: nat)
    ensures EnvMatchAt(s, j).Some? ==> j < |s| && s[j] == 'p'
  {
    if EnvMatchAt(s, j).Some? {
      assert s[j..j + |EnvPrefix|][0] == 'p';
    }
  }

  /** No match starts strictly inside a match: the text of a match holds
      only one `p`, its first character. */
  lemma NoMatchInside(s: string, i: nat, name: string, j: nat)
    requires EnvMatchAt(s, i) == Some(name)
    requires i < j < i + |EnvPrefix| + |name|
    ensures EnvMatchAt(s, j) == None
  {
    if j < i + |EnvPrefix| {
      assert s[j] == s[i..i + |EnvPrefix|][j - i];
    } else {
      assert s[j] == s[i + |EnvPrefix|..i + |EnvPrefix| + |name|][j - i - |EnvPrefix|];
    }
    assert s[j] != 'p';
    MatchStartsWithP(s, j);
  }

  /** A position that does not produce `x` can be skipped. */
  lemma RefSkipOne(s: string, from: nat, x: string)
    requires EnvMatchAt(s, from) != Some(x)
    ensures EnvReferencedFrom(s, from, x) <==> EnvReferencedFrom(s, from + 1, x)
  {
    if EnvReferencedFrom(s, from, x) {
      var i: nat :| from <= i && EnvMatchAt(s, i) == Some(x);
      assert from + 1 <= i;
    }
  }

  /** After a match, the search may resume past its end. */
  lemma RefSkipMatch(s: string, from: nat, name: string, x: string)
    requires EnvMatchAt(s, from) == Some(name)
    ensures EnvReferencedFrom(s, from, x) <==>
      x == name || EnvReferencedFrom(s, from + |EnvPrefix| + |name|, x)
  {
    var next := from + |EnvPrefix| + |name|;
    if EnvReferencedFrom(s, from, x) && x != name {
      var i: nat :| from <= i && EnvMatchAt(s, i) == Some(x);
      forall j: nat | from < j < next ensures EnvMatchAt(s, j) == None {
        NoMatchInside(s, from, name, j);
      }
      assert next <= i;
    }
  }

  /** The scan finds every reference and nothing else. */
  lemma {:induction false} ScanEnvsComplete(s: string, from: nat, x: string)
    ensures x in ScanEnvs(s, from) <==> EnvReferencedFrom(s, from, x)
    decreases |s| - from
  {
    if from >= |s| {
      forall i: nat | from <= i ensures EnvMatchAt(s, i) == None {
        MatchStartsWithP(s, i);
      }
    } else {
      match EnvMatchAt(s, from)
      case Some(name) =>
        ScanEnvsComplete(s, from + |EnvPrefix| + |name|, x);
        RefSkipMatch(s, from, name, x);
      case None =>
        ScanEnvsComplete(s, from + 1, x);
        RefSkipOne(s, from, x);
    }
  }

  /** `extractEnvs`: the distinct names read through `process.env.`, in
      order of first appearance. */
  function ExtractEnvs(content: string): (r: seq<string>)
    ensures NoDuplicates(r)
    ensures forall x :: x in r <==> EnvReferencedFrom(content, 0, x)
    ensures forall k :: 0 <= k < |r| ==> r[k] in ScanEnvs(content, 0)
    ensures InFirstOccurrenceOrder(r, ScanEnvs(content, 0))
  {
    forall x ensures x in ScanEnvs(content, 0) <==> EnvReferencedFrom(content, 0, x) {
      ScanEnvsComplete(content, 0, x);
    }
    DedupOrder(ScanEnvs(content, 0));
    Dedup(ScanEnvs(content, 0))
  }
}
