/** The two naming helpers of the docs navigation (docs/src/lib/docs-navigation.ts):
    `formatTitle`, which turns a file or folder name into a display title, and
    `getIcon`, which picks an icon from keywords in the name. Case mapping is
    ASCII only. */
module Titles {
  import opened Outcomes
  import opened Text

  // ---------------------------------------------------------------------
  // formatTitle

  /** The extensions `\.(mdx?|astro)$` removes. */
  const Extensions: seq<string> := [".md", ".mdx", ".astro"]

  /** Number of ASCII digits at the start of `s`. */
  function LeadingDigits(s: string): (n: nat)
    ensures n <= |s|
    ensures forall i :: 0 <= i < n ==> IsAsciiDigit(s[i])
    ensures n < |s| ==> !IsAsciiDigit(s[n])
    decreases |s|
  {
    if |s| > 0 && IsAsciiDigit(s[0]) then
      var n := LeadingDigits(s[1..]);
      assert forall i :: 1 <= i < 1 + n ==> s[i] == s[1..][i - 1];
      1 + n
    else 0
  }

  /** A prefix `^\d+-` matches exactly: one or more digits, then a dash. */
  predicate NumericPrefix(p: string) {
    |p| >= 2 && p[|p| - 1] == '-' && forall i :: 0 <= i < |p| - 1 ==> IsAsciiDigit(p[i])
  }

  /** `.replace(/^\d+-/, '')`. */
  function StripNumericPrefix(s: string): (r: string)
    ensures EndsWith(s, r)
    ensures r != s ==> NumericPrefix(s[..|s| - |r|])
    ensures r == s ==> forall k :: 0 < k <= |s| ==> !NumericPrefix(s[..k])
  {
    var n := LeadingDigits(s);
    if n >= 1 && n < |s| && s[n] == '-' then
      assert s[..n + 1][..n] == s[..n];
      s[n + 1..]
    else
      forall k | 0 < k <= |s| ensures !NumericPrefix(s[..k]) {
        NoNumericPrefix(s, k);
      }
      s
  }

  /** When the digits at the start of `s` are not followed by a dash, no
      prefix of `s` is a numeric prefix. */
  lemma NoNumericPrefix(s: string, k: nat)
    requires 0 < k <= |s|
    requires var n := LeadingDigits(s); !(n >= 1 && n < |s| && s[n] == '-')
    ensures !NumericPrefix(s[..k])
  {
    var n := LeadingDigits(s);
    var p := s[..k];
    if k - 1 < n {
      assert p[k - 1] == s[k - 1];
      assert IsAsciiDigit(p[k - 1]);
    } else if k - 1 == n {
      assert n == 0 || p[k - 1] == s[n];
    } else {
      assert p[n] == s[n];
      assert !IsAsciiDigit(p[n]);
    }
  }

  function DashToSpace(c: char): char {
    if c == '-' || c == '_' then ' ' else c
  }

  /** `.replace(/[-_]/g, ' ')`. */
  function Dashes(s: string): (r: string)
    ensures |r| == |s|
    ensures forall i :: 0 <= i < |s| ==> r[i] == DashToSpace(s[i])
  {
    seq(|s|, i requires 0 <= i < |s| => DashToSpace(s[i]))
  }

  lemma DashesRemoved(s: string)
    ensures '-' !in Dashes(s) && '_' !in Dashes(s)
  {
  }

  /** `.replace(/\.(mdx?|astro)$/, '')`: one known extension at the very end
      is removed. */
  function StripExtension(s: string): (r: string)
    ensures StartsWith(s, r)
    ensures r != s ==> s[|r|..] in Extensions
    ensures r == s ==> forall k :: 0 <= k < |Extensions| ==> !EndsWith(s, Extensions[k])
  {
    if EndsWith(s, ".mdx") then s[..|s| - 4]
    else if EndsWith(s, ".md") then s[..|s| - 3]
    else if EndsWith(s, ".astro") then s[..|s| - 6]
    else s
  }

  /** `word.charAt(0).toUpperCase() + word.slice(1)`. */
  function Capitalize(w: string): (r: string)
    ensures |r| == |w|
    ensures |w| > 0 ==> r[0] == UpperChar(w[0]) && r[1..] == w[1..]
  {
    if |w| == 0 then "" else [UpperChar(w[0])] + w[1..]
  }

  function CapitalizeAll(words: seq<string>): (r: seq<string>)
    ensures |r| == |words|
    ensures forall i :: 0 <= i < |words| ==> r[i] == Capitalize(words[i])
  {
    seq(|words|, i requires 0 <= i < |words| => Capitalize(words[i]))
  }

  /** `.split(' ').map(capitalise).join(' ')`. */
  function CapitalizeWords(s: string): string {
    Join(CapitalizeAll(Split(s, ' ')), ' ')
  }

  /** `formatTitle(filename)`. */
  function FormatTitle(filename: string): string {
    CapitalizeWords(StripExtension(Dashes(StripNumericPrefix(filename))))
  }

  /** Upper-casing changes only `a`-`z`. */
  lemma UpperCharKeeps(c: char)
    ensures UpperChar(c) == ' ' <==> c == ' '
    ensures UpperChar(c) == '-' <==> c == '-'
    ensures UpperChar(c) == '_' <==> c == '_'
  {
  }

  lemma CapitalizeChars(w: string, c: char)
    requires c == ' ' || c == '-' || c == '_'
    ensures c in Capitalize(w) <==> c in w
  {
    var r := Capitalize(w);
    if |w| > 0 {
      UpperCharKeeps(w[0]);
      assert r == [r[0]] + w[1..];
      assert w == [w[0]] + w[1..];
    }
  }

  /** A title never contains `-` or `_`. */
  lemma FormatTitleNoDashes(filename: string)
    ensures '-' !in FormatTitle(filename) && '_' !in FormatTitle(filename)
  {
    var d := Dashes(StripNumericPrefix(filename));
    var s := StripExtension(d);
    assert forall i :: 0 <= i < |s| ==> s[i] == d[i];
    CapitalizedLacks(s, '-');
    CapitalizedLacks(s, '_');
  }

  /** Capitalising the words of `s` introduces no space, dash or underscore. */
  lemma CapitalizedLacks(s: string, c: char)
    requires c == '-' || c == '_'
    requires c !in s
    ensures c !in CapitalizeWords(s)
  {
    var words := CapitalizeAll(Split(s, ' '));
    forall i | 0 <= i < |words| ensures c !in words[i] {
      CapitalizeChars(Split(s, ' ')[i], c);
      SplitFieldLacks(s, ' ', i, c);
    }
    JoinLacks(words, ' ', c);
  }

  /** Capitalising keeps the words: splitting the title on spaces gives the
      words of the stripped name, each with its first character upper-cased. */
  lemma FormatTitleWords(filename: string)
    ensures var s := StripExtension(Dashes(StripNumericPrefix(filename)));
      Split(FormatTitle(filename), ' ') == CapitalizeAll(Split(s, ' '))
  {
    var s := StripExtension(Dashes(StripNumericPrefix(filename)));
    var words := CapitalizeAll(Split(s, ' '));
    forall i | 0 <= i < |words| ensures ' ' !in words[i] {
      CapitalizeChars(Split(s, ' ')[i], ' ');
    }
    SplitJoin(words, ' ');
  }

  /** A character absent from a string is absent from each of its fields. */
  lemma {:induction false} SplitFieldLacks(s: string, sep: char, i: nat, c: char)
    requires i < |Split(s, sep)| && c !in s
    ensures c !in Split(s, sep)[i]
    decreases |s|
  {
    var r := Split(s, sep);
    if |s| > 0 {
      assert c != s[0];
      assert forall k :: 0 <= k < |s[1..]| ==> s[1..][k] == s[k + 1];
      var rest := Split(s[1..], sep);
      if s[0] == sep {
        assert r == [""] + rest;
        if i > 0 {
          SplitFieldLacks(s[1..], sep, i - 1, c);
        }
      } else if i == 0 {
        SplitFieldLacks(s[1..], sep, 0, c);
        assert r[0] == [s[0]] + rest[0];
      } else {
        SplitFieldLacks(s[1..], sep, i, c);
        assert r[i] == rest[i];
      }
    }
  }

  /** A character other than the separator and absent from every part is
      absent from the join. */
  lemma {:induction false} JoinLacks(parts: seq<string>, sep: char, c: char)
    requires c != sep
    requires forall i :: 0 <= i < |parts| ==> c !in parts[i]
    ensures c !in Join(parts, sep)
    decreases |parts|
  {
    if |parts| > 1 {
      JoinLacks(parts[1..], sep, c);
      assert c !in parts[0];
    }
  }

  /** A name `<digits>-<a>_<b>.mdx`, the shape of an ordered page such as
      `01-getting_started.mdx`, is titled `<A> <B>`: the numeric prefix and
      the extension go, the underscore becomes a space and each word is
      capitalised. */
  lemma FormatTitleOfOrderedPage(d: string, a: string, b: string)
    requires |d| >= 1 && forall i :: 0 <= i < |d| ==> IsAsciiDigit(d[i])
    requires ' ' !in a && '-' !in a && '_' !in a
    requires ' ' !in b && '-' !in b && '_' !in b
    ensures FormatTitle(d + "-" + a + "_" + b + ".mdx") == Capitalize(a) + " " + Capitalize(b)
  {
    var t := a + "_" + b + ".mdx";
    assert d + "-" + a + "_" + b + ".mdx" == d + "-" + t;
    StripNumericPrefixOf(d, t);
    var x := a + " " + b;
    DashesOf(a, b);
    EndsWithConcat(x, ".mdx");
    assert StripExtension(x + ".mdx") == x;
    TwoWords(a, b);
  }

  lemma {:induction false} LeadingDigitsOf(d: string, t: string)
    requires forall i :: 0 <= i < |d| ==> IsAsciiDigit(d[i])
    ensures LeadingDigits(d + "-" + t) == |d|
    decreases |d|
  {
    var s := d + "-" + t;
    if |d| == 0 {
      assert s[0] == '-';
    } else {
      assert s[0] == d[0];
      assert s[1..] == d[1..] + "-" + t;
      LeadingDigitsOf(d[1..], t);
    }
  }

  lemma StripNumericPrefixOf(d: string, t: string)
    requires |d| >= 1 && forall i :: 0 <= i < |d| ==> IsAsciiDigit(d[i])
    ensures StripNumericPrefix(d + "-" + t) == t
  {
    var s := d + "-" + t;
    LeadingDigitsOf(d, t);
    assert s[|d|] == '-';
    assert s[|d| + 1..] == t;
  }

  lemma DashesOf(a: string, b: string)
    requires '-' !in a && '_' !in a && '-' !in b && '_' !in b
    ensures Dashes(a + "_" + b + ".mdx") == a + " " + b + ".mdx"
  {
    var s := a + "_" + b + ".mdx";
    var r := a + " " + b + ".mdx";
    assert |Dashes(s)| == |r|;
    forall i | 0 <= i < |s| ensures Dashes(s)[i] == r[i] {
      if i < |a| {
        assert s[i] == a[i] && r[i] == a[i];
      } else if i == |a| {
        assert s[i] == '_' && r[i] == ' ';
      } else if i < |a| + 1 + |b| {
        assert s[i] == b[i - |a| - 1] && r[i] == b[i - |a| - 1];
      } else {
        assert s[i] == ".mdx"[i - |a| - 1 - |b|] && r[i] == s[i];
      }
    }
  }

  lemma TwoWords(a: string, b: string)
    requires ' ' !in a && ' ' !in b
    ensures CapitalizeWords(a + " " + b) == Capitalize(a) + " " + Capitalize(b)
  {
    SplitField(a, ' ', b);
    SplitNoSep(b, ' ');
    assert a + " " + b == a + [' '] + b;
    var w := CapitalizeAll([a, b]);
    assert Split(a + " " + b, ' ') == [a, b];
    assert w == [Capitalize(a), Capitalize(b)];
    assert Join(w, ' ') == w[0] + [' '] + Join(w[1..], ' ');
    assert w[1..] == [Capitalize(b)];
  }

  // ---------------------------------------------------------------------
  // getIcon

  datatype Icon = FileText | Home | BookOpen | Settings | Wrench | Users | Code

  /** `getIcon(name)`: the keyword tests on the lower-cased name, in order. */
  function GetIcon(name: string): Icon {
    var n := Lower(name);
    if Contains(n, "install") || Contains(n, "getting-start") then Code
    else if Contains(n, "config") || Contains(n, "setting") then Settings
    else if Contains(n, "agent") || Contains(n, "team") then Users
    else if Contains(n, "tool") || Contains(n, "util") then Wrench
    else if Contains(n, "workflow") then BookOpen
    else FileText
  }

  /** The same rules as a table: keywords and the icon they select. */
  const IconRules: seq<(seq<string>, Icon)> := [
    (["install", "getting-start"], Code),
    (["config", "setting"], Settings),
    (["agent", "team"], Users),
    (["tool", "util"], Wrench),
    (["workflow"], BookOpen)
  ]

  /** Some keyword of `kws` occurs in `lower`. */
  predicate AnyContained(lower: string, kws: seq<string>) {
    exists k :: 0 <= k < |kws| && Contains(lower, kws[k])
  }

  /** Rule `i` has a keyword contained in `lower`. */
  predicate RuleMatches(lower: string, i: nat)
    requires i < |IconRules|
  {
    AnyContained(lower, IconRules[i].0)
  }

  lemma AnyContainedTwo(n: string, a: string, b: string)
    ensures AnyContained(n, [a, b]) <==> Contains(n, a) || Contains(n, b)
  {
    if Contains(n, a) {
      assert [a, b][0] == a;
    }
    if Contains(n, b) {
      assert [a, b][1] == b;
    }
  }

  lemma AnyContainedOne(n: string, a: string)
    ensures AnyContained(n, [a]) <==> Contains(n, a)
  {
    if Contains(n, a) {
      assert [a][0] == a;
    }
  }

  /** `GetIcon` is the icon of the first matching rule of the table. */
  lemma GetIconFirstMatch(name: string, i: nat)
    requires i < |IconRules| && RuleMatches(Lower(name), i)
    requires forall j :: 0 <= j < i ==> !RuleMatches(Lower(name), j)
    ensures GetIcon(name) == IconRules[i].1
  {
    var n := Lower(name);
    RuleMatchesIff(n);
  }

  /** Without a matching rule the icon is `FileText`, and only then. */
  lemma GetIconDefault(name: string)
    ensures GetIcon(name) == FileText <==> forall i :: 0 <= i < |IconRules| ==> !RuleMatches(Lower(name), i)
  {
    RuleMatchesIff(Lower(name));
  }

  lemma RuleMatchesIff(n: string)
    ensures RuleMatches(n, 0) <==> Contains(n, "install") || Contains(n, "getting-start")
    ensures RuleMatches(n, 1) <==> Contains(n, "config") || Contains(n, "setting")
    ensures RuleMatches(n, 2) <==> Contains(n, "agent") || Contains(n, "team")
    ensures RuleMatches(n, 3) <==> Contains(n, "tool") || Contains(n, "util")
    ensures RuleMatches(n, 4) <==> Contains(n, "workflow")
  {
    AnyContainedTwo(n, "install", "getting-start");
    AnyContainedTwo(n, "config", "setting");
    AnyContainedTwo(n, "agent", "team");
    AnyContainedTwo(n, "tool", "util");
    AnyContainedOne(n, "workflow");
  }

  /** The icon ignores ASCII case. */
  lemma GetIconCaseInsensitive(name: string)
    ensures GetIcon(Lower(name)) == GetIcon(name)
  {
    LowerIdempotent(name);
  }

  /** A string lacking one of the pattern's characters does not contain it. */
  lemma NotContainsByChar(s: string, p: string, k: nat)
    requires k < |p| && p[k] !in s
    ensures !Contains(s, p)
  {
    forall j: nat ensures !OccursAt(s, p, j) {
      if j + |p| <= |s| {
        assert s[j..j + |p|][k] == s[j + k];
      }
    }
    ContainsIff(s, p);
  }

  lemma PrefixContained(s: string, p: string)
    requires StartsWith(s, p)
    ensures Contains(s, p)
  {
  }

  /** The earlier rule wins: `agent-tools` names both an agent and a tool
      and gets the agents' icon, not the tools' one. */
  lemma AgentToolsIsUsers()
    ensures GetIcon("agent-tools") == Users
  {
    AgentToolsIcon("agent-tools");
  }

  lemma AgentToolsIcon(n: string)
    requires n == "agent" + "-tools"
    ensures GetIcon(n) == Users
  {
    assert forall i :: 0 <= i < |n| ==> !('A' <= n[i] <= 'Z');
    assert Lower(n) == n;
    assert 'i' !in n && 'c' !in n;
    NotContainsByChar(n, "install", 0);
    NotContainsByChar(n, "getting-start", 4);
    NotContainsByChar(n, "config", 0);
    NotContainsByChar(n, "setting", 4);
    StartsWithConcat("agent", "-tools");
    PrefixContained(n, "agent");
  }
}
