/** The POSIX path operations the CLI and the build script use:
    `path.join` of two segments, `path.isAbsolute`, resolving against the
    working directory, `path.relative` to an ancestor, and `path.basename`. */
module Paths {
  import opened Text

  /** `dir` with exactly one trailing `/` added when it has none. */
  function DirPrefix(dir: string): (r: string)
    ensures EndsWith(r, "/") && StartsWith(r, dir)
  {
    if EndsWith(dir, "/") then dir else dir + "/"
  }

  /** `path.join(dir, name)`. */
  function JoinPath(dir: string, name: string): (r: string)
    ensures StartsWith(r, DirPrefix(dir)) && r[|DirPrefix(dir)|..] == name
  {
    DirPrefix(dir) + name
  }

  predicate IsAbsolute(p: string) {
    StartsWith(p, "/")
  }

  /** An absolute path is kept; a relative one is joined to `cwd`. */
  function Resolve(cwd: string, p: string): (r: string)
    ensures IsAbsolute(p) ==> r == p
    ensures !IsAbsolute(p) ==> StartsWith(r, DirPrefix(cwd)) && r[|DirPrefix(cwd)|..] == p
  {
    if IsAbsolute(p) then p else JoinPath(cwd, p)
  }

  /** `path.relative(base, p)` for a `p` inside `base`. */
  function Relative(base: string, p: string): string {
    var pre := DirPrefix(base);
    if StartsWith(p, pre) then p[|pre|..] else p
  }

  lemma RelativeJoin(base: string, rel: string)
    ensures Relative(base, JoinPath(base, rel)) == rel
  {
  }

  /** `p` with its trailing `/` characters removed. */
  function TrimTrailingSlashes(p: string): (r: string)
    ensures StartsWith(p, r)
    ensures |r| == 0 || r[|r| - 1] != '/'
    ensures forall k :: |r| <= k < |p| ==> p[k] == '/'
    decreases |p|
  {
    if |p| > 0 && p[|p| - 1] == '/' then
      var r := TrimTrailingSlashes(p[..|p| - 1]);
      assert p[..|p| - 1][..|r|] == p[..|r|];
      r
    else p
  }

  /** `path.basename(p)`: the last `/`-separated segment once trailing
      slashes are removed. */
  function Basename(p: string): (r: string)
    ensures '/' !in r
  {
    var fields := Split(TrimTrailingSlashes(p), '/');
    fields[|fields| - 1]
  }

  /** The basename is the final segment: `Basename(dir/name) == name`. */
  lemma BasenameOfJoin(dir: string, name: string)
    requires |name| >= 1 && '/' !in name
    ensures Basename(JoinPath(dir, name)) == name
  {
    var pre := DirPrefix(dir);
    var p := pre + name;
    assert p[|p| - 1] == name[|name| - 1];
    assert name[|name| - 1] in name;
    assert TrimTrailingSlashes(p) == p;
    BasenameOfSuffix(pre, name);
  }

  lemma {:induction false} BasenameOfSuffix(pre: string, name: string)
    requires EndsWith(pre, "/") && '/' !in name
    ensures Split(pre + name, '/')[|Split(pre + name, '/')| - 1] == name
    decreases |pre|
  {
    if |pre| == 1 {
      assert pre + name == [pre[0]] + name;
      assert pre[0] == '/';
      assert (pre + name)[1..] == name;
      SplitNoSep(name, '/');
    } else {
      BasenameOfSuffix(pre[1..], name);
      assert (pre + name)[1..] == pre[1..] + name;
      assert '/' in pre[1..] + name by {
        assert (pre[1..] + name)[|pre| - 2] == pre[|pre| - 1];
      }
      SplitFirstField(pre[1..] + name, '/');
      assert EndsWith(pre[1..], "/") by {
        assert pre[1..][|pre[1..]| - 1..] == pre[|pre| - 1..];
      }
    }
  }
}
