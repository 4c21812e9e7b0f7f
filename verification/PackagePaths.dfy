/**
 Repository paths as text and as components: what taking the parent, comparing
 prefixes and rewriting separators mean for the components of a path.
 */
module PackagePaths {
  import opened Common

  // ------------------------------------------------------------------ paths as text

  function PathText(path: string): string {
    seq(|path|, i requires 0 <= i < |path| => if path[i] == '\\' then '/' else path[i])
  }

  /** `Path::parent` of a normal relative path: nothing for the empty path, "" for a bare file name. */
  function Parent(path: string): Option<string> {
    if path == "" then None else Some(DropLastComponent(path))
  }

  function DropLastComponent(path: string): string {
    if path == "" then ""
    else if path[|path| - 1] == '/' then path[..|path| - 1]
    else DropLastComponent(path[..|path| - 1])
  }

  predicate StartsWith(s: string, prefix: string) {
    prefix <= s
  }

  /** The path is the directory or lies below it. */
  predicate Under(path: string, dir: string) {
    path == dir || StartsWith(path, dir + "/")
  }

  // ------------------------------------------------------------- paths as components

  predicate NoSlash(s: string) {
    forall i :: 0 <= i < |s| ==> s[i] != '/'
  }

  /** Where the last slash is, or -1. */
  function LastSlash(path: string): (k: int)
    ensures -1 <= k < |path|
    ensures k >= 0 ==> path[k] == '/'
    ensures forall i :: k < i < |path| ==> path[i] != '/'
  {
    if path == "" then -1
    else if path[|path| - 1] == '/' then |path| - 1
    else LastSlash(path[..|path| - 1])
  }

  /** The stretches between slashes; an empty path is one empty component. */
  ghost function Components(path: string): (cs: seq<string>)
    ensures cs != []
  {
    if LastSlash(path) < 0 then [path] else Components(path[..LastSlash(path)]) + [path[LastSlash(path) + 1..]]
  }

  lemma {:induction false} NoSlashOneComponent(name: string)
    requires NoSlash(name)
    ensures Components(name) == [name]
  {
  }

  lemma {:induction false} LastSlashOf(dir: string, name: string, path: string)
    requires NoSlash(name) && path == dir + "/" + name
    ensures LastSlash(path) == |dir| && path[..|dir|] == dir && path[|dir| + 1..] == name
  {
    assert path[|dir|] == '/';
    assert forall i :: |dir| < i < |path| ==> path[i] == name[i - |dir| - 1];
  }

  lemma {:induction false} OneMoreComponent(dir: string, name: string, path: string)
    requires NoSlash(name) && path == dir + "/" + name
    ensures Components(path) == Components(dir) + [name]
  {
    LastSlashOf(dir, name, path);
  }

  /** A path is a name, or a directory, a slash and a name. */
  lemma {:induction false} LastName(path: string) returns (dir: string, name: string)
    ensures NoSlash(name)
    ensures if |Components(path)| == 1 then path == name && dir == "" else path == dir + "/" + name
    ensures |Components(path)| > 1 ==> |dir| < |path| && Components(path) == Components(dir) + [name]
    ensures Components(path)[|Components(path)| - 1] == name
    ensures |Components(path)| == 1 <==> LastSlash(path) < 0
    ensures |Components(path)| > 1 ==> dir == path[..LastSlash(path)]
  {
    var k := LastSlash(path);
    if k < 0 {
      dir, name := "", path;
    } else {
      dir, name := path[..k], path[k + 1..];
    }
  }

  lemma {:induction false} ConcatThree(a: seq<string>, b: seq<string>, c: string)
    ensures (a + b) + [c] == a + (b + [c])
  {
  }

  /** A slash splits a path into the components before and after it. */
  lemma {:induction false} ComponentsOfJoin(a: string, b: string, path: string)
    requires path == a + "/" + b
    ensures Components(path) == Components(a) + Components(b)
    decreases |b|
  {
    var dir, name := LastName(b);
    if |Components(b)| == 1 {
      OneMoreComponent(a, b, path);
    } else {
      var upper := a + "/" + dir;
      ComponentsOfJoin(a, dir, upper);
      assert path == upper + "/" + name;
      OneMoreComponent(upper, name, path);
      ConcatThree(Components(a), Components(dir), name);
    }
  }

  lemma {:induction false} SnocSame(a: seq<string>, x: string, b: seq<string>, y: string)
    requires a + [x] == b + [y]
    ensures a == b && x == y
  {
    assert (a + [x])[..|a|] == a && (b + [y])[..|b|] == b;
    assert (a + [x])[|a|] == x && (b + [y])[|b|] == y;
  }

  /** The components determine the path. */
  lemma {:induction false} SameComponentsSamePath(p: string, q: string)
    requires Components(p) == Components(q)
    ensures p == q
    decreases |p|
  {
    var d, x := LastName(p);
    var e, y := LastName(q);
    if |Components(p)| > 1 {
      SnocSame(Components(d), x, Components(e), y);
      SameComponentsSamePath(d, e);
    }
  }

  /** Components on both sides of a cut belong to the text on both sides of a slash. */
  lemma {:induction false} CutAtComponent(path: string, left: seq<string>, right: seq<string>)
    returns (a: string, b: string)
    requires Components(path) == left + right && left != [] && right != []
    ensures path == a + "/" + b && Components(a) == left
    decreases |path|
  {
    var n := |right| - 1;
    var dir, name := LastName(path);
    ConcatThree(left, right[..n], right[n]);
    assert right[..n] + [right[n]] == right;
    SnocSame(Components(dir), name, left + right[..n], right[n]);
    if n == 0 {
      a, b := dir, name;
      assert left + right[..n] == left;
    } else {
      a, b := CutAtComponent(dir, left, right[..n]);
      assert path == a + "/" + (b + "/" + name);
      b := b + "/" + name;
    }
  }

  // ------------------------------------------------------------------------ the laws

  /** Either separator splits the text of a path. */
  lemma {:induction false} TextSplitsAtSeparators(a: string, c: char, b: string)
    requires c == '/' || c == '\\'
    ensures Components(PathText(a + [c] + b)) == Components(PathText(a)) + Components(PathText(b))
  {
    assert PathText(a + [c] + b) == PathText(a) + "/" + PathText(b);
    ComponentsOfJoin(PathText(a), PathText(b), PathText(a + [c] + b));
  }

  lemma {:induction false} DropFromLastSlash(path: string)
    ensures DropLastComponent(path) == if LastSlash(path) < 0 then "" else path[..LastSlash(path)]
  {
    if path != "" && path[|path| - 1] != '/' {
      DropFromLastSlash(path[..|path| - 1]);
    }
  }

  /** The parent has all components but the last; a bare name has the empty parent. */
  lemma {:induction false} ParentDropsLast(path: string)
    requires path != ""
    ensures Parent(path).Some?
    ensures var cs, parent := Components(path), Parent(path).value;
            if |cs| == 1 then parent == "" else Components(parent) == cs[..|cs| - 1]
  {
    DropFromLastSlash(path);
    var dir, name := LastName(path);
    if |Components(path)| > 1 {
      SnocSame(Components(dir), name, Components(path)[..|Components(path)| - 1], name);
    }
  }

  /** The parent of a file in a directory is the directory. */
  lemma {:induction false} ParentOfFile(dir: string, file: string)
    requires NoSlash(file)
    ensures Parent(dir + "/" + file) == Some(dir)
  {
    LastSlashOf(dir, file, dir + "/" + file);
    DropFromLastSlash(dir + "/" + file);
  }

  /** Lying below a directory is having its components, and more, in front. */
  lemma {:induction false} BelowIsLonger(path: string, dir: string)
    ensures StartsWith(path, dir + "/") <==> Components(dir) < Components(path)
  {
    var ds, ps := Components(dir), Components(path);
    if StartsWith(path, dir + "/") {
      var rest := path[|dir| + 1..];
      assert path == dir + "/" + rest;
      ComponentsOfJoin(dir, rest, path);
    }
    if ds < ps {
      var a, b := CutAtComponent(path, ds, ps[|ds|..]);
      SameComponentsSamePath(a, dir);
    }
  }

  /** So a directory holds exactly the paths whose components begin with its own. */
  lemma {:induction false} UnderIsPrefix(path: string, dir: string)
    ensures Under(path, dir) <==> Components(dir) <= Components(path)
  {
    BelowIsLonger(path, dir);
    if Components(dir) == Components(path) {
      SameComponentsSamePath(path, dir);
    }
  }

  /** Below the top-level directory `dir`. */
  lemma {:induction false} FirstComponent(path: string, dir: string)
    requires NoSlash(dir)
    ensures StartsWith(path, dir + "/") <==> |Components(path)| > 1 && Components(path)[0] == dir
  {
    NoSlashOneComponent(dir);
    BelowIsLonger(path, dir);
  }

  lemma {:induction false} OneName(path: string, name: string)
    requires NoSlash(name)
    ensures path == name <==> Components(path) == [name]
  {
    NoSlashOneComponent(name);
    if Components(path) == [name] {
      SameComponentsSamePath(path, name);
    }
  }
}
