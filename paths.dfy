/**
 * The part of POSIX `pathlib` string handling that the converter relies on:
 * normalisation of a path into its root and components, joining with `/`,
 * `.name`, `.stem` and `.suffix`.  Paths are plain strings; symlink
 * resolution is not string handling and lives in the Storage module.
 */
module Paths {
  import opened Sequences

  /** Index of the first '/' in s, or |s| when there is none. */
  function SlashIndex(s: string): (k: nat)
    ensures k <= |s|
    ensures forall i :: 0 <= i < k ==> s[i] != '/'
    ensures k < |s| ==> s[k] == '/'
  {
    if s == [] || s[0] == '/' then 0 else 1 + SlashIndex(s[1..])
  }

  /** A proper path component: non-empty, not ".", no separator. */
  predicate IsComponent(c: string) {
    c != "" && c != "." && '/' !in c
  }

  /** The components pathlib keeps: the pieces between slashes, without empty pieces and ".". */
  function Components(s: string): (r: seq<string>)
    ensures forall i :: 0 <= i < |r| ==> IsComponent(r[i])
    decreases |s|
  {
    var k := SlashIndex(s);
    var head := if s[..k] == "" || s[..k] == "." then [] else [s[..k]];
    if k == |s| then head else head + Components(s[k + 1..])
  }

  /** `"/".join(parts)`. */
  function JoinSlash(parts: seq<string>): string
    decreases |parts|
  {
    if |parts| == 0 then ""
    else if |parts| == 1 then parts[0]
    else parts[0] + "/" + JoinSlash(parts[1..])
  }

  /** The anchor of a POSIX path: "", "/" or, for exactly two leading slashes, "//". */
  function Root(s: string): (r: string)
    ensures r == "" || r == "/" || r == "//"
    ensures r == "" <==> (s == "" || s[0] != '/')
  {
    if s != [] && s[0] == '/' then
      (if |s| >= 2 && s[1] == '/' && !(|s| >= 3 && s[2] == '/') then "//" else "/")
    else ""
  }

  /** `str()` of a path with the given anchor and components. */
  function Render(root: string, parts: seq<string>): string {
    if root == "" && parts == [] then "." else root + JoinSlash(parts)
  }

  /** `str(Path(dir) / name)`: an absolute name replaces the directory. */
  function Join(dir: string, name: string): (r: string)
    ensures Normal(r)
  {
    if name != [] && name[0] == '/' then
      RenderParses(Root(name), Components(name));
      Render(Root(name), Components(name))
    else
      RenderParses(Root(dir), Components(dir) + Components(name));
      Render(Root(dir), Components(dir) + Components(name))
  }

  /** `Path(s).name`: the last component, or "" when there is none. */
  function Name(s: string): (r: string)
    ensures r == "" || IsComponent(r)
  {
    var parts := Components(s);
    if parts == [] then "" else parts[|parts| - 1]
  }

  /** `str.rfind('.')`: the index of the last '.', or -1. */
  function LastDot(s: string): (i: int)
    ensures -1 <= i < |s|
    ensures 0 <= i ==> s[i] == '.'
    ensures forall j :: i < j < |s| ==> s[j] != '.'
    decreases |s|
  {
    if s == [] then -1
    else if s[|s| - 1] == '.' then |s| - 1
    else LastDot(s[..|s| - 1])
  }

  /** Whether a name carries a suffix in pathlib's sense (a dot that is neither first nor last). */
  predicate HasSuffix(name: string) {
    var i := LastDot(name);
    0 < i < |name| - 1
  }

  /** `PurePath.stem` of a name. */
  function Stem(name: string): (r: string)
    ensures r <= name
    ensures |r| < |name| <==> HasSuffix(name)
  {
    if HasSuffix(name) then name[..LastDot(name)] else name
  }

  /** `PurePath.suffix` of a name. */
  function Suffix(name: string): (r: string)
    ensures r == "" <==> !HasSuffix(name)
    ensures r != "" ==> 2 <= |r| < |name| && name[|name| - |r|..] == r && r[0] == '.' && '.' !in r[1..]
  {
    if HasSuffix(name) then name[LastDot(name)..] else ""
  }

  /** `PurePath.parent`: the path without its last component; "/" and "." are their own parents. */
  function Parent(s: string): (r: string)
    ensures Normal(r) && Root(r) == Root(s)
    ensures Components(r) <= Components(s) && |Components(r)| == if Components(s) == [] then 0 else |Components(s)| - 1
  {
    var parts := Components(s);
    var up := if parts == [] then [] else parts[..|parts| - 1];
    RenderParses(Root(s), up);
    Render(Root(s), up)
  }

  /** A path string in the form `str(Path(...))` gives back. */
  predicate Normal(s: string) {
    s == Render(Root(s), Components(s))
  }

  /** `Path.is_relative_to(root)`: same anchor, and root's components start the path's. */
  predicate IsRelativeTo(path: string, root: string): (r: bool)
    ensures path == root ==> r
    ensures r ==> |Components(root)| <= |Components(path)|
  {
    Root(path) == Root(root) && Components(root) <= Components(path)
  }

  // ---------------------------------------------------------------------------
  // Properties

  /** The stem and the suffix split a name without losing a character. */
  lemma StemSuffixSplit(name: string)
    ensures Stem(name) + Suffix(name) == name
    ensures Suffix(name) == "" || (Suffix(name)[0] == '.' && '.' !in Suffix(name)[1..])
  {
    if HasSuffix(name) {
      var i := LastDot(name);
      assert name[..i] + name[i..] == name;
      forall j | 0 <= j < |name[i..][1..]| ensures name[i..][1..][j] != '.' {
        assert name[i..][1..][j] == name[i + 1 + j];
      }
    }
  }

  lemma SlashIndexAfter(p: string, rest: string)
    requires '/' !in p
    ensures SlashIndex(p + "/" + rest) == |p|
    decreases |p|
  {
    if p != [] {
      assert (p + "/" + rest)[1..] == p[1..] + "/" + rest;
      SlashIndexAfter(p[1..], rest);
    }
  }

  lemma SlashIndexNone(p: string)
    requires '/' !in p
    ensures SlashIndex(p) == |p|
    decreases |p|
  {
    if p != [] {
      SlashIndexNone(p[1..]);
    }
  }

  /** Splitting off the first piece of a path before a slash. */
  lemma ComponentsCons(p: string, rest: string)
    requires '/' !in p
    ensures Components(p + "/" + rest) == (if p == "" || p == "." then [] else [p]) + Components(rest)
  {
    var s := p + "/" + rest;
    SlashIndexAfter(p, rest);
    assert s[..|p|] == p;
    assert s[|p| + 1..] == rest;
  }

  /** Splitting a joined list of components gives the list back. */
  lemma {:induction false} ComponentsOfJoinSlash(parts: seq<string>)
    requires forall i :: 0 <= i < |parts| ==> IsComponent(parts[i])
    ensures Components(JoinSlash(parts)) == parts
    decreases |parts|
  {
    if |parts| == 1 {
      SlashIndexNone(parts[0]);
      assert parts[0][..|parts[0]|] == parts[0];
    } else if |parts| > 1 {
      var p, rest := parts[0], JoinSlash(parts[1..]);
      var s := p + "/" + rest;
      SlashIndexAfter(p, rest);
      assert s[..|p|] == p;
      assert s[|p| + 1..] == rest;
      ComponentsOfJoinSlash(parts[1..]);
      assert parts == [p] + parts[1..];
    }
  }

  /** The first character of a non-empty join of components is the first component's. */
  lemma JoinSlashHead(parts: seq<string>)
    requires |parts| > 0 && forall i :: 0 <= i < |parts| ==> IsComponent(parts[i])
    ensures IsComponent(parts[0]) && |JoinSlash(parts)| > 0 && JoinSlash(parts)[0] == parts[0][0]
  {
    assert IsComponent(parts[0]);
  }

  /** Rendering a root and components and parsing the string again gives them back. */
  lemma RenderParses(root: string, parts: seq<string>)
    requires root == "" || root == "/" || root == "//"
    requires forall i :: 0 <= i < |parts| ==> IsComponent(parts[i])
    ensures Root(Render(root, parts)) == root
    ensures Components(Render(root, parts)) == parts
    ensures Normal(Render(root, parts))
  {
    ComponentsOfJoinSlash(parts);
    if parts != [] {
      JoinSlashHead(parts);
    }
    if root == "/" {
      RenderParsesSlash(parts);
    } else if root == "//" {
      RenderParsesDoubleSlash(parts);
    } else if parts == [] {
      assert SlashIndex(".") == 1;
      assert Components(".") == [];
    } else {
      assert Render(root, parts) == JoinSlash(parts);
    }
  }

  /** The components of "/" followed by a relative joined path are those of the joined path. */
  lemma RenderParsesSlash(parts: seq<string>)
    requires Components(JoinSlash(parts)) == parts
    requires parts != [] ==> JoinSlash(parts)[0] != '/'
    ensures Root(Render("/", parts)) == "/"
    ensures Components(Render("/", parts)) == parts
  {
    LeadingSlash(JoinSlash(parts));
  }

  /** The components of "//" followed by a relative joined path are those of the joined path. */
  lemma RenderParsesDoubleSlash(parts: seq<string>)
    requires Components(JoinSlash(parts)) == parts
    requires parts != [] ==> JoinSlash(parts)[0] != '/'
    ensures Root(Render("//", parts)) == "//"
    ensures Components(Render("//", parts)) == parts
  {
    var j := JoinSlash(parts);
    LeadingSlash(j);
    LeadingSlash("/" + j);
    assert Render("//", parts) == "/" + ("/" + j);
    RootOfDoubleSlash(j);
  }

  /** A leading slash adds no component. */
  lemma LeadingSlash(s: string)
    ensures Components("/" + s) == Components(s)
  {
    assert "/" + s == "" + "/" + s;
    ComponentsCons("", s);
    assert [] + Components(s) == Components(s);
  }

  lemma RootOfDoubleSlash(j: string)
    requires j == [] || j[0] != '/'
    ensures Root("/" + ("/" + j)) == "//"
  {
    var s := "/" + ("/" + j);
    assert s[0] == '/' && s[1] == '/';
    assert |s| >= 3 ==> s[2] == j[0];
  }

  /** A joined path keeps the directory's anchor and components and adds the name's. */
  lemma JoinComponents(dir: string, name: string)
    requires name == [] || name[0] != '/'
    ensures Root(Join(dir, name)) == Root(dir)
    ensures Components(Join(dir, name)) == Components(dir) + Components(name)
    ensures IsRelativeTo(Join(dir, name), dir)
  {
    RenderParses(Root(dir), Components(dir) + Components(name));
  }

  /** Joining a single component onto a directory names that component. */
  lemma JoinName(dir: string, name: string)
    requires IsComponent(name)
    ensures Name(Join(dir, name)) == name
  {
    SlashIndexNone(name);
    assert name[..|name|] == name;
    assert Components(name) == [name];
    JoinComponents(dir, name);
  }

  /** The components of two paths joined by a slash are the components of each, in order. */
  lemma {:induction false} ComponentsAppend(a: string, b: string)
    ensures Components(a + "/" + b) == Components(a) + Components(b)
    decreases |a|
  {
    var k := SlashIndex(a);
    if k == |a| {
      assert a[..k] == a;
      ComponentsCons(a, b);
    } else {
      var first, rest := a[..k], a[k + 1..];
      assert a == first + "/" + rest;
      ComponentsAppend(rest, b);
      ComponentsAppendStep(first, rest, b);
    }
  }

  /** One step of ComponentsAppend: a slash-free first piece is split off on both sides. */
  lemma ComponentsAppendStep(first: string, rest: string, b: string)
    requires '/' !in first
    requires Components(rest + "/" + b) == Components(rest) + Components(b)
    ensures Components(first + "/" + rest + "/" + b) == Components(first + "/" + rest) + Components(b)
  {
    var head := if first == "" || first == "." then [] else [first];
    assert first + "/" + rest + "/" + b == first + "/" + (rest + "/" + b);
    ComponentsCons(first, rest);
    ComponentsCons(first, rest + "/" + b);
    ConcatAssoc(head, Components(rest), Components(b));
  }

  /** Whatever directories precede it, `.name` keeps only the last component. */
  lemma NameAfterDirectories(dirs: string, c: string)
    requires IsComponent(c)
    ensures Name(dirs + "/" + c) == c
  {
    ComponentsAppend(dirs, c);
    SlashIndexNone(c);
    assert c[..|c|] == c;
    assert Components(c) == [c];
  }

  /** A component joined onto a directory has that directory as its parent. */
  lemma ParentOfJoin(dir: string, c: string)
    requires Normal(dir) && IsComponent(c)
    ensures Parent(Join(dir, c)) == dir
  {
    SlashIndexNone(c);
    assert c[..|c|] == c;
    assert Components(c) == [c];
    JoinComponents(dir, c);
    var parts := Components(dir) + [c];
    assert parts[..|parts| - 1] == Components(dir);
  }

  /** A single component is its own list of components. */
  lemma ComponentsOfComponent(c: string)
    requires IsComponent(c)
    ensures Components(c) == [c]
  {
    SlashIndexNone(c);
    assert c[..|c|] == c;
  }

  /** Joining a shorter list of components gives a prefix of joining a longer list that starts with it. */
  lemma {:induction false} JoinSlashPrefix(a: seq<string>, b: seq<string>)
    requires a <= b
    ensures JoinSlash(a) <= JoinSlash(b)
    decreases |a|
  {
    if |a| == 1 && |b| > 1 {
      assert JoinSlash(b) == a[0] + ("/" + JoinSlash(b[1..]));
    } else if |a| > 1 {
      assert a[1..] <= b[1..];
      JoinSlashPrefix(a[1..], b[1..]);
      var t := JoinSlash(b[1..]);
      assert JoinSlash(b) == a[0] + "/" + JoinSlash(a[1..]) + t[|JoinSlash(a[1..])|..];
    }
  }

  /**
   * For absolute paths in normal form, lying under a root component-wise
   * implies starting with the root's string.
   */
  lemma RelativeIsPrefix(path: string, root: string)
    requires Normal(path) && Normal(root) && Root(root) != ""
    requires IsRelativeTo(path, root)
    ensures root <= path
  {
    JoinSlashPrefix(Components(root), Components(path));
  }

  /** The components of an absolute path start with its first name. */
  lemma ComponentsOfAbsolute(a: string, rest: string)
    requires IsComponent(a)
    ensures Components("/" + a + "/" + rest) == [a] + Components(rest)
  {
    assert "/" + a + "/" + rest == "" + "/" + (a + "/" + rest);
    ComponentsCons("", a + "/" + rest);
    ComponentsCons(a, rest);
  }

  /** A name made of a dot-free, slash-free base, a dot and a dot-free extension splits at that dot. */
  lemma SplitAtDot(base: string, ext: string)
    requires base != "" && ext != ""
    requires '.' !in base && '.' !in ext && '/' !in base && '/' !in ext
    ensures IsComponent(base + "." + ext)
    ensures Stem(base + "." + ext) == base
    ensures Suffix(base + "." + ext) == "." + ext
  {
    var name := base + "." + ext;
    var p := |base|;
    assert name[p] == '.';
    forall j | p < j < |name| ensures name[j] != '.' {
      assert name[j] == ext[j - p - 1];
    }
    forall j | 0 <= j < p ensures name[j] != '.' {
      assert name[j] == base[j];
    }
    assert LastDot(name) == p;
    assert name[..p] == base;
    assert name[p..] == "." + ext;
    forall k | 0 <= k < |name| ensures name[k] != '/' {
      if k < p {
        assert name[k] == base[k];
      } else if k > p {
        assert name[k] == ext[k - p - 1];
      }
    }
  }
}
