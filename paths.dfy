/**
 * Path strings and the few operations of `std::path` and `str` that the
 * daemon relies on: joining, trimming leading slashes, `join(":")`, the
 * components of a path and `strip_prefix` on them, and the parent of a
 * normalised absolute path.
 */
module Paths {
  import opened Wrappers

  type Path = string

  predicate StartsWith(s: string, prefix: string) {
    |prefix| <= |s| && s[..|prefix|] == prefix
  }

  /** `str::trim_start_matches(c)`: every leading `c` is dropped, nothing else. */
  function TrimLeading(s: string, c: char): (r: string)
    ensures |r| <= |s| && r == s[|s| - |r|..]
    ensures r == [] || r[0] != c
    ensures forall i :: 0 <= i < |s| - |r| ==> s[i] == c
  {
    if |s| > 0 && s[0] == c then TrimLeading(s[1..], c) else s
  }

  /**
   * `Path::join` (equivalently `PathBuf::push`) with one segment: an absolute
   * segment replaces the base, otherwise a separator is inserted unless the
   * base is empty or already ends in '/'.
   */
  function Join(base: Path, name: string): Path {
    if |name| > 0 && name[0] == '/' then name
    else if base == [] || base[|base| - 1] == '/' then base + name
    else base + "/" + name
  }

  /** Pushing several segments in order. */
  function JoinAll(base: Path, names: seq<string>): Path
    decreases |names|
  {
    if names == [] then base else JoinAll(Join(base, names[0]), names[1..])
  }

  /** `[..].join(sep)` on a slice of strings. */
  function JoinSep(parts: seq<string>, sep: char): string
    decreases |parts|
  {
    if parts == [] then ""
    else if |parts| == 1 then parts[0]
    else parts[0] + [sep] + JoinSep(parts[1..], sep)
  }

  /** The sum of `len + 1` over the parts: the bytes a part and its separator take. */
  function Cost(parts: seq<string>): nat
    decreases |parts|
  {
    if parts == [] then 0 else |parts[0]| + 1 + Cost(parts[1..])
  }

  lemma {:induction false} CostAppend(a: seq<string>, b: seq<string>)
    ensures Cost(a + b) == Cost(a) + Cost(b)
    decreases |a|
  {
    if a != [] {
      assert (a + b)[0] == a[0] && (a + b)[1..] == a[1..] + b;
      CostAppend(a[1..], b);
    } else {
      assert a + b == b;
    }
  }

  /** The joined string is exactly as long as its parts plus one separator between each two. */
  lemma {:induction false} JoinSepLength(parts: seq<string>, sep: char)
    requires parts != []
    ensures |JoinSep(parts, sep)| + 1 == Cost(parts)
    decreases |parts|
  {
    if |parts| > 1 {
      JoinSepLength(parts[1..], sep);
    }
  }

  /** `str::split(sep)`: the maximal separator-free pieces, possibly empty. */
  function Split(s: string, sep: char): (r: seq<string>)
    ensures |r| >= 1
    decreases |s|
  {
    if sep !in s then [s]
    else
      var i := IndexOf(s, sep);
      [s[..i]] + Split(s[i + 1..], sep)
  }

  function IndexOf(s: string, c: char): (i: nat)
    requires c in s
    ensures i < |s| && s[i] == c && c !in s[..i]
  {
    if s[0] == c then 0 else 1 + IndexOf(s[1..], c)
  }

  /** Joining separator-free parts and splitting the result gives the parts back. */
  lemma {:induction false} SplitJoinSep(parts: seq<string>, sep: char)
    requires parts != []
    requires forall k :: 0 <= k < |parts| ==> sep !in parts[k]
    ensures Split(JoinSep(parts, sep), sep) == parts
    decreases |parts|
  {
    if |parts| > 1 {
      var s := JoinSep(parts, sep);
      var rest := JoinSep(parts[1..], sep);
      assert s == parts[0] + [sep] + rest;
      assert s[|parts[0]|] == sep;
      assert sep in s;
      assert s[..|parts[0]|] == parts[0];
      assert IndexOf(s, sep) == |parts[0]|;
      assert s[|parts[0]| + 1..] == rest;
      SplitJoinSep(parts[1..], sep);
    }
  }

  /** `Path::parent() == Some("/")` on a normalised absolute path: exactly one component. */
  predicate ParentIsRoot(p: Path) {
    |p| >= 2 && p[0] == '/' && forall i :: 1 <= i < |p| ==> p[i] != '/'
  }

  function LastIndexOf(s: string, c: char): (i: nat)
    requires c in s
    ensures i < |s| && s[i] == c && forall j :: i < j < |s| ==> s[j] != c
  {
    if s[|s| - 1] == c then |s| - 1
    else
      assert c in s[..|s| - 1] by {
        var k :| 0 <= k < |s| && s[k] == c;
        assert s[..|s| - 1][k] == c;
      }
      LastIndexOf(s[..|s| - 1], c)
  }

  /**
   * The copy of `target` kept below `root`: the target minus its leading
   * '/' characters, joined onto the root.
   */
  function MirrorOf(root: Path, target: Path): Path {
    Join(root, TrimLeading(target, '/'))
  }

  /** What `Join` puts in front of a relative segment: the base, with a '/' unless it already ends in one. */
  function JoinPrefix(base: Path): Path {
    if base == [] || base[|base| - 1] == '/' then base else base + "/"
  }

  /** With its leading '/' dropped the target is relative, so it is simply appended. */
  lemma MirrorOfShape(root: Path, target: Path)
    ensures MirrorOf(root, target) == JoinPrefix(root) + TrimLeading(target, '/')
  {
    var a := TrimLeading(target, '/');
    assert !(|a| > 0 && a[0] == '/');
  }

  /**
   * A mirror path never leaves its root, whatever the target, and two
   * targets that differ once their leading '/' are dropped get different
   * mirror paths.
   */
  lemma MirrorOfProperties(root: Path, target: Path, other: Path)
    ensures StartsWith(MirrorOf(root, target), root)
    ensures TrimLeading(target, '/') != TrimLeading(other, '/') ==> MirrorOf(root, target) != MirrorOf(root, other)
  {
    var pre := JoinPrefix(root);
    var a := TrimLeading(target, '/');
    var b := TrimLeading(other, '/');
    MirrorOfShape(root, target);
    MirrorOfShape(root, other);
    assert pre[..|root|] == root;
    assert (pre + a)[..|root|] == root;
    assert (pre + a)[|pre|..] == a && (pre + b)[|pre|..] == b;
  }

  // ---------------------------------------------------------------------
  // Components

  /** The first component `Path::components` reports ahead of the normal ones: the root, a leading ".", or none. */
  function Lead(p: Path): seq<string> {
    if |p| > 0 && p[0] == '/' then ["/"]
    else if p == "." || StartsWith(p, "./") then ["."]
    else []
  }

  /** The pieces that are normal components: empty pieces (repeated or trailing '/') and "." are dropped. */
  function Normal(pieces: seq<string>): (r: seq<string>)
    ensures forall k :: 0 <= k < |r| ==> r[k] != "" && r[k] != "."
    decreases |pieces|
  {
    if pieces == [] then []
    else (if pieces[0] == "" || pieces[0] == "." then [] else [pieces[0]]) + Normal(pieces[1..])
  }

  /** The normal components of a path. */
  function Pieces(p: Path): seq<string> {
    Normal(Split(p, '/'))
  }

  /** `Path::components`, each as its string: the root is "/". */
  function Components(p: Path): seq<string> {
    Lead(p) + Pieces(p)
  }

  /** The normal components of several segments, one after the other. */
  function PiecesAll(names: seq<string>): seq<string>
    decreases |names|
  {
    if names == [] then [] else Pieces(names[0]) + PiecesAll(names[1..])
  }

  /**
   * `Path::strip_prefix`: the components of `p` after those of `base`, when
   * `base`'s components begin `p`'s; otherwise nothing.
   */
  function StripPrefix(p: Path, base: Path): Option<seq<string>> {
    After(Components(base), Components(p))
  }

  /** What follows `a` in `b` when `a` begins `b`. */
  function After(a: seq<string>, b: seq<string>): (r: Option<seq<string>>)
    ensures r.Some? <==> IsPrefixOf(a, b)
    ensures r.Some? ==> b == a + r.value
  {
    if |a| <= |b| && b[..|a|] == a then
      assert b == a + b[|a|..];
      Some(b[|a|..])
    else None
  }

  lemma AfterAppend(a: seq<string>, r: seq<string>)
    ensures After(a, a + r) == Some(r)
  {
    assert (a + r)[..|a|] == a && (a + r)[|a|..] == r;
  }

  predicate IsPrefixOf(a: seq<string>, b: seq<string>) {
    |a| <= |b| && b[..|a|] == a
  }

  /** A segment `Join` appends rather than letting it replace the base. */
  predicate Relative(name: string) {
    name == "" || name[0] != '/'
  }

  /** A single normal component: non-empty, without '/', and not ".". */
  predicate PlainName(name: string) {
    name != "" && name != "." && '/' !in name
  }

  lemma IndexOfFirst(s: string, c: char, i: nat)
    requires i < |s| && s[i] == c && c !in s[..i]
    ensures IndexOf(s, c) == i
  {
  }

  /** Splitting at a separator between two strings splits each of them. */
  lemma {:induction false} SplitAround(a: string, b: string, sep: char)
    ensures Split(a + [sep] + b, sep) == Split(a, sep) + Split(b, sep)
    decreases |a|
  {
    var s := a + [sep] + b;
    if sep !in a {
      assert s[..|a|] == a;
      IndexOfFirst(s, sep, |a|);
      assert s[|a| + 1..] == b;
    } else {
      var i := IndexOf(a, sep);
      assert s[..i] == a[..i];
      IndexOfFirst(s, sep, i);
      assert s[i + 1..] == a[i + 1..] + [sep] + b;
      SplitAround(a[i + 1..], b, sep);
    }
  }

  lemma {:induction false} NormalAppend(a: seq<string>, b: seq<string>)
    ensures Normal(a + b) == Normal(a) + Normal(b)
    decreases |a|
  {
    if a == [] {
      assert a + b == b;
    } else {
      assert (a + b)[0] == a[0] && (a + b)[1..] == a[1..] + b;
      NormalAppend(a[1..], b);
    }
  }

  lemma PiecesAround(a: string, b: string)
    ensures Pieces(a + "/" + b) == Pieces(a) + Pieces(b)
  {
    SplitAround(a, b, '/');
    NormalAppend(Split(a, '/'), Split(b, '/'));
  }

  /** A plain name is its own single component. */
  lemma PiecesPlain(name: string)
    requires PlainName(name)
    ensures Pieces(name) == [name]
  {
    assert Split(name, '/') == [name];
    assert Normal([name]) == [name] + Normal([]);
  }

  /** Appending to a non-empty path keeps its leading component, unless "." becomes ".x". */
  lemma LeadExtend(base: Path, t: string)
    requires base != "" && (t == "" || base != "." || t[0] == '/')
    ensures Lead(base + t) == Lead(base)
  {
    var s := base + t;
    assert s[0] == base[0];
    if |base| >= 2 {
      assert s[..2] == base[..2];
    } else if t != "" && base == "." {
      assert s[..2] == "./";
    }
  }

  /** Joining a relative segment onto a non-empty base adds that segment's normal components. */
  lemma ComponentsJoin(base: Path, name: string)
    requires base != "" && Relative(name)
    ensures Join(base, name) != ""
    ensures Components(Join(base, name)) == Components(base) + Pieces(name)
  {
    if base[|base| - 1] == '/' {
      ComponentsJoinSlash(base, name);
    } else {
      ComponentsJoinPlain(base, name);
    }
  }

  lemma ComponentsJoinSlash(base: Path, name: string)
    requires base != "" && Relative(name) && base[|base| - 1] == '/'
    ensures Join(base, name) == base + name
    ensures Components(base + name) == Components(base) + Pieces(name)
  {
    var x := base[..|base| - 1];
    assert base == x + "/" + "";
    assert base + name == x + "/" + name;
    PiecesAround(x, "");
    PiecesAround(x, name);
    assert Split("", '/') == [""];
    assert Pieces("") == [];
    assert base != ".";
    LeadExtend(base, name);
  }

  lemma ComponentsJoinPlain(base: Path, name: string)
    requires base != "" && Relative(name) && base[|base| - 1] != '/'
    ensures Join(base, name) == base + ("/" + name)
    ensures Components(base + ("/" + name)) == Components(base) + Pieces(name)
  {
    assert base + ("/" + name) == base + "/" + name;
    PiecesAround(base, name);
    LeadExtend(base, "/" + name);
  }

  lemma {:induction false} ComponentsJoinAll(base: Path, names: seq<string>)
    requires base != "" && forall k :: 0 <= k < |names| ==> Relative(names[k])
    ensures Components(JoinAll(base, names)) == Components(base) + PiecesAll(names)
    decreases |names|
  {
    if names != [] {
      var next := Join(base, names[0]);
      ComponentsJoin(base, names[0]);
      assert forall k :: 0 <= k < |names[1..]| ==> Relative(names[1..][k]) by {
        forall k | 0 <= k < |names[1..]| ensures Relative(names[1..][k]) {
          assert names[1..][k] == names[k + 1];
        }
      }
      ComponentsJoinAll(next, names[1..]);
      assert JoinAll(base, names) == JoinAll(next, names[1..]);
      assert PiecesAll(names) == Pieces(names[0]) + PiecesAll(names[1..]);
      ConcatAssoc(Components(base), Pieces(names[0]), PiecesAll(names[1..]));
    }
  }

  lemma {:induction false} PiecesAllPlain(names: seq<string>)
    requires forall k :: 0 <= k < |names| ==> PlainName(names[k])
    ensures PiecesAll(names) == names
    decreases |names|
  {
    if names != [] {
      PiecesPlain(names[0]);
      PiecesAllPlain(names[1..]);
    }
  }

  /**
   * Past a non-empty base, a path joined from relative segments has the
   * normal components of those segments: "vendor/overlay" and "vendor/"
   * contribute "vendor", "overlay" and "vendor".
   */
  lemma {:induction false} StripPrefixJoined(base: Path, part: string, sub: seq<string>)
    requires base != "" && Relative(part) && forall k :: 0 <= k < |sub| ==> Relative(sub[k])
    ensures StripPrefix(JoinAll(Join(base, part), sub), base) == Some(Pieces(part) + PiecesAll(sub))
  {
    var partSource := Join(base, part);
    var path := JoinAll(partSource, sub);
    var rest := Pieces(part) + PiecesAll(sub);
    ComponentsJoin(base, part);
    ComponentsJoinAll(partSource, sub);
    ConcatAssoc(Components(base), Pieces(part), PiecesAll(sub));
    StripPrefixIs(path, base, rest);
  }

  lemma ConcatAssoc<T>(a: seq<T>, b: seq<T>, c: seq<T>)
    ensures (a + b) + c == a + (b + c)
  {
  }

  lemma StripPrefixIs(p: Path, base: Path, rest: seq<string>)
    requires Components(p) == Components(base) + rest
    ensures StripPrefix(p, base) == Some(rest)
  {
    AfterAppend(Components(base), rest);
  }

  /** `Path::parent()` on a normalised path (no trailing or repeated '/'). */
  function Parent(p: Path): Option<Path> {
    if p == "" || p == "/" then None
    else if '/' !in p then Some("")
    else
      var i := LastIndexOf(p, '/');
      if i == 0 then Some("/") else Some(p[..i])
  }
}
