/**
 Member names of a report archive and their normalized paths.

 The validator compares paths as POSIX strings; the results below let the rest of the
 model compare them as component lists.
 */
module ArchivePaths {
  import opened ByteStrings

  type Path = seq<string>

  datatype Kind = File | Directory | Other

  datatype Member = Member(name: string, kind: Kind, size: nat)

  /** `name.split("/")`. */
  function Split(s: string): (parts: seq<string>)
    ensures |parts| > 0
  {
    if s == "" then [""]
    else
      var rest := Split(s[1..]);
      if s[0] == '/' then [""] + rest else [[s[0]] + rest[0]] + rest[1..]
  }

  /** The components `PurePosixPath` keeps. */
  function Components(parts: seq<string>): Path {
    if parts == [] then []
    else (if parts[0] == "" || parts[0] == "." then [] else [parts[0]]) + Components(parts[1..])
  }

  predicate HasControl(s: string) {
    exists i :: 0 <= i < |s| && s[i] as int < 32
  }

  /** `normalized_archive_member_path`: the path, or nothing for an unsafe one. The root is the empty path. */
  function Normalized(m: Member): Option<Path> {
    if m.name == "" || '\\' in m.name || HasControl(m.name) then None
    else
      var path := Components(Split(m.name));
      if m.name[0] == '/' || ".." in path then None
      else if path == [] then if m.kind == Directory then Some([]) else None
      else if exists i :: 0 <= i < |path| && ':' in path[i] then None
      else Some(path)
  }

  /** A path as the source writes it. */
  function Posix(path: Path): string {
    if path == [] then "." else path[0] + Tail(path[1..])
  }

  function Tail(path: Path): string {
    if path == [] then "" else "/" + path[0] + Tail(path[1..])
  }

  predicate Component(s: string) {
    s != "" && s != "." && '/' !in s
  }

  predicate WellFormed(path: Path) {
    forall i | 0 <= i < |path| :: Component(path[i])
  }

  lemma {:induction false} SplitHasNoSlash(s: string)
    ensures forall i | 0 <= i < |Split(s)| :: '/' !in Split(s)[i]
  {
    if s != "" {
      SplitHasNoSlash(s[1..]);
    }
  }

  lemma {:induction false} ComponentsAreKept(parts: seq<string>)
    requires forall i | 0 <= i < |parts| :: '/' !in parts[i]
    ensures WellFormed(Components(parts))
  {
    if parts != [] {
      ComponentsAreKept(parts[1..]);
    }
  }

  lemma NormalizedIsWellFormed(m: Member)
    ensures Normalized(m).Some? ==> WellFormed(Normalized(m).value)
  {
    SplitHasNoSlash(m.name);
    ComponentsAreKept(Split(m.name));
  }

  // ---------------------------------------------------- strings against lists

  predicate SlashOrEnd(s: string) {
    s == "" || s[0] == '/'
  }

  /** The position of the first slash, or the length. */
  function FirstSlash(s: string): nat {
    if SlashOrEnd(s) then 0 else 1 + FirstSlash(s[1..])
  }

  lemma {:induction false} FirstSlashAfter(a: string, x: string)
    requires '/' !in a && SlashOrEnd(x)
    ensures FirstSlash(a + x) == |a|
  {
    if a == "" {
      assert a + x == x;
    } else {
      assert (a + x)[1..] == a[1..] + x && (a + x)[0] == a[0];
      FirstSlashAfter(a[1..], x);
    }
  }

  lemma {:induction false} FirstSlashOfPrefix(s: string, t: string)
    requires s <= t && FirstSlash(s) < |s|
    ensures FirstSlash(t) == FirstSlash(s)
  {
    if !SlashOrEnd(s) {
      FirstSlashOfPrefix(s[1..], t[1..]);
    }
  }

  /** A component ends where the next slash is. */
  lemma ComponentEnds(a: string, x: string, b: string, y: string)
    requires '/' !in a && '/' !in b && SlashOrEnd(y) && x != "" && x[0] == '/'
    requires a + x <= b + y
    ensures a == b && x <= y
  {
    hide FirstSlash;
    var s, t := a + x, b + y;
    FirstSlashAfter(a, x);
    FirstSlashAfter(b, y);
    FirstSlashOfPrefix(s, t);
    assert a == s[..|a|] == t[..|a|] == b;
    assert x == s[|a|..] && y == t[|a|..] && s == t[..|s|];
  }

  /** Two components with what follows them compare component by component. */
  lemma ComponentPrefix(a: string, x: string, b: string, y: string)
    requires '/' !in a && '/' !in b && SlashOrEnd(y) && x != "" && x[0] == '/'
    ensures a + x <= b + y <==> a == b && x <= y
  {
    if a + x <= b + y {
      ComponentEnds(a, x, b, y);
    }
    if a == b && x <= y {
      assert b + y == a + x + y[|x|..];
    }
  }

  lemma StripSlash(s: string, t: string)
    ensures "/" + s <= "/" + t <==> s <= t
  {
    if "/" + s <= "/" + t {
      assert s == ("/" + s)[1..] && t == ("/" + t)[1..];
      assert "/" + s == ("/" + t)[..|s| + 1];
    }
  }

  lemma TailStarts(path: Path)
    ensures SlashOrEnd(Tail(path)) && (Tail(path) + "/")[0] == '/'
    ensures path != [] ==> Tail(path) == "/" + (path[0] + Tail(path[1..]))
    ensures path != [] ==> Tail(path) + "/" == "/" + (path[0] + (Tail(path[1..]) + "/"))
  {
  }

  lemma ProperPrefixStep(p: Path, q: Path)
    requires p != [] && q != []
    ensures p < q <==> p[0] == q[0] && p[1..] < q[1..]
  {
    assert p == [p[0]] + p[1..] && q == [q[0]] + q[1..];
    if p < q {
      assert p[1..] == q[1..][..|p| - 1];
    }
    if p[0] == q[0] && p[1..] < q[1..] {
      assert q[..|p|] == [q[0]] + q[1..][..|p| - 1];
    }
  }

  lemma {:induction false} TailPrefix(p: Path, q: Path)
    requires WellFormed(p) && WellFormed(q)
    ensures Tail(p) + "/" <= Tail(q) <==> p < q
    decreases |p|
  {
    TailStarts(p);
    TailStarts(q);
    if p == [] {
      if q != [] {
        assert Tail(q)[0] == '/';
      }
    } else if q != [] {
      hide Tail;
      TailStarts(p[1..]);
      TailStarts(q[1..]);
      var x, y := Tail(p[1..]) + "/", Tail(q[1..]);
      StripSlash(p[0] + x, q[0] + y);
      ComponentPrefix(p[0], x, q[0], y);
      TailPrefix(p[1..], q[1..]);
      ProperPrefixStep(p, q);
    }
  }

  /** `existing.startswith(normalized + "/")` says that one path is a proper ancestor of the other. */
  lemma StartsWithIsAncestor(p: Path, q: Path)
    requires WellFormed(p) && WellFormed(q) && p != [] && q != []
    ensures Posix(p) + "/" <= Posix(q) <==> p < q
  {
    hide Tail;
    TailStarts(p[1..]);
    TailStarts(q[1..]);
    var x, y := Tail(p[1..]) + "/", Tail(q[1..]);
    assert Posix(p) + "/" == p[0] + x;
    ComponentPrefix(p[0], x, q[0], y);
    TailPrefix(p[1..], q[1..]);
    ProperPrefixStep(p, q);
  }

  /** Different paths have different strings. */
  lemma PosixInjective(p: Path, q: Path)
    requires WellFormed(p) && WellFormed(q) && p != [] && q != [] && Posix(p) == Posix(q)
    ensures p == q
  {
    hide Posix, Tail;
    AppendComponent(p);
    AppendComponent(q);
    StartsWithIsAncestor(p, q + ["x"]);
    StartsWithIsAncestor(q, p + ["x"]);
    assert p == (q + ["x"])[..|q|];
  }

  lemma AppendComponent(p: Path)
    requires WellFormed(p) && p != []
    ensures WellFormed(p + ["x"]) && Posix(p + ["x"]) == Posix(p) + "/" + "x"
  {
    TailAppend(p[1..]);
    assert (p + ["x"])[1..] == p[1..] + ["x"];
  }

  lemma {:induction false} TailAppend(p: Path)
    ensures Tail(p + ["x"]) == Tail(p) + "/" + "x"
  {
    if p == [] {
      assert Tail(["x"]) == "/" + "x" + Tail([]);
    } else {
      TailAppend(p[1..]);
      assert (p + ["x"])[1..] == p[1..] + ["x"];
    }
  }
}
