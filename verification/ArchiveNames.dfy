/**
 Which member names of a report archive are accepted, and what they become: a name is the
 parts between its slashes, in one way (`SplitOfJoin`, `JoinOfSplit`), and `NameIff` says
 exactly which parts make a safe name and which of them are kept.
 */
module ArchiveNames {
  import opened ByteStrings
  import opened ArchivePaths

  function Join(parts: seq<string>): string
    requires parts != []
  {
    if |parts| == 1 then parts[0] else parts[0] + "/" + Join(parts[1..])
  }

  predicate NoSlashes(parts: seq<string>) {
    forall i | 0 <= i < |parts| :: '/' !in parts[i]
  }

  lemma {:induction false} JoinOfSplit(s: string)
    ensures Join(Split(s)) == s && NoSlashes(Split(s))
    decreases |s|
  {
    SplitHasNoSlash(s);
    if s != "" {
      JoinOfSplit(s[1..]);
      var rest := Split(s[1..]);
      assert s == [s[0]] + s[1..];
      if s[0] == '/' {
        assert Split(s)[1..] == rest;
      } else {
        var parts := Split(s);
        assert parts[1..] == rest[1..];
        if |parts| > 1 {
          assert Join(parts) == ([s[0]] + rest[0]) + "/" + Join(rest[1..]);
          assert Join(rest) == rest[0] + "/" + Join(rest[1..]);
        }
      }
    }
  }

  /** A name is the parts between its slashes in one way only. */
  lemma {:induction false} SplitOfJoin(parts: seq<string>)
    requires parts != [] && NoSlashes(parts)
    ensures Split(Join(parts)) == parts
    decreases |parts|
  {
    if |parts| == 1 {
      SplitPart(parts[0]);
      assert parts == [parts[0]];
    } else {
      SplitOfJoin(parts[1..]);
      SplitAfter(parts[0], Join(parts[1..]));
      assert parts[0] + ("/" + Join(parts[1..])) == Join(parts);
      assert parts == [parts[0]] + parts[1..];
    }
  }

  lemma {:induction false} SplitPart(part: string)
    requires '/' !in part
    ensures Split(part) == [part]
    decreases |part|
  {
    if part != "" {
      SplitPart(part[1..]);
      assert part == [part[0]] + part[1..];
    }
  }

  lemma {:induction false} SplitAfter(part: string, rest: string)
    requires '/' !in part
    ensures Split(part + ("/" + rest)) == [part] + Split(rest)
    decreases |part|
  {
    var s := part + ("/" + rest);
    if part == "" {
      assert s == "/" + rest && s[1..] == rest;
    } else {
      assert s[0] == part[0] && s[1..] == part[1..] + ("/" + rest);
      SplitAfter(part[1..], rest);
      var tail := Split(s[1..]);
      assert tail[0] == part[1..] && tail[1..] == Split(rest);
      assert part == [part[0]] + part[1..];
    }
  }

  /** The elements that are to be kept, in order. */
  function Filter(parts: seq<string>, keep: string -> bool): seq<string> {
    if parts == [] then []
    else
      var front, last := Filter(parts[..|parts| - 1], keep), parts[|parts| - 1];
      if keep(last) then front + [last] else front
  }

  lemma {:induction false} ComponentsSnoc(parts: seq<string>, last: string)
    ensures Components(parts + [last]) == Components(parts) + (if last == "" || last == "." then [] else [last])
    decreases |parts|
  {
    if parts == [] {
      assert parts + [last] == [last] && [last][1..] == [];
    } else {
      assert (parts + [last])[1..] == parts[1..] + [last];
      ComponentsSnoc(parts[1..], last);
    }
  }

  lemma {:induction false} ComponentsAreFiltered(parts: seq<string>)
    ensures Components(parts) == Filter(parts, part => part != "" && part != ".")
    ensures forall part :: part in Components(parts) <==> part in parts && part != "" && part != "."
    decreases |parts|
  {
    if parts != [] {
      var front, last := parts[..|parts| - 1], parts[|parts| - 1];
      assert parts == front + [last];
      ComponentsAreFiltered(front);
      ComponentsSnoc(front, last);
    }
  }

  predicate SafeCharacter(c: char) {
    c >= ' ' && c != '\\' && c != ':'
  }

  /** The character is one of a part, or the slash between two. */
  lemma {:induction false} JoinHas(parts: seq<string>, c: char)
    requires parts != [] && c != '/'
    ensures c in Join(parts) <==> exists i :: 0 <= i < |parts| && c in parts[i]
    decreases |parts|
  {
    if |parts| == 1 {
      if c in Join(parts) {
        assert c in parts[0];
      }
    } else {
      JoinHas(parts[1..], c);
      assert Join(parts) == parts[0] + ("/" + Join(parts[1..]));
      if c in Join(parts) && c !in parts[0] {
        assert c in Join(parts[1..]);
        var i :| 0 <= i < |parts| - 1 && c in parts[1..][i];
        assert c in parts[i + 1];
      }
      if i :| 0 <= i < |parts| && c in parts[i] {
        if i > 0 {
          assert c in parts[1..][i - 1];
        }
      }
    }
  }

  lemma ColonIsKept(parts: seq<string>)
    requires parts != []
    ensures ':' in Join(parts) <==> exists i :: 0 <= i < |Components(parts)| && ':' in Components(parts)[i]
  {
    hide Components, Join;
    JoinHas(parts, ':');
    ComponentsAreFiltered(parts);
    if i :| 0 <= i < |parts| && ':' in parts[i] {
      assert parts[i] in parts;
      var k :| 0 <= k < |Components(parts)| && Components(parts)[k] == parts[i];
    }
    if k :| 0 <= k < |Components(parts)| && ':' in Components(parts)[k] {
      assert Components(parts)[k] in parts;
      var i :| 0 <= i < |parts| && parts[i] == Components(parts)[k];
    }
  }

  lemma FirstSlashMeansEmpty(parts: seq<string>)
    requires parts != [] && NoSlashes(parts)
    ensures Join(parts) == "" || Join(parts)[0] == '/' <==> parts[0] == ""
  {
  }

  lemma SafeIff(s: string)
    ensures (forall i | 0 <= i < |s| :: SafeCharacter(s[i])) <==> '\\' !in s && !HasControl(s) && ':' !in s
  {
  }

  /** A member is accepted exactly when its name does not begin with a slash, has no control character, backslash or
      colon and no part "..", and is not just dots and slashes unless it is a directory. The path is the parts in order,
      without the empty ones and ".". */
  lemma NameIff(m: Member, parts: seq<string>)
    requires parts != [] && NoSlashes(parts) && m.name == Join(parts)
    ensures Normalized(m).Some? <==>
              && parts[0] != "" && (forall i | 0 <= i < |m.name| :: SafeCharacter(m.name[i])) && ".." !in parts
              && (m.kind == Directory || exists part :: part in parts && part != "" && part != ".")
    ensures Normalized(m).Some? ==> Normalized(m).value == Filter(parts, part => part != "" && part != ".")
  {
    hide Split, Join, Components, HasControl, SafeCharacter;
    SplitOfJoin(parts);
    ComponentsAreFiltered(parts);
    ColonIsKept(parts);
    FirstSlashMeansEmpty(parts);
    SafeIff(m.name);
    var path := Components(parts);
    if path != [] {
      assert path[0] in path;
    }
  }
}
