/**
 Validation and extraction of report archives.

 `ValidateMembers` is the source's loop over strings; it reports no issue exactly when
 the archive is `Clean`, a condition on the members' paths that mentions neither the
 loop nor its table. `CleanArchivesExtract` then runs the extraction on a model of a
 file system: it never meets a file where a directory is needed or an existing target,
 and it leaves exactly the members' tree.
 */
module ArchiveTree {
  import opened ByteStrings
  import opened ArchivePaths

  const MAX_REPORT_FILE_BYTES: nat := 5 * 1024 * 1024
  const MAX_REPORT_FILES: nat := 200
  const MAX_REPORT_TOTAL_BYTES: nat := 64 * 1024 * 1024

  datatype Issue =
    | TooManyFiles
    | UnsafePath
    | UnsupportedEntry
    | DuplicateEntry
    | CrossesFile
    | ShadowsDirectory
    | FileTooLarge
    | TotalTooLarge

  // ------------------------------------------------------------ clean archives

  function PathOf(m: Member): Path
    requires Normalized(m).Some?
  {
    Normalized(m).value
  }

  /** A member that can be extracted at all. */
  predicate Extractable(m: Member) {
    Normalized(m).Some? && m.kind != Other
  }

  /** An earlier and a later member of one archive that cannot both be extracted. */
  predicate Conflict(earlier: Member, later: Member)
    requires Extractable(earlier) && Extractable(later)
  {
    var p, q := PathOf(earlier), PathOf(later);
    && p != [] && q != []
    && (p == q || (earlier.kind == File && p < q) || (later.kind == File && q < p))
  }

  function FileBytes(m: Member): nat {
    if m.kind == File then m.size else 0
  }

  function TotalBytes(members: seq<Member>): nat {
    if members == [] then 0 else TotalBytes(members[..|members| - 1]) + FileBytes(members[|members| - 1])
  }

  /** No conflict, no unsafe member, no file over its limit among the members. */
  ghost predicate Sound(members: seq<Member>) {
    && (forall i | 0 <= i < |members| :: Extractable(members[i]) && FileBytes(members[i]) <= 5 * 1024 * 1024)
    && (forall i, j | 0 <= i < j < |members| :: !Conflict(members[i], members[j]))
  }

  ghost predicate Clean(members: seq<Member>) {
    |members| <= 200 && Sound(members) && TotalBytes(members) <= 64 * 1024 * 1024
  }

  // ------------------------------------------------------------- the validator

  /** `seen` holds the string and kind of every member below the root. */
  ghost predicate Records(seen: map<string, Kind>, members: seq<Member>) {
    && (forall i | 0 <= i < |members| :: Extractable(members[i]))
    && (forall i | 0 <= i < |members| && PathOf(members[i]) != [] ::
          Posix(PathOf(members[i])) in seen && seen[Posix(PathOf(members[i]))] == members[i].kind)
    && (forall s | s in seen :: exists i :: 0 <= i < |members| && PathOf(members[i]) != [] && Posix(PathOf(members[i])) == s)
  }

  /** Does some proper ancestor of the path stand in the table as a file? */
  method FindFileAbove(seen: map<string, Kind>, path: Path) returns (crosses: bool)
    ensures crosses <==> exists k :: 0 < k < |path| && Posix(path[..k]) in seen && seen[Posix(path[..k])] == File
  {
    hide Posix;
    crosses := false;
    if path == [] {
      return;
    }
    var k := |path| - 1;
    while k > 0
      invariant 0 <= k < |path|
      invariant forall j | k < j < |path| :: !(Posix(path[..j]) in seen && seen[Posix(path[..j])] == File)
    {
      if Posix(path[..k]) in seen && seen[Posix(path[..k])] == File {
        return true;
      }
      k := k - 1;
    }
  }

  /** What the table says about a new member is what its path says about the members recorded. */
  lemma TableMeansPaths(seen: map<string, Kind>, members: seq<Member>, m: Member)
    requires Records(seen, members) && Extractable(m) && PathOf(m) != []
    ensures Posix(PathOf(m)) in seen <==> exists i :: 0 <= i < |members| && PathOf(members[i]) == PathOf(m)
    ensures (exists k :: 0 < k < |PathOf(m)| && Posix(PathOf(m)[..k]) in seen && seen[Posix(PathOf(m)[..k])] == File)
       <==> exists i :: 0 <= i < |members| && PathOf(members[i]) != [] && members[i].kind == File && PathOf(members[i]) < PathOf(m)
    ensures (exists s :: s in seen && Posix(PathOf(m)) + "/" <= s)
       <==> exists i :: 0 <= i < |members| && PathOf(m) < PathOf(members[i])
  {
    hide Posix, Normalized;
    SameMeansRecorded(seen, members, m);
    AboveMeansRecorded(seen, members, m);
    BelowMeansRecorded(seen, members, m);
  }

  lemma Lookup(seen: map<string, Kind>, members: seq<Member>, path: Path) returns (i: nat)
    requires Records(seen, members) && WellFormed(path) && path != [] && Posix(path) in seen
    ensures i < |members| && PathOf(members[i]) == path && members[i].kind == seen[Posix(path)]
  {
    hide Posix, Normalized;
    i :| 0 <= i < |members| && PathOf(members[i]) != [] && Posix(PathOf(members[i])) == Posix(path);
    NormalizedIsWellFormed(members[i]);
    PosixInjective(PathOf(members[i]), path);
  }

  lemma SameMeansRecorded(seen: map<string, Kind>, members: seq<Member>, m: Member)
    requires Records(seen, members) && Extractable(m) && PathOf(m) != []
    ensures Posix(PathOf(m)) in seen <==> exists i :: 0 <= i < |members| && PathOf(members[i]) == PathOf(m)
  {
    hide Posix, Normalized;
    NormalizedIsWellFormed(m);
    if Posix(PathOf(m)) in seen {
      var i := Lookup(seen, members, PathOf(m));
    }
  }

  lemma AboveMeansRecorded(seen: map<string, Kind>, members: seq<Member>, m: Member)
    requires Records(seen, members) && Extractable(m) && PathOf(m) != []
    ensures (exists k :: 0 < k < |PathOf(m)| && Posix(PathOf(m)[..k]) in seen && seen[Posix(PathOf(m)[..k])] == File)
       <==> exists i :: 0 <= i < |members| && PathOf(members[i]) != [] && members[i].kind == File && PathOf(members[i]) < PathOf(m)
  {
    hide Posix, Normalized;
    var path := PathOf(m);
    NormalizedIsWellFormed(m);
    if k :| 0 < k < |path| && Posix(path[..k]) in seen && seen[Posix(path[..k])] == File {
      var i := Lookup(seen, members, path[..k]);
      assert PathOf(members[i]) < path;
    }
    if i :| 0 <= i < |members| && PathOf(members[i]) != [] && members[i].kind == File && PathOf(members[i]) < path {
      var k := |PathOf(members[i])|;
      assert path[..k] == PathOf(members[i]);
    }
  }

  lemma BelowMeansRecorded(seen: map<string, Kind>, members: seq<Member>, m: Member)
    requires Records(seen, members) && Extractable(m) && PathOf(m) != []
    ensures (exists s :: s in seen && Posix(PathOf(m)) + "/" <= s)
       <==> exists i :: 0 <= i < |members| && PathOf(m) < PathOf(members[i])
  {
    hide Posix, Normalized;
    NormalizedIsWellFormed(m);
    if s :| s in seen && Posix(PathOf(m)) + "/" <= s {
      var i :| 0 <= i < |members| && PathOf(members[i]) != [] && Posix(PathOf(members[i])) == s;
      NormalizedIsWellFormed(members[i]);
      StartsWithIsAncestor(PathOf(m), PathOf(members[i]));
    }
    if i :| 0 <= i < |members| && PathOf(m) < PathOf(members[i]) {
      NormalizedIsWellFormed(members[i]);
      StartsWithIsAncestor(PathOf(m), PathOf(members[i]));
      assert Posix(PathOf(members[i])) in seen;
    }
  }

  /** The member conflicts with none of those before it. */
  ghost predicate Fits(members: seq<Member>, m: Member)
    requires (forall i | 0 <= i < |members| :: Extractable(members[i])) && Extractable(m)
  {
    forall i | 0 <= i < |members| :: !Conflict(members[i], m)
  }

  /** The three tests of the validator together are the absence of a conflict. */
  lemma TestsMeanFit(seen: map<string, Kind>, members: seq<Member>, m: Member)
    requires Records(seen, members) && Extractable(m) && PathOf(m) != []
    ensures Fits(members, m)
       <==> && Posix(PathOf(m)) !in seen
            && !(exists k :: 0 < k < |PathOf(m)| && Posix(PathOf(m)[..k]) in seen && seen[Posix(PathOf(m)[..k])] == File)
            && !(m.kind == File && exists s :: s in seen && Posix(PathOf(m)) + "/" <= s)
  {
    hide Posix, Normalized;
    TableMeansPaths(seen, members, m);
    if i :| 0 <= i < |members| && PathOf(members[i]) == PathOf(m) {
      assert Conflict(members[i], m);
    }
    if i :| 0 <= i < |members| && PathOf(members[i]) != [] && members[i].kind == File && PathOf(members[i]) < PathOf(m) {
      assert Conflict(members[i], m);
    }
    if i :| 0 <= i < |members| && PathOf(m) < PathOf(members[i]) {
      assert m.kind == File ==> Conflict(members[i], m);
    }
  }

  lemma SoundSnoc(members: seq<Member>, m: Member)
    ensures Sound(members + [m])
       <==> && Sound(members) && Extractable(m) && FileBytes(m) <= MAX_REPORT_FILE_BYTES
            && Fits(members, m)
  {
    hide Normalized;
    var all := members + [m];
    assert all[|members|] == m;
    if Sound(all) {
      assert forall i | 0 <= i < |members| :: all[i] == members[i];
    }
  }

  lemma RecordsSnoc(seen: map<string, Kind>, members: seq<Member>, m: Member)
    requires Records(seen, members) && Extractable(m) && PathOf(m) != [] && Posix(PathOf(m)) !in seen
    ensures Records(seen[Posix(PathOf(m)) := m.kind], members + [m])
  {
    hide Posix, Normalized;
    var all, seen' := members + [m], seen[Posix(PathOf(m)) := m.kind];
    assert all[|members|] == m;
    forall s | s in seen'
      ensures exists i :: 0 <= i < |all| && PathOf(all[i]) != [] && Posix(PathOf(all[i])) == s
    {
      if s != Posix(PathOf(m)) {
        var i :| 0 <= i < |members| && PathOf(members[i]) != [] && Posix(PathOf(members[i])) == s;
        assert all[i] == members[i];
      }
    }
  }

  lemma RecordsRoot(seen: map<string, Kind>, members: seq<Member>, m: Member)
    requires Records(seen, members) && Extractable(m) && PathOf(m) == []
    ensures Records(seen, members + [m])
  {
    hide Posix, Normalized;
    var all := members + [m];
    assert all[|members|] == m;
    forall s | s in seen
      ensures exists i :: 0 <= i < |all| && PathOf(all[i]) != [] && Posix(PathOf(all[i])) == s
    {
      var i :| 0 <= i < |members| && PathOf(members[i]) != [] && Posix(PathOf(members[i])) == s;
      assert all[i] == members[i];
    }
  }

  lemma {:induction false} TotalPrefix(members: seq<Member>, k: nat)
    requires k <= |members|
    ensures TotalBytes(members[..k]) <= TotalBytes(members)
    decreases |members|
  {
    if k < |members| {
      TotalPrefix(members[..|members| - 1], k);
      assert members[..|members| - 1][..k] == members[..k];
    } else {
      assert members[..k] == members;
    }
  }

  lemma SoundPrefix(members: seq<Member>, k: nat)
    requires k <= |members| && Sound(members)
    ensures Sound(members[..k])
  {
  }

  /** A prefix that is not sound, or too large, rules out a clean archive. */
  lemma NotClean(members: seq<Member>, k: nat)
    requires k < |members|
    requires !Sound(members[..k] + [members[k]]) || TotalBytes(members[..k] + [members[k]]) > MAX_REPORT_TOTAL_BYTES
    ensures !Clean(members)
  {
    hide Sound, TotalBytes;
    assert members[..k] + [members[k]] == members[..k + 1];
    TotalPrefix(members, k + 1);
    if Sound(members) {
      SoundPrefix(members, k + 1);
    }
  }

  lemma TotalSnoc(members: seq<Member>, m: Member)
    ensures TotalBytes(members + [m]) == TotalBytes(members) + FileBytes(m)
  {
    assert (members + [m])[..|members|] == members;
  }

  /** What each issue says about the archive. */
  ghost predicate Justified(members: seq<Member>, issue: Issue) {
    match issue
    case TooManyFiles => |members| > 200
    case UnsafePath => exists k :: 0 <= k < |members| && Normalized(members[k]).None?
    case UnsupportedEntry => exists k :: 0 <= k < |members| && members[k].kind == Other
    case DuplicateEntry => exists j, k :: 0 <= j < k < |members| && Meets(members[j], members[k]) && PathOf(members[j]) == PathOf(members[k])
    case CrossesFile =>
      exists j, k :: 0 <= j < k < |members| && Meets(members[j], members[k])
                     && members[j].kind == File && PathOf(members[j]) < PathOf(members[k])
    case ShadowsDirectory =>
      exists j, k :: 0 <= j < k < |members| && Meets(members[j], members[k])
                     && members[k].kind == File && PathOf(members[k]) < PathOf(members[j])
    case FileTooLarge => exists k :: 0 <= k < |members| && members[k].kind == File && members[k].size > 5 * 1024 * 1024
    case TotalTooLarge => TotalBytes(members) > 64 * 1024 * 1024
  }

  /** Both members have a path below the root. */
  ghost predicate Meets(earlier: Member, later: Member) {
    Extractable(earlier) && Extractable(later) && PathOf(earlier) != [] && PathOf(later) != []
  }

  /** Everything in the table is the path and kind of a member. */
  ghost predicate SeenFrom(seen: map<string, Kind>, members: seq<Member>) {
    forall s | s in seen ::
      exists j :: 0 <= j < |members| && Extractable(members[j]) && PathOf(members[j]) != []
                  && Posix(PathOf(members[j])) == s && members[j].kind == seen[s]
  }

  lemma SeenFromSnoc(seen: map<string, Kind>, members: seq<Member>, m: Member)
    requires SeenFrom(seen, members)
    ensures SeenFrom(seen, members + [m])
    ensures Extractable(m) && PathOf(m) != [] ==> SeenFrom(seen[Posix(PathOf(m)) := m.kind], members + [m])
  {
    hide Posix, Normalized;
    var all := members + [m];
    assert all[|members|] == m;
    forall s | s in seen
      ensures exists j :: 0 <= j < |all| && Extractable(all[j]) && PathOf(all[j]) != []
                          && Posix(PathOf(all[j])) == s && all[j].kind == seen[s]
    {
      var j :| 0 <= j < |members| && Extractable(members[j]) && PathOf(members[j]) != []
               && Posix(PathOf(members[j])) == s && members[j].kind == seen[s];
      assert all[j] == members[j];
    }
  }

  lemma Find(seen: map<string, Kind>, members: seq<Member>, path: Path) returns (j: nat)
    requires SeenFrom(seen, members) && WellFormed(path) && path != [] && Posix(path) in seen
    ensures j < |members| && Extractable(members[j]) && PathOf(members[j]) == path && members[j].kind == seen[Posix(path)]
  {
    hide Posix, Normalized;
    j :| 0 <= j < |members| && Extractable(members[j]) && PathOf(members[j]) != []
         && Posix(PathOf(members[j])) == Posix(path) && members[j].kind == seen[Posix(path)];
    NormalizedIsWellFormed(members[j]);
    PosixInjective(PathOf(members[j]), path);
  }

  lemma DuplicateIsTrue(seen: map<string, Kind>, members: seq<Member>, k: nat)
    requires k < |members| && SeenFrom(seen, members[..k]) && Extractable(members[k]) && PathOf(members[k]) != []
    requires Posix(PathOf(members[k])) in seen
    ensures Justified(members, DuplicateEntry)
  {
    hide Posix, Normalized;
    NormalizedIsWellFormed(members[k]);
    var j := Find(seen, members[..k], PathOf(members[k]));
    assert members[..k][j] == members[j] && Meets(members[j], members[k]);
  }

  lemma CrossingIsTrue(seen: map<string, Kind>, members: seq<Member>, k: nat, n: nat)
    requires k < |members| && SeenFrom(seen, members[..k]) && Extractable(members[k]) && 0 < n < |PathOf(members[k])|
    requires Posix(PathOf(members[k])[..n]) in seen && seen[Posix(PathOf(members[k])[..n])] == File
    ensures Justified(members, CrossesFile)
  {
    hide Posix, Normalized;
    NormalizedIsWellFormed(members[k]);
    var j := Find(seen, members[..k], PathOf(members[k])[..n]);
    assert members[..k][j] == members[j] && Meets(members[j], members[k]) && PathOf(members[j]) < PathOf(members[k]);
  }

  lemma ShadowIsTrue(seen: map<string, Kind>, members: seq<Member>, k: nat, s: string)
    requires k < |members| && SeenFrom(seen, members[..k]) && Extractable(members[k]) && PathOf(members[k]) != []
    requires members[k].kind == File && s in seen && Posix(PathOf(members[k])) + "/" <= s
    ensures Justified(members, ShadowsDirectory)
  {
    hide Posix, Normalized;
    var before := members[..k];
    var j :| 0 <= j < |before| && Extractable(before[j]) && PathOf(before[j]) != [] && Posix(PathOf(before[j])) == s;
    NormalizedIsWellFormed(members[k]);
    NormalizedIsWellFormed(before[j]);
    StartsWithIsAncestor(PathOf(members[k]), PathOf(before[j]));
    assert before[j] == members[j] && Meets(members[j], members[k]);
  }

  lemma TotalIsTrue(members: seq<Member>, k: nat, total: nat)
    requires k < |members| && 64 * 1024 * 1024 < total <= TotalBytes(members[..k] + [members[k]])
    ensures Justified(members, TotalTooLarge)
  {
    hide TotalBytes;
    assert members[..k] + [members[k]] == members[..k + 1];
    TotalPrefix(members, k + 1);
  }

  lemma MemberIsTrue(members: seq<Member>, k: nat)
    requires k < |members|
    ensures Normalized(members[k]).None? ==> Justified(members, UnsafePath)
    ensures members[k].kind == Other ==> Justified(members, UnsupportedEntry)
    ensures members[k].kind == File && members[k].size > 5 * 1024 * 1024 ==> Justified(members, FileTooLarge)
  {
    hide Normalized;
  }

  /** `validate_archive_members`: every issue it reports is there, and it reports none exactly for a clean archive. */
  method ValidateMembers(members: seq<Member>) returns (issues: seq<Issue>)
    ensures issues == [] <==> Clean(members)
    ensures forall issue | issue in issues :: Justified(members, issue)
  {
    hide Posix, Normalized, Sound, TotalBytes, Records, Fits, Justified, SeenFrom;
    issues := [];
    if |members| > MAX_REPORT_FILES {
      issues := [TooManyFiles];
      assert Justified(members, TooManyFiles) by { CountIsTrue(members); }
    }
    var seen: map<string, Kind>, total := map[], 0;
    Nothing();
    assert members[..0] == [];
    for i := 0 to |members|
      invariant issues != [] ==> !Clean(members)
      invariant issues == [] ==>
        && |members| <= MAX_REPORT_FILES && Sound(members[..i]) && Records(seen, members[..i])
        && total == TotalBytes(members[..i]) <= MAX_REPORT_TOTAL_BYTES
      invariant forall issue | issue in issues :: Justified(members, issue)
      invariant SeenFrom(seen, members[..i]) && total <= TotalBytes(members[..i])
    {
      var m := members[i];
      ghost var before := members[..i];
      assert members[..i + 1] == before + [m];
      SoundSnoc(before, m);
      TotalSnoc(before, m);
      SeenFromSnoc(seen, before, m);
      MemberIsTrue(members, i);
      var path := Normalized(m);
      if path.None? {
        NotClean(members, i);
        issues := issues + [UnsafePath];
        continue;
      }
      if m.kind == Other {
        NotClean(members, i);
        issues := issues + [UnsupportedEntry];
        continue;
      }
      if path.value == [] {
        if issues == [] {
          RootFits(before, m);
          RecordsRoot(seen, before, m);
        }
        continue;
      }
      if issues == [] {
        TestsMeanFit(seen, before, m);
      }
      var normalized := Posix(path.value);
      if normalized in seen {
        if issues == [] {
          NotClean(members, i);
        }
        DuplicateIsTrue(seen, members, i);
        issues := issues + [DuplicateEntry];
        continue;
      }
      var crossesFile := FindFileAbove(seen, path.value);
      if crossesFile {
        if issues == [] {
          NotClean(members, i);
        }
        ghost var n :| 0 < n < |path.value| && Posix(path.value[..n]) in seen && seen[Posix(path.value[..n])] == File;
        CrossingIsTrue(seen, members, i, n);
        issues := issues + [CrossesFile];
        continue;
      }
      if m.kind == File && exists s :: s in seen && normalized + "/" <= s {
        if issues == [] {
          NotClean(members, i);
        }
        ghost var s :| s in seen && normalized + "/" <= s;
        ShadowIsTrue(seen, members, i, s);
        issues := issues + [ShadowsDirectory];
        continue;
      }
      if issues == [] {
        RecordsSnoc(seen, before, m);
      }
      seen := seen[normalized := m.kind];
      if m.kind == File && m.size > MAX_REPORT_FILE_BYTES {
        NotClean(members, i);
        issues := issues + [FileTooLarge];
      }
      if m.kind == File {
        total := total + m.size;
        if total > MAX_REPORT_TOTAL_BYTES {
          if issues == [] {
            NotClean(members, i);
          }
          TotalIsTrue(members, i, total);
          issues := issues + [TotalTooLarge];
          break;
        }
      }
    }
    assert issues == [] ==> members[..|members|] == members;
  }

  lemma Nothing()
    ensures Sound([]) && Records(map[], []) && SeenFrom(map[], []) && TotalBytes([]) == 0
  {
  }

  lemma CountIsTrue(members: seq<Member>)
    ensures |members| > 200 ==> Justified(members, TooManyFiles)
  {
  }

  /** The archive root conflicts with nothing. */
  lemma RootFits(members: seq<Member>, m: Member)
    requires Sound(members) && Extractable(m) && PathOf(m) == []
    ensures Fits(members, m) && m.kind == Directory
  {
  }

  // ---------------------------------------------------------------- extraction

  datatype Node = Folder | Document(size: nat)

  type FileSystem = map<Path, Node>

  datatype ExtractError = UnsafeMember | NotADirectory | UnreadableMember | TargetExists

  /** `mkdir(parents=True, exist_ok=True)`, for the first `k` components of a path. */
  function MakeFolders(fs: FileSystem, path: Path, k: nat): Result<FileSystem, ExtractError>
    requires k <= |path|
  {
    if k == 0 then Ok(fs)
    else
      var above :- MakeFolders(fs, path, k - 1);
      if path[..k] !in above then Ok(above[path[..k] := Folder])
      else if above[path[..k]].Folder? then Ok(above)
      else Err(NotADirectory)
  }

  /** One member: its folders, and for a file contents that can be read and a target that must not exist yet. */
  function ExtractMember(fs: FileSystem, m: Member): Result<FileSystem, ExtractError> {
    if Normalized(m).None? then Err(UnsafeMember)
    else
      var path := PathOf(m);
      if path == [] then Ok(fs)
      else if m.kind == Directory then MakeFolders(fs, path, |path|)
      else
        var above :- MakeFolders(fs, path, |path| - 1);
        if m.kind == Other then Err(UnreadableMember)
        else if path in above then Err(TargetExists)
        else Ok(above[path := Document(m.size)])
  }

  function ExtractAll(fs: FileSystem, members: seq<Member>): Result<FileSystem, ExtractError> {
    if members == [] then Ok(fs)
    else
      var before :- ExtractAll(fs, members[..|members| - 1]);
      ExtractMember(before, members[|members| - 1])
  }

  /** `extract_validated_archive`: the loop over the members. */
  method Extract(destination: FileSystem, members: seq<Member>) returns (r: Result<FileSystem, ExtractError>)
    ensures r == ExtractAll(destination, members)
  {
    hide ExtractMember, Normalized;
    var fs := destination;
    for i := 0 to |members|
      invariant ExtractAll(destination, members[..i]) == Ok(fs)
    {
      assert members[..i + 1][..i] == members[..i];
      var next := ExtractMember(fs, members[i]);
      if next.Err? {
        ExtractStops(destination, members, i + 1);
        return next;
      }
      fs := next.value;
    }
    assert members[..|members|] == members;
    r := Ok(fs);
  }

  lemma {:induction false} ExtractStops(fs: FileSystem, members: seq<Member>, k: nat)
    requires k <= |members| && ExtractAll(fs, members[..k]).Err?
    ensures ExtractAll(fs, members) == ExtractAll(fs, members[..k])
    decreases |members|
  {
    hide ExtractMember, Normalized;
    if k < |members| {
      assert members[..|members| - 1][..k] == members[..k];
      ExtractStops(fs, members[..|members| - 1], k);
    } else {
      assert members[..k] == members;
    }
  }

  ghost predicate AllExtractable(members: seq<Member>) {
    forall i | 0 <= i < |members| :: Extractable(members[i])
  }

  /** The destination itself, a member, or something above a member. */
  ghost predicate Covered(members: seq<Member>, p: Path)
    requires AllExtractable(members)
  {
    p == [] || exists i :: 0 <= i < |members| && p <= PathOf(members[i])
  }

  /** Some member is a file at this path with this size. */
  ghost predicate FileHere(members: seq<Member>, p: Path, size: nat)
    requires AllExtractable(members)
  {
    exists i :: 0 <= i < |members| && members[i].kind == File && PathOf(members[i]) == p && members[i].size == size
  }

  /** The tree the members describe: the covered paths, with documents exactly at the files. */
  ghost predicate TreeOf(fs: FileSystem, members: seq<Member>)
    requires AllExtractable(members)
  {
    && (forall p :: p in fs <==> Covered(members, p))
    && (forall p, size | p in fs :: fs[p] == Document(size) <==> FileHere(members, p, size))
  }

  /** Folders can be made along a path that meets no document. */
  lemma {:induction false} FoldersAreMade(fs: FileSystem, path: Path, k: nat)
    requires k <= |path|
    requires forall j | 0 < j <= k :: path[..j] in fs ==> fs[path[..j]].Folder?
    ensures MakeFolders(fs, path, k).Ok?
    ensures var made := MakeFolders(fs, path, k).value;
            && (forall p :: p in made <==> p in fs || (p <= path && 0 < |p| <= k))
            && (forall p | p in made :: made[p] == if p in fs then fs[p] else Folder)
    decreases k
  {
    if k > 0 {
      FoldersAreMade(fs, path, k - 1);
      var above := MakeFolders(fs, path, k - 1).value;
      assert path[..k] in above ==> above[path[..k]].Folder?;
      forall p ensures (p <= path && 0 < |p| <= k) <==> (p <= path && 0 < |p| <= k - 1) || p == path[..k] {
        if p <= path && |p| == k {
          assert p == path[..k];
        }
      }
    }
  }

  /** A document at or above a member's path is a file member it conflicts with. */
  lemma DocumentConflicts(fs: FileSystem, members: seq<Member>, m: Member, j: nat)
    requires AllExtractable(members) && TreeOf(fs, members) && Extractable(m)
    requires 0 < j <= |PathOf(m)| && PathOf(m)[..j] in fs && fs[PathOf(m)[..j]].Document?
    ensures !Fits(members, m)
  {
    hide Normalized;
    var path := PathOf(m);
    assert FileHere(members, path[..j], fs[path[..j]].size);
    var i :| 0 <= i < |members| && members[i].kind == File && PathOf(members[i]) == path[..j];
    assert j < |path| ==> path[..j] < path;
    assert path[..|path|] == path;
    assert Conflict(members[i], m);
  }

  /** Anything at a file's own path belongs to a member it conflicts with. */
  lemma TargetConflicts(fs: FileSystem, members: seq<Member>, m: Member)
    requires AllExtractable(members) && TreeOf(fs, members) && Extractable(m)
    requires m.kind == File && PathOf(m) != [] && PathOf(m) in fs
    ensures !Fits(members, m)
  {
    hide Normalized;
    var i :| 0 <= i < |members| && PathOf(m) <= PathOf(members[i]);
    assert Conflict(members[i], m);
  }

  /** A member that fits meets only folders above it; a file's own path is free. */
  lemma FitMeansFree(fs: FileSystem, members: seq<Member>, m: Member)
    requires AllExtractable(members) && TreeOf(fs, members) && Extractable(m) && PathOf(m) != [] && Fits(members, m)
    ensures forall j | 0 < j < |PathOf(m)| :: PathOf(m)[..j] in fs ==> fs[PathOf(m)[..j]].Folder?
    ensures m.kind == Directory ==> PathOf(m) in fs ==> fs[PathOf(m)].Folder?
    ensures m.kind == File ==> PathOf(m) !in fs
  {
    hide Normalized, TreeOf, Fits;
    var path := PathOf(m);
    forall j | 0 < j <= |path| ensures path[..j] in fs ==> fs[path[..j]].Folder? {
      if path[..j] in fs && fs[path[..j]].Document? {
        DocumentConflicts(fs, members, m, j);
      }
    }
    assert path[..|path|] == path;
    if m.kind == File && path in fs {
      TargetConflicts(fs, members, m);
    }
  }

  lemma CoveredSnoc(members: seq<Member>, m: Member, p: Path)
    requires AllExtractable(members) && Extractable(m)
    ensures AllExtractable(members + [m])
    ensures Covered(members + [m], p) <==> Covered(members, p) || p <= PathOf(m)
  {
    hide Normalized;
    var all := members + [m];
    assert forall i | 0 <= i < |members| :: all[i] == members[i];
    assert all[|members|] == m;
    if Covered(members, p) && p != [] {
      var i :| 0 <= i < |members| && p <= PathOf(members[i]);
      assert p <= PathOf(all[i]);
    }
  }

  lemma FileHereSnoc(members: seq<Member>, m: Member, p: Path, size: nat)
    requires AllExtractable(members) && Extractable(m)
    ensures AllExtractable(members + [m])
    ensures FileHere(members + [m], p, size)
       <==> FileHere(members, p, size) || (m.kind == File && PathOf(m) == p && m.size == size)
  {
    hide Normalized;
    var all := members + [m];
    assert forall i | 0 <= i < |members| :: all[i] == members[i];
    assert all[|members|] == m;
    if FileHere(members, p, size) {
      var i :| 0 <= i < |members| && members[i].kind == File && PathOf(members[i]) == p && members[i].size == size;
      assert all[i] == members[i];
    }
  }

  /** Extracting a member that fits succeeds and yields the tree of one member more. */
  lemma MemberIsExtracted(fs: FileSystem, members: seq<Member>, m: Member)
    requires AllExtractable(members) && TreeOf(fs, members) && Extractable(m) && Fits(members, m)
    ensures AllExtractable(members + [m])
    ensures ExtractMember(fs, m).Ok? && TreeOf(ExtractMember(fs, m).value, members + [m])
  {
    hide Normalized, Covered, FileHere, MakeFolders, Fits;
    var path := PathOf(m);
    forall p ensures AllExtractable(members + [m]) && (Covered(members + [m], p) <==> Covered(members, p) || p <= path) {
      CoveredSnoc(members, m, p);
    }
    assert Covered(members, []) by { RootCovered(members); }
    forall p, size
      ensures FileHere(members + [m], p, size)
         <==> FileHere(members, p, size) || (m.kind == File && path == p && m.size == size)
    {
      FileHereSnoc(members, m, p, size);
    }
    if path == [] {
      RootIsDirectory(m);
    } else {
      FitMeansFree(fs, members, m);
      assert path[..|path|] == path;
      forall p | p <= path && |p| == |path| ensures p == path {
      }
      var k := if m.kind == Directory then |path| else |path| - 1;
      FoldersAreMade(fs, path, k);
      var made := MakeFolders(fs, path, k).value;
      assert m.kind == File ==> path !in made;
      forall p, size | FileHere(members, p, size) ensures Covered(members, p) {
        FileIsCovered(members, p, size);
      }
    }
  }

  lemma RootCovered(members: seq<Member>)
    requires AllExtractable(members)
    ensures Covered(members, [])
  {
  }

  lemma RootIsDirectory(m: Member)
    requires Extractable(m) && PathOf(m) == []
    ensures m.kind == Directory
  {
  }

  lemma FileIsCovered(members: seq<Member>, p: Path, size: nat)
    requires AllExtractable(members) && FileHere(members, p, size)
    ensures Covered(members, p)
  {
    hide Normalized;
    var i :| 0 <= i < |members| && members[i].kind == File && PathOf(members[i]) == p && members[i].size == size;
    assert p <= PathOf(members[i]);
  }

  lemma {:induction false} SoundArchivesExtract(members: seq<Member>)
    requires Sound(members)
    ensures AllExtractable(members)
    ensures ExtractAll(map[[] := Folder], members).Ok?
    ensures TreeOf(ExtractAll(map[[] := Folder], members).value, members)
    decreases |members|
  {
    hide Normalized, TreeOf, ExtractMember, Sound, Fits;
    if members == [] {
      EmptyTree();
    } else {
      var before, m := members[..|members| - 1], members[|members| - 1];
      assert members == before + [m];
      SoundSnoc(before, m);
      SoundArchivesExtract(before);
      MemberIsExtracted(ExtractAll(map[[] := Folder], before).value, before, m);
    }
  }

  lemma EmptyTree()
    ensures TreeOf(map[[] := Folder], [])
  {
  }

  // ----------------------------------------------------------------- bytes written

  function SizeOf(node: Node): nat {
    if node.Document? then node.size else 0
  }

  /** The sizes of all documents of a tree together. */
  ghost function StoredBytes(fs: FileSystem): nat
    decreases |fs.Keys|
  {
    if fs == map[] then 0
    else
      var p :| p in fs;
      assert (fs - {p}).Keys == fs.Keys - {p};
      SizeOf(fs[p]) + StoredBytes(fs - {p})
  }

  lemma Smaller(fs: FileSystem, p: Path)
    requires p in fs
    ensures |(fs - {p}).Keys| < |fs.Keys|
  {
    assert (fs - {p}).Keys == fs.Keys - {p};
  }

  lemma StoredUnfolds(fs: FileSystem)
    requires fs != map[]
    ensures exists p :: p in fs && StoredBytes(fs) == SizeOf(fs[p]) + StoredBytes(fs - {p})
  {
  }

  /** The sum does not depend on the order: any entry can be taken out first. */
  lemma {:induction false} StoredWithout(fs: FileSystem, p: Path)
    requires p in fs
    ensures StoredBytes(fs) == SizeOf(fs[p]) + StoredBytes(fs - {p})
    decreases |fs.Keys|
  {
    hide StoredBytes, SizeOf;
    StoredUnfolds(fs);
    var q :| q in fs && StoredBytes(fs) == SizeOf(fs[q]) + StoredBytes(fs - {q});
    if q != p {
      Smaller(fs, p);
      Smaller(fs, q);
      StoredWithout(fs - {q}, p);
      StoredWithout(fs - {p}, q);
      assert fs - {p} - {q} == fs - {q} - {p};
    }
  }

  lemma StoredInsert(fs: FileSystem, p: Path, node: Node)
    requires p !in fs
    ensures StoredBytes(fs[p := node]) == StoredBytes(fs) + SizeOf(node)
  {
    hide StoredBytes, SizeOf;
    StoredWithout(fs[p := node], p);
    assert fs[p := node] - {p} == fs;
  }

  lemma {:induction false} FoldersStoreNothing(fs: FileSystem, path: Path, k: nat)
    requires k <= |path| && MakeFolders(fs, path, k).Ok?
    ensures StoredBytes(MakeFolders(fs, path, k).value) == StoredBytes(fs)
    decreases k
  {
    hide StoredBytes;
    if k > 0 {
      FoldersStoreNothing(fs, path, k - 1);
      var above := MakeFolders(fs, path, k - 1).value;
      if path[..k] !in above {
        StoredInsert(above, path[..k], Folder);
      }
    }
  }

  lemma MemberBytes(fs: FileSystem, m: Member)
    requires ExtractMember(fs, m).Ok?
    ensures StoredBytes(ExtractMember(fs, m).value) == StoredBytes(fs) + FileBytes(m)
  {
    hide StoredBytes, MakeFolders, Normalized;
    var path := PathOf(m);
    if path == [] {
      RootIsNoFile(m);
    } else {
      var k := if m.kind == Directory then |path| else |path| - 1;
      FoldersStoreNothing(fs, path, k);
      if m.kind == File {
        StoredInsert(MakeFolders(fs, path, k).value, path, Document(m.size));
      }
    }
  }

  lemma RootIsNoFile(m: Member)
    requires Normalized(m).Some? && PathOf(m) == []
    ensures FileBytes(m) == 0
  {
  }

  /** Whatever the archive and the destination: an extraction that succeeds adds exactly the bytes of its files. */
  lemma {:induction false} ExtractedBytes(fs: FileSystem, members: seq<Member>)
    requires ExtractAll(fs, members).Ok?
    ensures StoredBytes(ExtractAll(fs, members).value) == StoredBytes(fs) + TotalBytes(members)
    decreases |members|
  {
    hide StoredBytes, ExtractMember;
    if members != [] {
      var front := members[..|members| - 1];
      ExtractedBytes(fs, front);
      MemberBytes(ExtractAll(fs, front).value, members[|members| - 1]);
    }
  }

  lemma NothingStored()
    ensures StoredBytes(map[[] := Folder]) == 0
  {
    StoredInsert(map[], [], Folder);
  }

  /** What the validator lets through extracts into an empty destination without any error, to exactly the
      tree its members describe, and the documents of that tree together have no more bytes than the limit. */
  lemma CleanArchivesExtract(members: seq<Member>)
    requires Clean(members)
    ensures AllExtractable(members)
    ensures ExtractAll(map[[] := Folder], members).Ok?
    ensures TreeOf(ExtractAll(map[[] := Folder], members).value, members)
    ensures StoredBytes(ExtractAll(map[[] := Folder], members).value) == TotalBytes(members)
    ensures StoredBytes(ExtractAll(map[[] := Folder], members).value) <= 64 * 1024 * 1024
  {
    hide StoredBytes, TreeOf;
    SoundArchivesExtract(members);
    ExtractedBytes(map[[] := Folder], members);
    NothingStored();
  }
}
