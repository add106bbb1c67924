/** Files stored as name.version, and how they are put together again when a folder is loaded.
    Models groupVersionedFiles and parseValidGroups of internal/voraciouscodestorage/filemanager.go,
    and the names that internal/voraciouscodestorage/versionedFile.go writes. */
module VersionGroups {
  import opened Ascii
  import opened Wrappers
  import opened Decimal
  import opened Sorting

  type Text = seq<Byte>

  datatype RawFile = RawFile(absolutePath: Text, name: Text, version: int)

  // ---------- Names ----------

  /** strings.LastIndex of one byte: -1 when there is none. */
  function LastIndexOf(s: Text, x: Byte): (i: int)
    ensures -1 <= i < |s|
    ensures i >= 0 ==> s[i] == x
    ensures forall k :: i < k < |s| ==> s[k] != x
  {
    if s == [] then -1
    else if s[|s| - 1] == x then |s| - 1
    else LastIndexOf(s[..|s| - 1], x)
  }

  function TrimSlashes(path: Text): Text {
    if path != [] && path[|path| - 1] == SLASH then TrimSlashes(path[..|path| - 1]) else path
  }

  /** filepath.Base: the last element of a path. */
  function Base(path: Text): Text {
    if path == [] then [DOT]
    else
      var trimmed := TrimSlashes(path);
      if trimmed == [] then [SLASH] else trimmed[LastIndexOf(trimmed, SLASH) + 1..]
  }

  /** The file that a path names; None when it has no version. */
  function Parse(path: Text): Option<RawFile> {
    var filename := Base(path);
    var lastDot := LastIndexOf(filename, DOT);
    if lastDot == -1 then None
    else
      match Atoi(filename[lastDot + 1..])
      case None => None
      case Some(version) => Some(RawFile(path, filename[..lastDot], version))
  }

  /** The path a version of a file is written to. */
  function PathOf(folder: Text, name: Text, version: nat): Text {
    folder + [SLASH] + (name + [DOT] + Digits(version))
  }

  /** Reading a written path gives back name and version, whatever dots and digits the name has. */
  lemma ParseWritten(folder: Text, name: Text, version: nat)
    requires SLASH !in name && version <= MAX_INT
    ensures Parse(PathOf(folder, name, version)) == Some(RawFile(PathOf(folder, name, version), name, version))
  {
    var digits := Digits(version);
    var filename := name + [DOT] + digits;
    var path := folder + [SLASH] + filename;
    assert path[|path| - 1] == digits[|digits| - 1];
    LastIndexIs(folder, SLASH, filename);
    assert path[|folder| + 1..] == filename;
    LastIndexIs(name, DOT, digits);
    assert filename[|name| + 1..] == digits && filename[..|name|] == name;
    AtoiItoa(version);
  }

  lemma {:induction false} LastIndexIs(before: Text, x: Byte, after: Text)
    requires x !in after
    ensures LastIndexOf(before + [x] + after, x) == |before|
    decreases |after|
  {
    var s := before + [x] + after;
    if after == [] {
      assert s == before + [x];
    } else {
      var n := |after| - 1;
      assert s[..|s| - 1] == before + [x] + after[..n];
      assert s[|s| - 1] == after[n];
      LastIndexIs(before, x, after[..n]);
    }
  }

  // ---------- Groups ----------

  /** What a path adds to the files found. */
  function Extra(path: Text): seq<RawFile> {
    match Parse(path)
    case None => []
    case Some(file) => [file]
  }

  /** The files that the entries name, in their order; the other entries are skipped. */
  function Found(entries: seq<Text>): seq<RawFile> {
    FlatMap(entries, Extra)
  }

  /** The files of one name, in the order they were found. */
  function GroupOf(files: seq<RawFile>, name: Text): seq<RawFile> {
    if files == [] then []
    else
      var last := files[|files| - 1];
      GroupOf(files[..|files| - 1], name) + if last.name == name then [last] else []
  }

  lemma GroupPush(files: seq<RawFile>, file: RawFile, name: Text)
    ensures GroupOf(files + [file], name) == GroupOf(files, name) + if file.name == name then [file] else []
  {
    assert (files + [file])[..|files|] == files;
  }

  function VersionOf(file: RawFile): int {
    file.version
  }

  function Versions(files: seq<RawFile>): seq<int> {
    Keys(files, VersionOf)
  }

  /** 1, 2, ..., n */
  function UpTo(n: nat): seq<int> {
    seq(n, i => i + 1)
  }

  /** The versions are 1 to n, each once, in some order. */
  ghost predicate Gapless(files: seq<RawFile>) {
    multiset(Versions(files)) == multiset(UpTo(|files|))
  }

  /** The map holds this group for the name; it holds no empty group. */
  ghost predicate Holds(grouped: map<Text, seq<RawFile>>, name: Text, group: seq<RawFile>) {
    && (name in grouped <==> group != [])
    && (name in grouped ==> grouped[name] == group)
  }

  /** The group of every name in the map is the one among the files. */
  ghost predicate Grouped(grouped: map<Text, seq<RawFile>>, files: seq<RawFile>) {
    forall name :: Holds(grouped, name, GroupOf(files, name))
  }

  function AddTo(grouped: map<Text, seq<RawFile>>, file: RawFile): map<Text, seq<RawFile>> {
    grouped[file.name := (if file.name in grouped then grouped[file.name] else []) + [file]]
  }

  lemma AddedTo(grouped: map<Text, seq<RawFile>>, file: RawFile, name: Text, group: seq<RawFile>)
    requires Holds(grouped, name, group)
    ensures Holds(AddTo(grouped, file), name, group + if file.name == name then [file] else [])
  {
    if file.name != name {
      assert group + [] == group;
    }
  }

  lemma GroupedPush(grouped: map<Text, seq<RawFile>>, files: seq<RawFile>, file: RawFile)
    requires Grouped(grouped, files)
    ensures Grouped(AddTo(grouped, file), files + [file])
  {
    forall name
      ensures Holds(AddTo(grouped, file), name, GroupOf(files + [file], name))
    {
      GroupPush(files, file, name);
      AddedTo(grouped, file, name, GroupOf(files, name));
    }
  }

  /** One turn of the loop: a path with a version joins the group of its name, another is skipped. */
  function WithPath(grouped: map<Text, seq<RawFile>>, path: Text): map<Text, seq<RawFile>> {
    match Parse(path)
    case None => grouped
    case Some(rawFile) => AddTo(grouped, rawFile)
  }

  lemma GroupedStep(grouped: map<Text, seq<RawFile>>, found: seq<RawFile>, path: Text)
    requires Grouped(grouped, found)
    ensures Grouped(WithPath(grouped, path), found + Extra(path))
  {
    match Parse(path)
    case None => assert found + [] == found;
    case Some(rawFile) => GroupedPush(grouped, found, rawFile);
  }

  lemma FoundStep(entries: seq<Text>, n: nat)
    requires n < |entries|
    ensures Found(entries[..n + 1]) == Found(entries[..n]) + Extra(entries[n])
  {
    hide FlatMap, Extra;
    FlatMapPush(entries[..n], Extra, entries[n]);
    assert entries[..n + 1] == entries[..n] + [entries[n]];
  }

  method GroupVersionedFiles(entries: seq<Text>) returns (grouped: map<Text, seq<RawFile>>)
    ensures Grouped(grouped, Found(entries))
  {
    grouped := map[];
    ghost var found: seq<RawFile> := [];
    for n := 0 to |entries|
      invariant found == Found(entries[..n])
      invariant Grouped(grouped, found)
    {
      FoundStep(entries, n);
      GroupedStep(grouped, found, entries[n]);
      grouped := WithPath(grouped, entries[n]);
      found := found + Extra(entries[n]);
    }
    assert entries[..|entries|] == entries;
  }

  lemma VersionsAre(files: seq<RawFile>)
    ensures |Versions(files)| == |files|
    ensures forall i :: 0 <= i < |files| ==> Versions(files)[i] == files[i].version
    ensures SortedBy(files, VersionOf) ==> Ascending(Versions(files))
  {
    assert forall i :: 0 <= i < |files| ==> VersionOf(files[i]) == files[i].version;
  }

  /** The loop that looks for a gap in the sorted versions. */
  method HasGap(files: seq<RawFile>) returns (hasGap: bool)
    requires SortedBy(files, VersionOf)
    ensures hasGap <==> !Gapless(files)
    ensures !hasGap ==> Versions(files) == UpTo(|files|)
  {
    VersionsAre(files);
    for i := 0 to |files|
      invariant forall k :: 0 <= k < i ==> files[k].version == k + 1
    {
      if files[i].version != i + 1 {
        assert Versions(files)[i] != UpTo(|files|)[i];
        if Gapless(files) {
          SortedOneWay(Versions(files), UpTo(|files|));
          assert false;
        }
        return true;
      }
    }
    assert Versions(files) == UpTo(|files|);
    return false;
  }

  /** The groups that are kept: those whose versions are 1 to n in some order, each sorted. */
  ghost predicate KeptFrom(valid: map<Text, seq<RawFile>>, grouped: map<Text, seq<RawFile>>, name: Text) {
    && (name in valid <==> name in grouped && Gapless(grouped[name]))
    && (name in valid ==>
          multiset(valid[name]) == multiset(grouped[name]) && Versions(valid[name]) == UpTo(|valid[name]|))
  }

  /** parseValidGroups; a map is visited in any order. */
  method ParseValidGroups(grouped: map<Text, seq<RawFile>>) returns (valid: map<Text, seq<RawFile>>)
    ensures forall name :: KeptFrom(valid, grouped, name)
  {
    valid := map[];
    var todo := grouped.Keys;
    while todo != {}
      invariant todo <= grouped.Keys
      invariant forall name :: name in todo ==> name !in valid
      invariant forall name :: name !in todo ==> KeptFrom(valid, grouped, name)
    {
      var name :| name in todo;
      todo := todo - {name};
      var entries := SortBy(grouped[name], VersionOf);
      SameSize(entries, grouped[name]);
      var hasGap := HasGap(entries);
      if !hasGap {
        valid := valid[name := entries];
      }
    }
  }

  lemma SameSize(a: seq<RawFile>, b: seq<RawFile>)
    requires multiset(a) == multiset(b)
    ensures |a| == |b|
  {
    assert |multiset(a)| == |a| && |multiset(b)| == |b|;
  }

  /** The files of a folder as they are when it has been loaded. */
  ghost predicate LoadedFrom(valid: map<Text, seq<RawFile>>, files: seq<RawFile>, name: Text) {
    var group := GroupOf(files, name);
    && (name in valid <==> group != [] && Gapless(group))
    && (name in valid ==>
          multiset(valid[name]) == multiset(group) && Versions(valid[name]) == UpTo(|valid[name]|))
  }

  /** The two steps of populateFolder: a name is kept exactly when the versions found for it are 1 to
      n in some order, and then its files come in the order of their versions. */
  method Load(entries: seq<Text>) returns (valid: map<Text, seq<RawFile>>)
    ensures forall name :: LoadedFrom(valid, Found(entries), name)
  {
    var grouped := GroupVersionedFiles(entries);
    valid := ParseValidGroups(grouped);
    ghost var found := Found(entries);
    forall name
      ensures LoadedFrom(valid, found, name)
    {
      assert Holds(grouped, name, GroupOf(found, name)) && KeptFrom(valid, grouped, name);
    }
  }

  // ---------- Grouping inverts naming ----------

  function PathsOf(files: seq<RawFile>): seq<Text> {
    seq(|files|, i requires 0 <= i < |files| => files[i].absolutePath)
  }

  ghost predicate Distinct<T(!new)>(s: seq<T>) {
    forall i, j :: 0 <= i < j < |s| ==> s[i] != s[j]
  }

  /** The file that a version of a name is written to. */
  function FileOf(folder: Text, name: Text, version: nat): RawFile {
    RawFile(PathOf(folder, name, version), name, version)
  }

  /** A folder holds, for each name, the versions from 1 to the latest, each in one file. */
  ghost predicate Stored(folder: Text, files: seq<RawFile>, latest: map<Text, nat>) {
    && Distinct(files)
    && (forall name :: name in latest ==> SLASH !in name && 1 <= latest[name] <= MAX_INT)
    && (forall f :: f in files ==> f.name in latest && 1 <= f.version <= latest[f.name]
                                   && f == FileOf(folder, f.name, f.version))
    && (forall name, v: nat :: name in latest && 1 <= v <= latest[name] ==> FileOf(folder, name, v) in files)
  }

  predicate Readable(folder: Text, f: RawFile) {
    SLASH !in f.name && 0 <= f.version <= MAX_INT && f == FileOf(folder, f.name, f.version)
  }

  lemma ReadBack(folder: Text, f: RawFile)
    requires Readable(folder, f)
    ensures Extra(f.absolutePath) == [f]
  {
    ParseWritten(folder, f.name, f.version);
  }

  /** Every stored file is found again. */
  lemma FoundIsStored(folder: Text, files: seq<RawFile>, latest: map<Text, nat>)
    requires Stored(folder, files, latest)
    ensures Found(PathsOf(files)) == files
  {
    forall i | 0 <= i < |files|
      ensures Extra(files[i].absolutePath) == [files[i]]
    {
      assert files[i] in files;
      ReadBack(folder, files[i]);
    }
    FlatMapSingles(PathsOf(files), Extra, files);
  }

  lemma {:induction false} GroupMembers(files: seq<RawFile>, name: Text)
    ensures forall f :: f in GroupOf(files, name) <==> f in files && f.name == name
    ensures Distinct(files) ==> Distinct(GroupOf(files, name))
  {
    if files != [] {
      var last, others := files[|files| - 1], files[..|files| - 1];
      assert files == others + [last];
      GroupMembers(others, name);
      GroupPush(others, last, name);
    }
  }

  lemma {:induction false} CountedOnce(s: seq<int>, v: int)
    requires Distinct(s)
    ensures multiset(s)[v] == if v in s then 1 else 0
  {
    if s != [] {
      var last, others := s[|s| - 1], s[..|s| - 1];
      CountedOnce(others, v);
      assert s == others + [last];
    }
  }

  /** Distinct numbers that are those from 1 to n are n, and gapless. */
  lemma OneToN(s: seq<int>, n: nat)
    requires Distinct(s) && forall v: int :: v in s <==> 1 <= v <= n
    ensures multiset(s) == multiset(UpTo(n)) && |s| == n
  {
    forall v: int
      ensures multiset(s)[v] == multiset(UpTo(n))[v]
    {
      CountedOnce(s, v);
      CountedOnce(UpTo(n), v);
      assert v in UpTo(n) <==> 1 <= v <= n by {
        if 1 <= v <= n { assert UpTo(n)[v - 1] == v; }
      }
    }
    assert |multiset(s)| == |s| && |multiset(UpTo(n))| == n;
  }

  lemma {:induction false} NoGroup(files: seq<RawFile>, name: Text)
    requires forall i :: 0 <= i < |files| ==> files[i].name != name
    ensures GroupOf(files, name) == []
  {
    if files != [] {
      NoGroup(files[..|files| - 1], name);
    }
  }

  /** The versions found for a stored name are those from 1 to its latest, each once. */
  lemma StoredVersions(folder: Text, files: seq<RawFile>, latest: map<Text, nat>, name: Text)
    requires Stored(folder, files, latest) && name in latest
    ensures var versions := Versions(GroupOf(files, name));
            Distinct(versions) && forall v: int :: v in versions <==> 1 <= v <= latest[name]
  {
    var group := GroupOf(files, name);
    var versions := Versions(group);
    GroupMembers(files, name);
    VersionsAre(group);
    forall i, j | 0 <= i < j < |versions|
      ensures versions[i] != versions[j]
    {
      assert group[i] in group && group[j] in group;
    }
    forall v: int
      ensures v in versions <==> 1 <= v <= latest[name]
    {
      if v in versions {
        var i :| 0 <= i < |versions| && versions[i] == v;
        assert group[i] in group;
      }
      if 1 <= v <= latest[name] {
        var f := FileOf(folder, name, v);
        assert f in group;
        var i :| 0 <= i < |group| && group[i] == f;
        assert versions[i] == v;
      }
    }
  }

  lemma InOrder(folder: Text, name: Text, group: seq<RawFile>, sorted: seq<RawFile>)
    requires multiset(sorted) == multiset(group) && Versions(sorted) == UpTo(|sorted|)
    requires forall f :: f in group ==> f.version >= 0 && f == FileOf(folder, name, f.version)
    ensures |sorted| == |group|
    ensures forall i :: 0 <= i < |sorted| ==> sorted[i] == FileOf(folder, name, i + 1)
  {
    SameSize(sorted, group);
    VersionsAre(sorted);
    forall i | 0 <= i < |sorted|
      ensures sorted[i] == FileOf(folder, name, i + 1)
    {
      assert sorted[i].version == UpTo(|sorted|)[i];
      assert sorted[i] in multiset(sorted);
      assert sorted[i] in group;
    }
  }

  /** Loading a folder gives back exactly the names that were stored there, each with its versions in
      order, in whatever order the folder lists them. */
  lemma GroupingInvertsNaming(folder: Text, files: seq<RawFile>, latest: map<Text, nat>, valid: map<Text, seq<RawFile>>)
    requires Stored(folder, files, latest)
    requires forall name :: LoadedFrom(valid, Found(PathsOf(files)), name)
    ensures valid.Keys == latest.Keys
    ensures forall name :: name in latest ==>
              && |valid[name]| == latest[name]
              && forall i :: 0 <= i < latest[name] ==> valid[name][i] == FileOf(folder, name, i + 1)
  {
    FoundIsStored(folder, files, latest);
    forall name
      ensures name in valid <==> name in latest
      ensures name in latest ==>
                && |valid[name]| == latest[name]
                && forall i :: 0 <= i < latest[name] ==> valid[name][i] == FileOf(folder, name, i + 1)
    {
      assert LoadedFrom(valid, files, name);
      OneNameBack(folder, files, latest, valid, name);
    }
  }

  lemma OneNameBack(folder: Text, files: seq<RawFile>, latest: map<Text, nat>,
                    valid: map<Text, seq<RawFile>>, name: Text)
    requires Stored(folder, files, latest) && LoadedFrom(valid, files, name)
    ensures name in valid <==> name in latest
    ensures name in latest ==>
              && |valid[name]| == latest[name]
              && forall i :: 0 <= i < latest[name] ==> valid[name][i] == FileOf(folder, name, i + 1)
  {
    var group := GroupOf(files, name);
    GroupMembers(files, name);
    if name in latest {
      StoredVersions(folder, files, latest, name);
      OneToN(Versions(group), latest[name]);
      InOrder(folder, name, group, valid[name]);
    } else {
      forall i | 0 <= i < |files|
        ensures files[i].name != name
      {
        assert files[i] in files;
      }
      NoGroup(files, name);
    }
  }
}
