/** Which entries of a folder are read as a version of a file, and which are skipped.
    Models the names that groupVersionedFiles of internal/voraciouscodestorage/filemanager.go takes apart. */
module VersionNames {
  import opened Ascii
  import opened Wrappers
  import opened Decimal
  import opened VersionGroups

  function Slashes(k: nat): Text {
    if k == 0 then [] else Slashes(k - 1) + [47]
  }

  lemma {:induction false} TrimTrailing(path: Text, k: nat)
    ensures TrimSlashes(path + Slashes(k)) == TrimSlashes(path)
  {
    if k == 0 {
      assert path + Slashes(0) == path;
    } else {
      assert (path + Slashes(k))[..|path + Slashes(k)| - 1] == path + Slashes(k - 1);
      TrimTrailing(path, k - 1);
    }
  }

  lemma {:induction false} LastIndexNone(s: Text, x: Byte)
    requires x !in s
    ensures LastIndexOf(s, x) == -1
  {
  }

  /** The base of a path is its last element, whatever slashes follow it; the path of slashes alone has the
      base slash, and the empty path the base dot. */
  lemma BaseLaws(folder: Text, last: Text, k: nat)
    requires last != [] && 47 !in last
    ensures Base(folder + [47] + last + Slashes(k)) == last
    ensures Base(last + Slashes(k)) == last
    ensures k > 0 ==> Base(Slashes(k)) == [47]
    ensures Base([]) == [46]
  {
    TrimTrailing(folder + [47] + last, k);
    TrimTrailing(last, k);
    TrimTrailing([], k);
    assert [] + Slashes(k) == Slashes(k);
    var path := folder + [47] + last;
    assert path[|path| - 1] == last[|last| - 1];
    LastIndexIs(folder, 47, last);
    LastIndexNone(last, 47);
    assert path[|folder| + 1..] == last && last[0..] == last;
  }

  /** The name splits at its last dot into a name and the text of a number. */
  ghost predicate SplitsInto(filename: Text, name: Text, version: int) {
    exists number :: 46 !in number && filename == name + [46] + number && Atoi(number) == Some(version)
  }

  /** A path names a version of a file exactly when its base splits so. */
  lemma ParseExactly(path: Text, f: RawFile)
    ensures Parse(path) == Some(f) <==> f.absolutePath == path && SplitsInto(Base(path), f.name, f.version)
  {
    hide Atoi, Base;
    var filename := Base(path);
    var lastDot := LastIndexOf(filename, DOT);
    if Parse(path) == Some(f) {
      assert filename == filename[..lastDot] + [46] + filename[lastDot + 1..];
    }
    if f.absolutePath == path && SplitsInto(filename, f.name, f.version) {
      var number :| 46 !in number && filename == f.name + [46] + number && Atoi(number) == Some(f.version);
      LastIndexIs(f.name, 46, number);
      assert filename[|f.name| + 1..] == number && filename[..|f.name|] == f.name;
    }
  }

  /** An entry adds nothing when its base has no dot, or no number after the last one. */
  lemma Skipped(path: Text, name: Text, number: Text)
    ensures 46 !in Base(path) ==> Extra(path) == []
    ensures Base(path) == name + [46] + number && 46 !in number && Atoi(number) == None ==> Extra(path) == []
  {
    hide Atoi, Base;
    if Base(path) == name + [46] + number && 46 !in number {
      LastIndexIs(name, 46, number);
      assert Base(path)[|name| + 1..] == number;
    }
  }

  /** The text of a version's path. */
  lemma PathText(folder: Text, name: Text, version: nat)
    ensures PathOf(folder, name, version) == folder + [47] + name + [46] + Itoa(version)
  {
  }

  /** The first n versions of a name. */
  function FirstVersions(folder: Text, name: Text, n: nat): seq<RawFile> {
    seq(n, i requires 0 <= i < n => FileOf(folder, name, i + 1))
  }

  /** For every name without a slash and every number of versions there is a folder that stores them. */
  lemma StoredOne(folder: Text, name: Text, n: nat)
    requires 47 !in name && 1 <= n <= 9223372036854775807
    ensures Stored(folder, FirstVersions(folder, name, n), map[name := n])
  {
    hide FileOf;
    var files := FirstVersions(folder, name, n);
    Named(folder, name);
    assert forall v: nat :: 1 <= v <= n ==> files[v - 1] == FileOf(folder, name, v);
  }

  lemma Named(folder: Text, name: Text)
    ensures forall v: nat :: FileOf(folder, name, v).name == name && FileOf(folder, name, v).version == v
  {
  }
}
