/** The directory of a database: which file belongs to which series. */
module Directory {
  import opened Bytes
  import opened DataPoint
  import opened SeriesFile
  import opened FileNames

  type Files = map<string, seq<byte>>

  /** A point size and the points in order of time. */
  datatype SeriesState = SeriesState(pointSize: nat, points: seq<Point>)

  /** The file of a series with this id and point size. */
  ghost predicate Owned(files: Files, id: uint32, name: string)
    requires name in files
  {
    exists size: uint32 :: size >= TIME_SIZE && name == FileName(id, size) && IsSeriesFile(files[name], size)
  }

  ghost predicate IsSeriesFile(file: seq<byte>, size: nat) {
    exists capacity :: Layout(file, size, capacity, ContentsOf(file, size))
  }

  /** Every name the lookup of an id could select is a series file of that id, and there is at most one. */
  ghost predicate Sound(files: Files, max: nat) {
    && (forall id: uint32, name :: id < max && name in files && IsCandidate(id, name) ==> Owned(files, id, name))
    && (forall id: uint32, a, b :: id < max && a in files && b in files && IsCandidate(id, a) && IsCandidate(id, b)
          ==> a == b)
  }

  /** What the directory says about an id. */
  ghost function Lookup(files: Files, id: uint32): Option<SeriesState> {
    if exists size: uint32 :: FileName(id, size) in files then
      var size: uint32 :| FileName(id, size) in files;
      Some(SeriesState(size, ContentsOf(files[FileName(id, size)], size)))
    else None
  }

  lemma LookupFile(files: Files, max: nat, id: uint32, size: uint32)
    requires Sound(files, max) && id < max && FileName(id, size) in files
    ensures size >= TIME_SIZE && IsSeriesFile(files[FileName(id, size)], size)
    ensures Lookup(files, id) == Some(SeriesState(size, ContentsOf(files[FileName(id, size)], size)))
    ensures forall s: uint32 :: FileName(id, s) in files ==> s == size
  {
    hide ContentsOf, IsCandidate, FileName;
    var name := FileName(id, size);
    CandidateIsOwn(id, id, size);
    assert Owned(files, id, name);
    var s: uint32 :| s >= TIME_SIZE && name == FileName(id, s) && IsSeriesFile(files[name], s);
    FileNameInjective(id, size, id, s);
    forall s: uint32 | FileName(id, s) in files ensures s == size {
      CandidateIsOwn(id, id, s);
      assert FileName(id, s) == name;
      FileNameInjective(id, size, id, s);
    }
  }

  lemma SeriesFileOf(file: seq<byte>, size: nat, capacity: nat, contents: seq<Point>)
    requires Layout(file, size, capacity, contents)
    ensures size >= TIME_SIZE && IsSeriesFile(file, size) && ContentsOf(file, size) == contents
  {
    ContentsOfLayout(file, size, capacity, contents);
    hide Flatten, Cells;
  }

  /** Putting a series file under the only name the id has keeps the directory sound, gives the id
      these points, and leaves every other id as it was. */
  lemma PutFile(files: Files, max: nat, id: uint32, size: uint32, file: seq<byte>, capacity: nat,
                contents: seq<Point>)
    requires Sound(files, max) && id < max && Layout(file, size, capacity, contents)
    requires forall s: uint32 :: FileName(id, s) in files ==> s == size
    ensures var after := files[FileName(id, size) := file];
            && Sound(after, max) && Lookup(after, id) == Some(SeriesState(size, contents))
            && forall other: uint32 :: other < max && other != id ==> Lookup(after, other) == Lookup(files, other)
  {
    SeriesFileOf(file, size, capacity, contents);
    hide ContentsOf, IsCandidate, FileName, Layout, IsSeriesFile, Sound, Lookup;
    var name, after := FileName(id, size), files[FileName(id, size) := file];
    PutSound(files, max, id, size, file);
    LookupFile(after, max, id, size);
    forall other: uint32 | other < max && other != id ensures Lookup(after, other) == Lookup(files, other) {
      SameLookup(files, after, max, id, size, other);
    }
  }

  lemma PutSound(files: Files, max: nat, id: uint32, size: uint32, file: seq<byte>)
    requires Sound(files, max) && id < max && size >= TIME_SIZE && IsSeriesFile(file, size)
    requires forall s: uint32 :: FileName(id, s) in files ==> s == size
    ensures Sound(files[FileName(id, size) := file], max)
  {
    hide ContentsOf, IsCandidate, FileName, Layout, IsSeriesFile;
    var name, after := FileName(id, size), files[FileName(id, size) := file];
    forall i: uint32, n | i < max && n in after && IsCandidate(i, n) ensures Owned(after, i, n) {
      CandidateIsOwn(i, id, size);
      if n != name {
        assert Owned(files, i, n);
      }
    }
    forall i: uint32, a, b | i < max && a in after && b in after && IsCandidate(i, a) && IsCandidate(i, b)
      ensures a == b
    {
      CandidateIsOwn(i, id, size);
      OnlyName(files, max, id, size, i, a);
      OnlyName(files, max, id, size, i, b);
    }
  }

  /** A candidate of the written id can only be the written name. */
  lemma OnlyName(files: Files, max: nat, id: uint32, size: uint32, i: uint32, n: string)
    requires Sound(files, max) && i < max && (n in files || n == FileName(id, size)) && IsCandidate(i, n)
    requires forall s: uint32 :: FileName(id, s) in files ==> s == size
    ensures n == FileName(id, size) || (n in files && i != id)
  {
    hide IsCandidate, FileName, IsSeriesFile;
    if n in files {
      assert Owned(files, i, n);
      var s: uint32 :| s >= TIME_SIZE && n == FileName(i, s) && IsSeriesFile(files[n], s);
    }
  }

  lemma SameLookup(files: Files, after: Files, max: nat, id: uint32, size: uint32, other: uint32)
    requires Sound(files, max) && Sound(after, max) && other < max && other != id
    requires after - {FileName(id, size)} == files - {FileName(id, size)}
    ensures Lookup(after, other) == Lookup(files, other)
  {
    hide ContentsOf, IsCandidate, FileName, IsSeriesFile;
    forall s: uint32 ensures FileName(other, s) in after <==> FileName(other, s) in files {
      OtherName(files, after, id, size, other, s);
    }
    if s: uint32 :| FileName(other, s) in files {
      OtherName(files, after, id, size, other, s);
      LookupFile(files, max, other, s);
      LookupFile(after, max, other, s);
    }
  }

  lemma OtherName(files: Files, after: Files, id: uint32, size: uint32, other: uint32, s: uint32)
    requires other != id && after - {FileName(id, size)} == files - {FileName(id, size)}
    ensures FileName(other, s) in after <==> FileName(other, s) in files
    ensures FileName(other, s) in files ==> after[FileName(other, s)] == files[FileName(other, s)]
  {
    hide FileName;
    var n, f, a := FileName(other, s), files - {FileName(id, size)}, after - {FileName(id, size)};
    assert n != FileName(id, size) by {
      if n == FileName(id, size) {
        FileNameInjective(other, s, id, size);
      }
    }
    assert n in files <==> n in f;
    assert n in after <==> n in a;
    assert n in files ==> f[n] == files[n] && a[n] == after[n];
  }

  /** Removing the file of an id removes the id and nothing else. */
  lemma RemoveFile(files: Files, max: nat, id: uint32, size: uint32)
    requires Sound(files, max) && id < max && FileName(id, size) in files
    ensures var after := files - {FileName(id, size)};
            && Sound(after, max) && Lookup(after, id) == None
            && forall other: uint32 :: other < max && other != id ==> Lookup(after, other) == Lookup(files, other)
  {
    hide ContentsOf, IsCandidate, FileName, IsSeriesFile;
    var after := files - {FileName(id, size)};
    forall i: uint32, n | i < max && n in after && IsCandidate(i, n) ensures Owned(after, i, n) {
      assert Owned(files, i, n);
    }
    LookupFile(files, max, id, size);
    forall other: uint32 | other < max && other != id ensures Lookup(after, other) == Lookup(files, other) {
      assert after - {FileName(id, size)} == files - {FileName(id, size)};
      SameLookup(files, after, max, id, size, other);
    }
  }
}
