// Each operation of the RAM filesystem refines one on the map of files.
module FileLaws {
  import opened Machine
  import opened FileSystem

  // A file comes into being under the name as it is stored. Names stay unique
  // exactly when no file has the stored name yet, which only a name that is cut
  // off can violate.
  lemma CreateLaw(fs: Fs, name: string)
    requires Good(fs)
    ensures var (gs, r) := Create(fs, name);
      if name in Files(fs) then r == -1 && gs == fs
      else if |Files(fs)| == 64 then r == -2 && gs == fs
      else
        && r == 0 && (Good(gs) <==> Stored(name) !in Files(fs))
        && (Good(gs) ==> Files(gs) == Files(fs)[Stored(name) := []])
    ensures |name| <= 31 ==> Stored(name) == name && Good(Create(fs, name).0)
  {
    hide Find, Files, Names;
    FoundIsFile(fs, name);
    FullMeans64(fs);
    var k := FindFree(fs, 0);
    if Find(fs, name, 0) == MAX_FILES && k < MAX_FILES {
      var s := fs[k].(used := true, name := Stored(name), size := 0);
      StoredIsUnique(fs, k, s);
      if Good(fs[k := s]) { SlotChange(fs, k, s); }
      assert fs[k].data[..0] == [];
    }
  }

  lemma StoredIsUnique(fs: Fs, k: nat, s: Slot)
    requires Good(fs) && k < MAX_FILES && !fs[k].used && s.used && |s.name| < MAX_NAME
    ensures Good(fs[k := s]) <==> s.name !in Files(fs)
  {
    var gs: Fs := fs[k := s];
    FoundIsFile(fs, s.name);
    var j := Find(fs, s.name, 0);
    hide Find, Files;
    if j < MAX_FILES {
      assert gs[j] == fs[j] && gs[k] == s && j != k;
    } else {
      UnusedName(fs, s.name);
    }
  }

  lemma UnusedName(fs: Fs, name: string)
    requires Find(fs, name, 0) == MAX_FILES
    ensures forall i :: 0 <= i < MAX_FILES && fs[i].used ==> fs[i].name != name
  {
  }

  lemma FoundIsFile(fs: Fs, name: string)
    requires Good(fs)
    ensures name in Files(fs) <==> Find(fs, name, 0) < MAX_FILES
    ensures name in Files(fs) ==> Files(fs)[name] == Contents(fs[Find(fs, name, 0)])
  {
    NamesFound(fs, name);
  }

  // A name too long for the buffer is stored cut off, and not found again.
  lemma LongNamesAreLost(fs: Fs, name: string)
    requires Good(fs) && Create(fs, name).1 == 0
    ensures Find(Create(fs, name).0, name, 0) < 64 <==> |name| <= 31
  {
    var k := FindFree(fs, 0);
    assert Find(fs, name, 0) == MAX_FILES && k < MAX_FILES;
    assert Create(fs, name).0 == fs[k := fs[k].(used := true, name := Stored(name), size := 0)];
    hide Find, FindFree, Good, Create;
    StoredName(fs, k, name);
  }

  lemma StoredName(fs: Fs, k: nat, name: string)
    requires Good(fs) && k < MAX_FILES
    ensures Find(fs[k := fs[k].(used := true, name := Stored(name), size := 0)], name, 0) < MAX_FILES <==>
      |name| < MAX_NAME || exists j :: 0 <= j < MAX_FILES && j != k && fs[j].used && fs[j].name == name
  {
    var gs: Fs := fs[k := fs[k].(used := true, name := Stored(name), size := 0)];
    var m := Find(gs, name, 0);
    hide Find;
    assert gs[k].used && gs[k].name == Stored(name);
    if j :| 0 <= j < MAX_FILES && j != k && fs[j].used && fs[j].name == name {
      assert gs[j] == fs[j];
    }
    if m < MAX_FILES && m != k {
      assert gs[m] == fs[m];
    }
  }

  lemma WriteLaw(fs: Fs, name: string, bytes: seq<Byte>)
    requires Good(fs) && Writable(fs, name)
    ensures var (gs, r) := Write(fs, name, bytes);
      Good(gs) &&
      if name !in Files(fs) && |Files(fs)| == 64 then r == -1 && gs == fs
      else r == (if |bytes| > 4096 then 4096 else |bytes|) && Files(gs) == Files(fs)[name := bytes[..r]]
  {
    hide Find, Files, Names;
    CreateLaw(fs, name);
    FoundIsFile(fs, name);
    FullMeans64(fs);
    var made := if Find(fs, name, 0) < MAX_FILES then fs else Create(fs, name).0;
    FoundIsFile(made, name);
    var k, n := Find(made, name, 0), Min(|bytes|, MAX_FILESIZE);
    if k < MAX_FILES {
      var s := made[k].(data := Splice(made[k].data, 0, bytes[..n]), size := n);
      assert s.data[..n] == bytes[..n];
      SlotChange(made, k, s);
    }
  }

  lemma AppendLaw(fs: Fs, name: string, bytes: seq<Byte>)
    requires Good(fs)
    ensures var (gs, r) := Append(fs, name, bytes);
      Good(gs) &&
      if name !in Files(fs) then r == -1 && gs == fs
      else
        var c := Files(fs)[name];
        && |c| <= 4096 && r == (if |c| + |bytes| > 4096 then 4096 - |c| else |bytes|)
        && Files(gs) == Files(fs)[name := c + bytes[..r]]
  {
    hide Find, Files, Names;
    FoundIsFile(fs, name);
    var k := Find(fs, name, 0);
    if k < MAX_FILES {
      var n := Min(|bytes|, MAX_FILESIZE - fs[k].size);
      var s := fs[k].(data := Splice(fs[k].data, fs[k].size, bytes[..n]), size := fs[k].size + n);
      assert s.data[..s.size] == fs[k].data[..fs[k].size] + bytes[..n];
      SlotChange(fs, k, s);
    }
  }

  lemma ReadLaw(fs: Fs, name: string, bufSize: nat)
    requires Good(fs)
    ensures Read(fs, name, bufSize) ==
      if name !in Files(fs) then None
      else Some(if bufSize < |Files(fs)[name]| then Files(fs)[name][..bufSize] else Files(fs)[name])
  {
    FoundIsFile(fs, name);
    var k := Find(fs, name, 0);
    if k < MAX_FILES {
      var n := Min(fs[k].size, bufSize);
      assert fs[k].data[..fs[k].size][..n] == fs[k].data[..n];
    }
  }

  lemma DeleteLaw(fs: Fs, name: string)
    requires Good(fs)
    ensures var (gs, r) := Delete(fs, name);
      Good(gs) &&
      if name !in Files(fs) then r == -1 && gs == fs
      else r == 0 && Files(gs) == Files(fs) - {name}
  {
    hide Find, Files, Names;
    FoundIsFile(fs, name);
    var k := Find(fs, name, 0);
    if k < MAX_FILES {
      SlotChange(fs, k, fs[k].(used := false, name := "", size := 0));
    }
  }

  lemma NotFoundNotRead(fs: Fs, name: string, bufSize: nat)
    requires Find(fs, name, 0) == MAX_FILES
    ensures Read(fs, name, bufSize) == None
  {
  }

  // Nothing of a deleted file can be read from a new file, under any name; a name
  // that was cut off finds no file at all.
  lemma NoStaleData(fs: Fs, deleted: string, name: string, bufSize: nat)
    requires Good(fs) && deleted in Files(fs)
    requires name == deleted || name !in Files(fs)
    ensures Read(Create(Delete(fs, deleted).0, name).0, name, bufSize) == if |name| < MAX_NAME then Some([]) else None
  {
    hide Good, Files, Create, Delete, Read;
    DeleteLaw(fs, deleted);
    var gs := Delete(fs, deleted).0;
    FullMeans64(fs);
    assert |Files(gs)| == |Files(fs)| - 1 by {
      assert Files(gs).Keys == Files(fs).Keys - {deleted};
    }
    CreateLaw(gs, name);
    if |name| < MAX_NAME {
      ReadLaw(Create(gs, name).0, name, bufSize);
    } else {
      LongNamesAreLost(gs, name);
      NotFoundNotRead(Create(gs, name).0, name, bufSize);
    }
  }
}
