// The slots of kernel/ramfs.c as a value, the bounded map of names to contents
// that they represent, and what each operation does to both.
module FileSystem {
  import opened Machine

  const MAX_FILES := 64
  const MAX_NAME := 32
  const MAX_FILESIZE := 4096

  type Block = b: seq<Byte> | |b| == MAX_FILESIZE witness seq(MAX_FILESIZE, _ => 0)

  type Size = n: nat | n <= MAX_FILESIZE

  // ramfs_file_t; name is the C string in the name buffer.
  datatype Slot = Slot(used: bool, name: string, data: Block, size: Size)

  type Fs = f: seq<Slot> | |f| == MAX_FILES
    witness seq(MAX_FILES, _ => Slot(false, "", seq(MAX_FILESIZE, _ => 0), 0))

  // What strncpy into a name buffer keeps.
  function Stored(name: string): string {
    if |name| < MAX_NAME then name else name[..MAX_NAME - 1]
  }

  // Up to 31 characters of a name are kept.
  lemma StoredExactly(name: string)
    ensures Stored(name) == if |name| <= 31 then name else name[..31]
  {
  }

  // find_file: the first used slot of that name from i on, or MAX_FILES.
  function Find(fs: Fs, name: string, i: nat): (k: nat)
    requires i <= MAX_FILES
    ensures i <= k <= MAX_FILES
    ensures k < MAX_FILES ==> fs[k].used && fs[k].name == name
    ensures forall j :: i <= j < k ==> !(fs[j].used && fs[j].name == name)
    decreases MAX_FILES - i, fs
  {
    if i == MAX_FILES || (fs[i].used && fs[i].name == name) then i else Find(fs, name, i + 1)
  }

  // find_free_slot
  function FindFree(fs: Fs, i: nat): (k: nat)
    requires i <= MAX_FILES
    ensures i <= k <= MAX_FILES
    ensures k < MAX_FILES ==> !fs[k].used
    ensures forall j :: i <= j < k ==> fs[j].used
    decreases MAX_FILES - i, fs
  {
    if i == MAX_FILES || !fs[i].used then i else FindFree(fs, i + 1)
  }

  function Min(a: nat, b: nat): nat { if a < b then a else b }

  // memcpy(data + at, bytes, |bytes|)
  function Splice(data: Block, at: nat, bytes: seq<Byte>): Block
    requires at + |bytes| <= MAX_FILESIZE
  {
    data[..at] + bytes + data[at + |bytes|..]
  }

  // -- the operations; the second component is the C return value -----------------

  function Create(fs: Fs, name: string): (Fs, int) {
    if Find(fs, name, 0) < MAX_FILES then (fs, -1)
    else
      var k := FindFree(fs, 0);
      if k == MAX_FILES then (fs, -2)
      else (fs[k := fs[k].(used := true, name := Stored(name), size := 0)], 0)
  }

  // ramfs_write goes on with a null pointer if the file it has just created is
  // not found again; this is what its callers have to rule out.
  predicate Writable(fs: Fs, name: string) {
    |name| < MAX_NAME || FindFree(fs, 0) == MAX_FILES
  }

  function Write(fs: Fs, name: string, bytes: seq<Byte>): (Fs, int) {
    var (made, r) := if Find(fs, name, 0) < MAX_FILES then (fs, 0) else Create(fs, name);
    var k := Find(made, name, 0);
    if r != 0 || k == MAX_FILES then (made, -1)
    else
      var n := Min(|bytes|, MAX_FILESIZE);
      (made[k := made[k].(data := Splice(made[k].data, 0, bytes[..n]), size := n)], n)
  }

  function Append(fs: Fs, name: string, bytes: seq<Byte>): (Fs, int) {
    var k := Find(fs, name, 0);
    if k == MAX_FILES then (fs, -1)
    else
      var n := Min(|bytes|, MAX_FILESIZE - fs[k].size);
      (fs[k := fs[k].(data := Splice(fs[k].data, fs[k].size, bytes[..n]), size := fs[k].size + n)], n)
  }

  // The bytes copied to the caller's buffer, or None for the error return.
  function Read(fs: Fs, name: string, bufSize: nat): Option<seq<Byte>> {
    var k := Find(fs, name, 0);
    if k == MAX_FILES then None
    else Some(fs[k].data[..Min(fs[k].size, bufSize)])
  }

  function Delete(fs: Fs, name: string): (Fs, int) {
    var k := Find(fs, name, 0);
    if k == MAX_FILES then (fs, -1)
    else (fs[k := fs[k].(used := false, name := "", size := 0)], 0)
  }

  // -- the map ---------------------------------------------------------------

  ghost predicate Good(fs: Fs) {
    && (forall i :: 0 <= i < MAX_FILES && fs[i].used ==> |fs[i].name| < MAX_NAME)
    && (forall i, j :: 0 <= i < j < MAX_FILES && fs[i].used && fs[j].used ==> fs[i].name != fs[j].name)
  }

  ghost function Names(fs: Fs): set<string> {
    set i | 0 <= i < MAX_FILES && fs[i].used :: fs[i].name
  }

  function Contents(s: Slot): seq<Byte> {
    s.data[..s.size]
  }

  ghost function Files(fs: Fs): map<string, seq<Byte>>
    requires Good(fs)
  {
    map n | n in Names(fs) :: NamesFound(fs, n); Contents(fs[Find(fs, n, 0)])
  }

  lemma NamesFound(fs: Fs, n: string)
    ensures n in Names(fs) <==> Find(fs, n, 0) < MAX_FILES
  {
    if n in Names(fs) {
      var i :| 0 <= i < MAX_FILES && fs[i].used && fs[i].name == n;
      assert Find(fs, n, 0) <= i;
    }
  }

  // Every used slot shows in the map under its own name.
  lemma FileAt(fs: Fs, i: nat)
    requires Good(fs) && i < MAX_FILES && fs[i].used
    ensures fs[i].name in Files(fs) && Files(fs)[fs[i].name] == Contents(fs[i]) && Find(fs, fs[i].name, 0) == i
  {
    NamesFound(fs, fs[i].name);
  }

  // The map once slot k of fs has become s.
  ghost function Changed(fs: Fs, k: nat, s: Slot): map<string, seq<Byte>>
    requires Good(fs) && k < MAX_FILES
  {
    var rest := if fs[k].used then Files(fs) - {fs[k].name} else Files(fs);
    if s.used then rest[s.name := Contents(s)] else rest
  }

  // Changing the contents, or the use, of one slot changes one entry of the map.
  lemma SlotChange(fs: Fs, k: nat, s: Slot)
    requires Good(fs) && k < MAX_FILES && Good(fs[k := s])
    ensures Files(fs[k := s]) == Changed(fs, k, s)
  {
    hide Good, Files, Changed;
    var gs: Fs := fs[k := s];
    forall n
      ensures n in Files(gs) <==> n in Changed(fs, k, s)
      ensures n in Files(gs) ==> Files(gs)[n] == Changed(fs, k, s)[n]
    {
      SlotChangeAt(fs, k, s, n);
    }
  }

  lemma SlotChangeAt(fs: Fs, k: nat, s: Slot, n: string)
    requires Good(fs) && k < MAX_FILES && Good(fs[k := s])
    ensures n in Files(fs[k := s]) <==> n in Changed(fs, k, s)
    ensures n in Files(fs[k := s]) ==> Files(fs[k := s])[n] == Changed(fs, k, s)[n]
  {
    hide Good, Find, Files, Names;
    var gs: Fs := fs[k := s];
    SlotOfName(fs, n);
    SlotOfName(gs, n);
    if fs[k].used { FileAt(fs, k); }
    if s.used { FileAt(gs, k); }
    if n in Files(gs) {
      var j :| 0 <= j < MAX_FILES && gs[j].used && gs[j].name == n;
      if j != k { SameSlot(fs, k, s, j); }
    }
    if n in Files(fs) {
      var i :| 0 <= i < MAX_FILES && fs[i].used && fs[i].name == n;
      if i != k { SameSlot(fs, k, s, i); }
    }
  }

  // Another used slot keeps its entry, under a name that slot k does not have.
  lemma SameSlot(fs: Fs, k: nat, s: Slot, j: nat)
    requires Good(fs) && k < MAX_FILES && Good(fs[k := s]) && j < MAX_FILES && j != k && fs[j].used
    ensures var n := fs[j].name;
      && (fs[k].used ==> fs[k].name != n) && (s.used ==> s.name != n)
      && n in Files(fs) && Files(fs)[n] == Contents(fs[j])
      && n in Files(fs[k := s]) && Files(fs[k := s])[n] == Contents(fs[j])
  {
    var gs: Fs := fs[k := s];
    assert gs[j] == fs[j] && gs[k] == s;
    FileAt(fs, j);
    FileAt(gs, j);
  }

  lemma SlotOfName(fs: Fs, n: string)
    requires Good(fs)
    ensures n in Files(fs) ==> exists i :: 0 <= i < MAX_FILES && fs[i].used && fs[i].name == n
  {
  }

  // -- capacity ----------------------------------------------------------------

  ghost function NamesBelow(fs: Fs, n: nat): set<string>
    requires n <= MAX_FILES
    decreases n, fs
  {
    if n == 0 then {} else NamesBelow(fs, n - 1) + if fs[n - 1].used then {fs[n - 1].name} else {}
  }

  // The names in the order of their slots.
  function InOrder(fs: Fs, n: nat): seq<string>
    requires n <= MAX_FILES
    decreases n, fs
  {
    if n == 0 then [] else InOrder(fs, n - 1) + if fs[n - 1].used then [fs[n - 1].name] else []
  }

  // Names listed later are found in later slots.
  lemma {:induction false} InOrderExactly(fs: Fs, n: nat)
    requires Good(fs) && n <= MAX_FILES
    ensures forall i :: 0 <= i < |InOrder(fs, n)| ==> Find(fs, InOrder(fs, n)[i], 0) < n
    ensures forall i, j :: 0 <= i < j < |InOrder(fs, n)| ==>
      Find(fs, InOrder(fs, n)[i], 0) < Find(fs, InOrder(fs, n)[j], 0)
    decreases n
  {
    hide Find;
    if n > 0 {
      InOrderExactly(fs, n - 1);
      if fs[n - 1].used { FileAt(fs, n - 1); }
    }
  }

  lemma {:induction false} InOrderGrows(fs: Fs, i: nat, n: nat)
    requires i <= n <= MAX_FILES
    ensures InOrder(fs, i) <= InOrder(fs, n)
    decreases n
  {
    if i < n {
      InOrderGrows(fs, i, n - 1);
    }
  }

  lemma {:induction false} NamesBelowMember(fs: Fs, n: nat, x: string)
    requires n <= MAX_FILES
    ensures x in NamesBelow(fs, n) <==> exists i :: 0 <= i < n && fs[i].used && fs[i].name == x
    decreases n, fs
  {
    if n > 0 {
      NamesBelowMember(fs, n - 1, x);
    }
  }

  lemma {:induction false} NamesBelowSize(fs: Fs, n: nat)
    requires Good(fs) && n <= MAX_FILES
    ensures |NamesBelow(fs, n)| <= n
    ensures |NamesBelow(fs, n)| == n <==> forall i :: 0 <= i < n ==> fs[i].used
    decreases n, fs
  {
    if n > 0 {
      NamesBelowSize(fs, n - 1);
      NamesBelowMember(fs, n - 1, fs[n - 1].name);
    }
  }

  lemma {:induction false} NamesBelowGrows(fs: Fs, i: nat, n: nat)
    requires i <= n <= MAX_FILES
    ensures NamesBelow(fs, i) <= NamesBelow(fs, n)
    decreases n
  {
    if i < n {
      NamesBelowGrows(fs, i, n - 1);
    }
  }

  lemma AllNames(fs: Fs, n: nat)
    requires Good(fs) && n == MAX_FILES
    ensures Files(fs).Keys == NamesBelow(fs, n)
  {
    hide NamesBelow;
    forall x ensures x in Files(fs) <==> x in NamesBelow(fs, n) {
      NamesBelowMember(fs, n, x);
    }
  }

  // There is a free slot exactly when fewer than 64 files exist.
  lemma FullMeans64(fs: Fs)
    requires Good(fs)
    ensures FindFree(fs, 0) == 64 <==> |Files(fs)| == 64
    ensures |Files(fs)| <= 64
  {
    var n := MAX_FILES;
    AllNames(fs, n);
    NamesBelowSize(fs, n);
  }
}
