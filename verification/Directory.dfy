/** The flat root directory: path stripping and search (fs/misc.c), adding an entry (fs/open.c,
    new_dir_entry) and removing one (fs/link.c).  Entries are 16 bytes, 32 to a sector. */
module Directory {

  const MAX_FILENAME_LEN: nat := 12
  const PER_SECTOR: nat := 32
  const ROOT_INODE: nat := 1

  /** `name` has room for 12 characters and is not always terminated. */
  datatype DirEntry = DirEntry(inode: nat, name: seq<char>)

  const NO_NAME: seq<char> := ['\0', '\0', '\0', '\0', '\0', '\0', '\0', '\0', '\0', '\0', '\0', '\0']
  const EMPTY := DirEntry(0, NO_NAME)

  // ----- Names

  function Base(path: seq<char>): seq<char> {
    if path != [] && path[0] == '/' then path[1..] else path
  }

  function Truncated(s: seq<char>): (r: seq<char>)
    ensures |r| <= MAX_FILENAME_LEN
  {
    if |s| <= MAX_FILENAME_LEN then s else s[..MAX_FILENAME_LEN]
  }

  datatype Stripped = Name(name: seq<char>) | BadPath

  /** Drops one leading slash and keeps at most 12 characters; a slash among those is an error, one
      further on goes unnoticed. */
  method StripPath(path: seq<char>) returns (r: Stripped)
    ensures r == if '/' in Truncated(Base(path)) then BadPath else Name(Truncated(Base(path)))
    ensures var k := if |path| > 0 && path[0] == '/' then 1 else 0;
      && (r.BadPath? <==> exists i :: k <= i < |path| && i < k + 12 && path[i] == '/')
      && (r.Name? ==> |r.name| == (if |path| - k < 12 then |path| - k else 12) && forall i :: 0 <= i < |r.name| ==> r.name[i] == path[k + i])
  {
    BaseChars(path);
    var s := Base(path);
    var name, i := [], 0;
    while i < |s|
      invariant i <= |s| && i < MAX_FILENAME_LEN && name == s[..i] && '/' !in name
    {
      if s[i] == '/' {
        assert Truncated(s)[i] == '/';
        return BadPath;
      }
      name := name + [s[i]];
      i := i + 1;
      if i >= MAX_FILENAME_LEN {
        break;
      }
    }
    return Name(name);
  }

  lemma BaseChars(path: seq<char>)
    ensures var k, s := if |path| > 0 && path[0] == '/' then 1 else 0, Truncated(Base(path));
      && |s| == (if |path| - k < 12 then |path| - k else 12) && (forall i :: 0 <= i < |s| ==> s[i] == path[k + i])
      && ('/' in s <==> exists i :: k <= i < |path| && i < k + 12 && path[i] == '/')
  {
    var k, s := if |path| > 0 && path[0] == '/' then 1 else 0, Truncated(Base(path));
    if i :| k <= i < |path| && i < k + 12 && path[i] == '/' {
      assert s[i - k] == '/';
    }
  }

  /** The name as `memcmp` sees it: padded with zeros to 12. */
  function Pad(name: seq<char>): (r: seq<char>)
    requires |name| <= MAX_FILENAME_LEN
    ensures |r| == MAX_FILENAME_LEN
  {
    name + NO_NAME[|name|..]
  }

  /** What strcpy leaves in the 12 characters that held `was`. */
  function StrCpy(was: seq<char>, name: seq<char>): (r: seq<char>)
    requires |was| == MAX_FILENAME_LEN && |name| <= MAX_FILENAME_LEN
    ensures |r| == MAX_FILENAME_LEN
  {
    if |name| == MAX_FILENAME_LEN then name else name + ['\0'] + was[|name| + 1..]
  }

  lemma StrCpyPads(name: seq<char>)
    requires |name| <= MAX_FILENAME_LEN
    ensures StrCpy(NO_NAME, name) == Pad(name)
  {
  }

  /** Character by character: the name, then zeros; strcpy writes one zero and leaves what follows. */
  lemma NameChars(was: seq<char>, name: seq<char>, i: nat)
    requires |was| == 12 && |name| <= 12 && i < 12
    ensures Pad(name)[i] == if i < |name| then name[i] else '\0'
    ensures StrCpy(was, name)[i] == if i < |name| then name[i] else if i == |name| then '\0' else was[i]
  {
  }

  // ----- Search

  /** Entries search_file looks at in a directory of n entries: one past the end when the last sector
      is not full, because it compares before it counts. */
  function Examined(n: nat): nat {
    if n % 32 == 0 then n else n + 1
  }

  /** The first of the entries [i, limit) with this name, or limit. */
  function Find(entries: seq<DirEntry>, i: nat, limit: nat, key: seq<char>): (r: nat)
    requires i <= limit <= |entries|
    ensures i <= r <= limit && (r < limit ==> entries[r].name == key)
    ensures forall k :: i <= k < r ==> entries[k].name != key
    decreases limit - i
  {
    if i == limit || entries[i].name == key then i else Find(entries, i + 1, limit, key)
  }

  /** The inode number search_file returns for a name of the directory; 0 means not found. */
  function Lookup(entries: seq<DirEntry>, n: nat, key: seq<char>): nat
    requires Examined(n) <= |entries|
  {
    var i := Find(entries, 0, Examined(n), key);
    if i < Examined(n) then entries[i].inode else 0
  }

  /** Search compares the entry past the last one as well, unless that begins a new sector; it sees
      nothing further on. */
  lemma LooksOnePast(entries: seq<DirEntry>, n: nat, key: seq<char>, i: nat)
    requires Examined(n) <= |entries| && i < |entries| && entries[i].name == key && forall j :: 0 <= j < i ==> entries[j].name != key
    ensures i < n || (i == n && n % 32 != 0) ==> Lookup(entries, n, key) == entries[i].inode
    ensures i > n || (i == n && n % 32 == 0) ==> Lookup(entries, n, key) == 0
  {
  }

  /** Names are 12 characters, free slots and everything past the end are zeroed, and live entries
      have non-empty, distinct names and distinct inodes. */
  ghost predicate Tidy(entries: seq<DirEntry>, n: nat) {
    && n <= |entries| && |entries| % 32 == 0
    && (forall i :: 0 <= i < |entries| ==> |entries[i].name| == MAX_FILENAME_LEN)
    && (forall i :: 0 <= i < |entries| && (i >= n || entries[i].inode == 0) ==> entries[i] == EMPTY)
    && (forall i :: 0 <= i < n && entries[i].inode != 0 ==> entries[i].name != NO_NAME)
    && (forall i, j :: 0 <= i < j < n && entries[i].inode != 0 && entries[j].inode != 0 ==>
         entries[i].name != entries[j].name && entries[i].inode != entries[j].inode)
  }

  ghost predicate LiveAt(entries: seq<DirEntry>, n: nat, i: nat) {
    i < n <= |entries| && entries[i].inode != 0
  }

  lemma TidyRoom(entries: seq<DirEntry>, n: nat)
    requires Tidy(entries, n)
    ensures Examined(n) <= |entries|
  {
  }

  /** In a tidy directory search finds the live entry of the name, and nothing for any other name. */
  lemma LookupIsMap(entries: seq<DirEntry>, n: nat, key: seq<char>)
    requires Tidy(entries, n) && |key| == MAX_FILENAME_LEN && key != NO_NAME
    ensures Examined(n) <= |entries|
    ensures forall i: nat :: LiveAt(entries, n, i) && entries[i].name == key ==> Lookup(entries, n, key) == entries[i].inode
    ensures (forall i: nat :: LiveAt(entries, n, i) ==> entries[i].name != key) ==> Lookup(entries, n, key) == 0
  {
    TidyRoom(entries, n);
    var r := Find(entries, 0, Examined(n), key);
    forall i: nat | LiveAt(entries, n, i) && entries[i].name == key ensures Lookup(entries, n, key) == entries[i].inode {
      assert r <= i;
      assert entries[r].name == key && entries[r] != EMPTY;
      assert r == i;
    }
  }

  class Dir {
    const slots: array<DirEntry>
    var count: nat

    ghost predicate Valid()
      reads this, slots
    {
      Tidy(slots[..], count)
    }

    constructor (sectors: nat)
      ensures Valid() && count == 0 && slots.Length == sectors * 32 && fresh(slots)
    {
      slots := new DirEntry[sectors * 32](_ => EMPTY);
      count := 0;
    }

    /** The inner loop of search_file over one sector; `stop` says that the answer is final. */
    method SearchSector(i: nat, key: seq<char>) returns (stop: bool, inode: nat)
      requires Examined(count) <= slots.Length && 32 * i < count
      requires NotBefore(slots[..], 32 * i, key)
      ensures stop ==> inode == Lookup(slots[..], count, key)
      ensures !stop ==> 32 * (i + 1) <= count && NotBefore(slots[..], 32 * (i + 1), key)
    {
      var m := 32 * i;
      for j := 0 to PER_SECTOR
        invariant m == 32 * i + j <= count && NotBefore(slots[..], m, key)
      {
        if slots[m].name == key {
          LookupHit(slots[..], count, key, m);
          return true, slots[m].inode;
        }
        m := m + 1;
        if m > count {
          LookupMiss(slots[..], count, key, m);
          return true, 0;
        }
      }
      return false, 0;
    }

    /** The outer loop of search_file. */
    method SearchKey(key: seq<char>) returns (inode: nat)
      requires Examined(count) <= slots.Length
      ensures inode == Lookup(slots[..], count, key)
    {
      var blocks := (count * 16 + 511) / 512;
      for i := 0 to blocks
        invariant 32 * i <= count && NotBefore(slots[..], 32 * i, key)
      {
        var stop, r := SearchSector(i, key);
        if stop {
          return r;
        }
      }
      LookupMiss(slots[..], count, key, 32 * blocks);
      return 0;
    }

    /** search_file on a stripped name. */
    method SearchFile(name: seq<char>) returns (inode: nat)
      requires |name| <= MAX_FILENAME_LEN && Examined(count) <= slots.Length
      ensures inode == if name == [] then ROOT_INODE else Lookup(slots[..], count, Pad(name))
    {
      if name == [] {
        return ROOT_INODE;
      }
      inode := SearchKey(Pad(name));
    }

    /** The slot new_dir_entry takes: the first free one, or the one past the end, in the extra sector
        it allows for when the last one is full. */
    method PickSlot() returns (idx: nat)
      requires count < slots.Length && slots.Length % 32 == 0
      ensures idx == FirstFree(slots[..], 0, count)
    {
      var blocks := (count * 16 + 512) / 512;
      for i := 0 to blocks
        invariant 32 * i <= count && FirstFree(slots[..], 0, count) == FirstFree(slots[..], 32 * i, count)
      {
        var m := 32 * i;
        for j := 0 to PER_SECTOR
          invariant m == 32 * i + j <= count && FirstFree(slots[..], 0, count) == FirstFree(slots[..], m, count)
        {
          if m + 1 > count {
            return m;
          }
          if slots[m].inode == 0 {
            return m;
          }
          m := m + 1;
        }
      }
      return count;
    }

    /** new_dir_entry.  strcpy also writes the terminator: for a 12-character name it falls on the
        first byte of the next entry, or off the end of the sector buffer. */
    method NewDirEntry(inode: nat, name: seq<char>) returns (idx: nat)
      requires |name| <= MAX_FILENAME_LEN && count < slots.Length && slots.Length % 32 == 0
      requires forall k :: 0 <= k < slots.Length ==> |slots[k].name| == MAX_FILENAME_LEN
      modifies this`count, slots
      ensures idx == FirstFree(old(slots[..]), 0, old(count))
      ensures slots[..] == Inserted(old(slots[..]), idx, inode, name)
      ensures count == if idx == old(count) then old(count) + 1 else old(count)
    {
      idx := PickSlot();
      if idx == count {
        count := count + 1;
      }
      slots[idx] := DirEntry(inode, StrCpy(slots[idx].name, name));
      if |name| == MAX_FILENAME_LEN && idx % 32 < 31 {
        slots[idx + 1] := slots[idx + 1].(inode := slots[idx + 1].inode - slots[idx + 1].inode % 256);
      }
    }

    /** The directory part of do_unlink: the entry is zeroed, and when it was the last one the size
        becomes that of the live entries before it. */
    method RemoveEntry(inode: nat) returns (found: bool, idx: nat)
      requires inode != 0 && count <= slots.Length
      modifies this`count, slots
      ensures idx == FindInode(old(slots[..]), 0, old(count), inode) && (found <==> idx < old(count))
      ensures !found ==> slots[..] == old(slots[..]) && count == old(count)
      ensures found ==> slots[..] == old(slots[..])[idx := EMPTY] && count == Shrunk(old(slots[..]), old(count), idx)
    {
      var size, m := 0, 0;
      while m < count
        invariant m <= count && size == LiveBefore(slots[..], m) && slots[..] == old(slots[..]) && count == old(count)
        invariant FindInode(slots[..], 0, count, inode) == FindInode(slots[..], m, count, inode)
      {
        if slots[m].inode == inode {
          slots[m] := EMPTY;
          if m + 1 == count {
            count := size;
          }
          return true, m;
        }
        if slots[m].inode != 0 {
          size := size + 1;
        }
        m := m + 1;
      }
      return false, m;
    }
  }

  /** The first of the entries [i, n) with no inode, or n. */
  function FirstFree(entries: seq<DirEntry>, i: nat, n: nat): (r: nat)
    requires i <= n <= |entries|
    ensures i <= r <= n && (r < n ==> entries[r].inode == 0)
    ensures forall k :: i <= k < r ==> entries[k].inode != 0
    decreases n - i
  {
    if i == n || entries[i].inode == 0 then i else FirstFree(entries, i + 1, n)
  }

  function FindInode(entries: seq<DirEntry>, i: nat, n: nat, inode: nat): (r: nat)
    requires i <= n <= |entries|
    ensures i <= r <= n && (r < n ==> entries[r].inode == inode)
    ensures forall k :: i <= k < r ==> entries[k].inode != inode
    decreases n - i
  {
    if i == n || entries[i].inode == inode then i else FindInode(entries, i + 1, n, inode)
  }

  function LiveBefore(entries: seq<DirEntry>, i: nat): (r: nat)
    requires i <= |entries|
    ensures r <= i
  {
    if i == 0 then 0 else LiveBefore(entries, i - 1) + if entries[i - 1].inode != 0 then 1 else 0
  }

  function Shrunk(entries: seq<DirEntry>, n: nat, idx: nat): nat
    requires idx < n <= |entries|
  {
    if idx + 1 == n then LiveBefore(entries, idx) else n
  }

  function Inserted(entries: seq<DirEntry>, idx: nat, inode: nat, name: seq<char>): (r: seq<DirEntry>)
    requires idx < |entries| && |entries| % 32 == 0 && |entries[idx].name| == MAX_FILENAME_LEN && |name| <= MAX_FILENAME_LEN
    ensures |r| == |entries|
  {
    var e := entries[idx := DirEntry(inode, StrCpy(entries[idx].name, name))];
    if |name| == MAX_FILENAME_LEN && idx % 32 < 31 then
      e[idx + 1 := e[idx + 1].(inode := e[idx + 1].inode - e[idx + 1].inode % 256)]
    else e
  }

  /** Entry by entry: the inode and the name where they belong; the terminator of a 12-character name
      clears the low byte of the next inode number of the same sector; the rest is unchanged. */
  lemma InsertedFields(entries: seq<DirEntry>, idx: nat, inode: nat, name: seq<char>, i: nat)
    requires idx < |entries| && |entries| % 32 == 0 && |entries[idx].name| == 12 && |name| <= 12 && i < |entries|
    ensures var e := Inserted(entries, idx, inode, name);
      && e[idx].inode == inode && e[idx].name == StrCpy(entries[idx].name, name)
      && (i != idx && i != idx + 1 ==> e[i] == entries[i])
      && (i == idx + 1 && (|name| < 12 || i % 32 == 0) ==> e[i] == entries[i])
      && (i == idx + 1 && |name| == 12 && i % 32 != 0 ==>
            e[i].name == entries[i].name && e[i].inode % 256 == 0 && e[i].inode / 256 == entries[i].inode / 256)
  {
  }

  /** LiveBefore counts the live entries. */
  lemma {:induction false} LiveBeforeCounts(entries: seq<DirEntry>, i: nat)
    requires i <= |entries|
    ensures LiveBefore(entries, i) == |set j: nat | j < i && entries[j].inode != 0|
  {
    var live := set j: nat | j < i && entries[j].inode != 0;
    if i == 0 {
      assert live == {};
    } else {
      LiveBeforeCounts(entries, i - 1);
      var before := set j: nat | j < i - 1 && entries[j].inode != 0;
      assert live == before + if entries[i - 1].inode != 0 then {i - 1} else {};
    }
  }

  // ----- The directory as a finite map

  /** The terminator of the new name does no harm. */
  predicate TerminatorSafe(entries: seq<DirEntry>, idx: nat, name: seq<char>)
    requires |entries| % 32 == 0 && idx < |entries|
  {
    |name| < MAX_FILENAME_LEN || idx % 32 == 31 || entries[idx + 1].inode % 256 == 0
  }

  ghost predicate NewName(entries: seq<DirEntry>, n: nat, inode: nat, key: seq<char>)
    requires n <= |entries|
  {
    && inode != 0 && key != NO_NAME
    && forall i :: 0 <= i < n && entries[i].inode != 0 ==> entries[i].name != key && entries[i].inode != inode
  }

  lemma InsertKeepsTidy(entries: seq<DirEntry>, n: nat, inode: nat, name: seq<char>, idx: nat)
    requires Tidy(entries, n) && n < |entries| && |name| <= MAX_FILENAME_LEN && NewName(entries, n, inode, Pad(name))
    requires idx == FirstFree(entries, 0, n) && TerminatorSafe(entries, idx, name)
    ensures Inserted(entries, idx, inode, name) == entries[idx := DirEntry(inode, Pad(name))]
    ensures Tidy(Inserted(entries, idx, inode, name), if idx == n then n + 1 else n)
  {
    assert entries[idx] == EMPTY;
    StrCpyPads(name);
    var e := Inserted(entries, idx, inode, name);
    assert e == entries[idx := DirEntry(inode, Pad(name))];
  }

  /** The expected answer after a create. */
  ghost predicate NameAdded(entries: seq<DirEntry>, n: nat, e: seq<DirEntry>, n': nat, inode: nat, key: seq<char>)
    requires Examined(n) <= |entries| && Examined(n') <= |e|
  {
    forall k: seq<char> {:trigger Lookup(e, n', k)} :: |k| == MAX_FILENAME_LEN && k != NO_NAME ==>
      Lookup(e, n', k) == if k == key then inode else Lookup(entries, n, k)
  }

  lemma LookupAfterInsert(entries: seq<DirEntry>, n: nat, e: seq<DirEntry>, n': nat, idx: nat, inode: nat, key: seq<char>, k: seq<char>)
    requires Tidy(entries, n) && Tidy(e, n') && idx < n' && n <= n' <= n + 1 && (n' == n + 1 ==> idx == n) && idx < |entries|
    requires |key| == |k| == MAX_FILENAME_LEN && k != NO_NAME && e == entries[idx := DirEntry(inode, key)] && entries[idx] == EMPTY
    requires NewName(entries, n, inode, key)
    ensures Examined(n) <= |entries| && Examined(n') <= |e|
    ensures Lookup(e, n', k) == if k == key then inode else Lookup(entries, n, k)
  {
    LookupIsMap(entries, n, k);
    LookupIsMap(e, n', k);
    assert e[idx] == DirEntry(inode, key);
    if k == key {
      assert LiveAt(e, n', idx);
    } else if i: nat :| LiveAt(entries, n, i) && entries[i].name == k {
      assert LiveAt(e, n', i) && e[i].name == k;
    } else {
      forall i: nat | LiveAt(e, n', i) ensures e[i].name != k {
        assert i != idx ==> LiveAt(entries, n, i);
      }
    }
  }

  /** After a create the new name resolves to the new inode and every other name is unchanged, exactly
      when the terminator does no harm. */
  lemma CreateAddsName(entries: seq<DirEntry>, n: nat, inode: nat, name: seq<char>, idx: nat)
    requires Tidy(entries, n) && n < |entries| && |name| <= MAX_FILENAME_LEN && NewName(entries, n, inode, Pad(name))
    requires idx == FirstFree(entries, 0, n)
    ensures var n' := if idx == n then n + 1 else n;
      && Examined(n) <= |entries| && Examined(n') <= |entries|
      && (TerminatorSafe(entries, idx, name) <==> NameAdded(entries, n, Inserted(entries, idx, inode, name), n', inode, Pad(name)))
  {
    var n', e, key := if idx == n then n + 1 else n, Inserted(entries, idx, inode, name), Pad(name);
    TidyRoom(entries, n);
    if TerminatorSafe(entries, idx, name) {
      InsertKeepsTidy(entries, n, inode, name, idx);
      TidyRoom(e, n');
      forall k: seq<char> | |k| == MAX_FILENAME_LEN && k != NO_NAME
        ensures Lookup(e, n', k) == if k == key then inode else Lookup(entries, n, k)
      {
        LookupAfterInsert(entries, n, e, n', idx, inode, key, k);
      }
    } else {
      NextEntryHit(entries, n, inode, name, idx);
    }
  }

  lemma NextInSector(idx: nat, size: nat)
    requires idx < size && size % 32 == 0 && idx % 32 != 31
    ensures idx + 1 < size
  {
  }

  /** A 12-character name put in a hole before an entry with a non-zero low inode byte changes what
      that entry's name resolves to. */
  lemma NextEntryHit(entries: seq<DirEntry>, n: nat, inode: nat, name: seq<char>, idx: nat)
    requires Tidy(entries, n) && n < |entries| && |name| <= MAX_FILENAME_LEN && NewName(entries, n, inode, Pad(name))
    requires idx == FirstFree(entries, 0, n) && !TerminatorSafe(entries, idx, name)
    ensures idx + 1 < n && LiveAt(entries, n, idx + 1) && Examined(n) <= |entries|
    ensures var k := entries[idx + 1].name;
      k != Pad(name) && k != NO_NAME && Lookup(Inserted(entries, idx, inode, name), n, k) != Lookup(entries, n, k)
  {
    TidyRoom(entries, n);
    NextInSector(idx, |entries|);
    assert entries[idx + 1].inode != 0 && entries[idx + 1] != EMPTY;
    var e, k := Inserted(entries, idx, inode, name), entries[idx + 1].name;
    LookupIsMap(entries, n, k);
    assert LiveAt(entries, n, idx + 1);
    assert entries[idx] == EMPTY;
    StrCpyPads(name);
    assert e[idx].name == Pad(name) && e[idx + 1].name == k && forall i :: 0 <= i < idx ==> e[i] == entries[i];
    assert NotBefore(e, idx + 1, k) by {
      assert forall i :: 0 <= i < idx ==> entries[i].name != entries[idx + 1].name;
    }
    LookupHit(e, n, k, idx + 1);
  }

  /** The expected answer after an unlink. */
  ghost predicate NameRemoved(entries: seq<DirEntry>, n: nat, e: seq<DirEntry>, n': nat, key: seq<char>)
    requires Examined(n) <= |entries| && Examined(n') <= |e|
  {
    forall k: seq<char> {:trigger Lookup(e, n', k)} :: |k| == MAX_FILENAME_LEN && k != NO_NAME ==>
      Lookup(e, n', k) == if k == key then 0 else Lookup(entries, n, k)
  }

  /** Every live entry but the removed one is among those search still looks at. */
  predicate NothingCutOff(entries: seq<DirEntry>, n: nat, idx: nat)
    requires idx < n <= |entries|
  {
    forall j :: 0 <= j < n && j != idx && entries[j].inode != 0 ==> j < Examined(Shrunk(entries, n, idx))
  }

  lemma LookupAfterRemove(entries: seq<DirEntry>, n: nat, idx: nat, k: seq<char>)
    requires Tidy(entries, n) && LiveAt(entries, n, idx) && |k| == MAX_FILENAME_LEN && k != NO_NAME
    ensures var e, n' := entries[idx := EMPTY], Shrunk(entries, n, idx);
      && Examined(n) <= |entries| && Examined(n') <= |entries|
      && (k == entries[idx].name ==> Lookup(e, n', k) == 0)
      && (forall j: nat :: LiveAt(entries, n, j) && j != idx && entries[j].name == k ==>
            Lookup(e, n', k) == if j < Examined(n') then entries[j].inode else 0)
      && ((forall j: nat :: LiveAt(entries, n, j) ==> entries[j].name != k) ==> Lookup(e, n', k) == 0)
  {
    var e, n' := entries[idx := EMPTY], Shrunk(entries, n, idx);
    TidyRoom(entries, n);
    assert Examined(n') <= |entries|;
    forall j: nat | LiveAt(entries, n, j) && j != idx && entries[j].name == k
      ensures Lookup(e, n', k) == if j < Examined(n') then entries[j].inode else 0
    {
      assert NotBefore(e, j, k);
      if j < Examined(n') {
        LookupHit(e, n', k, j);
      } else {
        LookupMiss(e, n', k, j);
      }
    }
    if forall j: nat :: LiveAt(entries, n, j) && j != idx ==> entries[j].name != k {
      assert NotBefore(e, |e|, k);
      LookupMiss(e, n', k, |e|);
    }
  }

  /** After an unlink the name is gone and every other name is unchanged, exactly when the shrinking
      cuts no live entry off. */
  lemma UnlinkRemovesName(entries: seq<DirEntry>, n: nat, idx: nat)
    requires Tidy(entries, n) && LiveAt(entries, n, idx)
    ensures var e, n' := entries[idx := EMPTY], Shrunk(entries, n, idx);
      && Examined(n) <= |entries| && Examined(n') <= |entries|
      && (NothingCutOff(entries, n, idx) <==> NameRemoved(entries, n, e, n', entries[idx].name))
  {
    var e, n', key := entries[idx := EMPTY], Shrunk(entries, n, idx), entries[idx].name;
    LookupAfterRemove(entries, n, idx, key);
    if NothingCutOff(entries, n, idx) {
      forall k: seq<char> | |k| == MAX_FILENAME_LEN && k != NO_NAME
        ensures Lookup(e, n', k) == if k == key then 0 else Lookup(entries, n, k)
      {
        LookupAfterRemove(entries, n, idx, k);
        LookupIsMap(entries, n, k);
      }
    } else {
      var j: nat :| j < n && j != idx && entries[j].inode != 0 && j >= Examined(n');
      LookupAfterRemove(entries, n, idx, entries[j].name);
      LookupIsMap(entries, n, entries[j].name);
      assert LiveAt(entries, n, j);
    }
  }

  /** An entry that is not the last can always be unlinked, and so can the last when no hole comes
      before a live entry. */
  lemma {:induction false} DenseBefore(entries: seq<DirEntry>, i: nat)
    requires i <= |entries| && forall a, b :: 0 <= a < b < i && entries[b].inode != 0 ==> entries[a].inode != 0
    ensures forall j :: 0 <= j < i && entries[j].inode != 0 ==> j < LiveBefore(entries, i)
    ensures LiveBefore(entries, i) < i ==> entries[i - 1].inode == 0
  {
    if i > 0 { DenseBefore(entries, i - 1); }
  }

  // ----- Runs

  datatype State = State(entries: seq<DirEntry>, n: nat)

  datatype Op = Add(inode: nat, name: seq<char>) | Remove(inode: nat)

  /** No live entry but the removed one lies at or past the new end. */
  predicate KeepsAll(entries: seq<DirEntry>, n: nat, idx: nat)
    requires idx < n <= |entries|
  {
    forall j :: 0 <= j < n && j != idx && entries[j].inode != 0 ==> j < Shrunk(entries, n, idx)
  }

  ghost predicate Enabled(s: State, op: Op)
    requires Tidy(s.entries, s.n)
  {
    match op
    case Add(inode, name) =>
      && s.n < |s.entries| && |name| <= MAX_FILENAME_LEN && NewName(s.entries, s.n, inode, Pad(name))
      && TerminatorSafe(s.entries, FirstFree(s.entries, 0, s.n), name)
    case Remove(inode) =>
      var idx := FindInode(s.entries, 0, s.n, inode);
      inode != 0 && idx < s.n && KeepsAll(s.entries, s.n, idx)
  }

  lemma RemoveKeepsTidy(entries: seq<DirEntry>, n: nat, idx: nat)
    requires Tidy(entries, n) && LiveAt(entries, n, idx) && KeepsAll(entries, n, idx)
    ensures Tidy(entries[idx := EMPTY], Shrunk(entries, n, idx))
  {
  }

  ghost function Step(s: State, op: Op): (t: State)
    requires Tidy(s.entries, s.n)
    ensures Tidy(t.entries, t.n)
  {
    if !Enabled(s, op) then s else
    match op
    case Add(inode, name) =>
      var idx := FirstFree(s.entries, 0, s.n);
      InsertKeepsTidy(s.entries, s.n, inode, name, idx);
      State(Inserted(s.entries, idx, inode, name), if idx == s.n then s.n + 1 else s.n)
    case Remove(inode) =>
      var idx := FindInode(s.entries, 0, s.n, inode);
      RemoveKeepsTidy(s.entries, s.n, idx);
      State(s.entries[idx := EMPTY], Shrunk(s.entries, s.n, idx))
  }

  ghost function Exec(s: State, ops: seq<Op>): (t: State)
    requires Tidy(s.entries, s.n)
    ensures Tidy(t.entries, t.n)
  {
    if ops == [] then s else Step(Exec(s, ops[..|ops| - 1]), ops[|ops| - 1])
  }

  /** The same run on a plain finite map from names to inodes. */
  ghost function MapStep(s: State, op: Op, m: map<seq<char>, nat>): map<seq<char>, nat>
    requires Tidy(s.entries, s.n)
  {
    if !Enabled(s, op) then m else
    match op
    case Add(inode, name) => m[Pad(name) := inode]
    case Remove(inode) => map k | k in m && m[k] != inode :: m[k]
  }

  ghost function MapExec(s: State, ops: seq<Op>, m: map<seq<char>, nat>): map<seq<char>, nat>
    requires Tidy(s.entries, s.n)
  {
    if ops == [] then m
    else MapStep(Exec(s, ops[..|ops| - 1]), ops[|ops| - 1], MapExec(s, ops[..|ops| - 1], m))
  }

  function Get(m: map<seq<char>, nat>, k: seq<char>): nat {
    if k in m then m[k] else 0
  }

  ghost predicate Agrees(s: State, m: map<seq<char>, nat>)
    requires Tidy(s.entries, s.n) && Examined(s.n) <= |s.entries|
  {
    forall k: seq<char> {:trigger Get(m, k)} :: |k| == MAX_FILENAME_LEN && k != NO_NAME ==> Lookup(s.entries, s.n, k) == Get(m, k)
  }

  lemma AddAgrees(s: State, op: Op, m: map<seq<char>, nat>)
    requires Tidy(s.entries, s.n) && Examined(s.n) <= |s.entries| && Agrees(s, m) && op.Add? && Enabled(s, op)
    ensures Examined(Step(s, op).n) <= |Step(s, op).entries| && Agrees(Step(s, op), MapStep(s, op, m))
  {
    var t, m' := Step(s, op), MapStep(s, op, m);
    TidyRoom(t.entries, t.n);
    CreateAddsName(s.entries, s.n, op.inode, op.name, FirstFree(s.entries, 0, s.n));
    forall k: seq<char> | |k| == MAX_FILENAME_LEN && k != NO_NAME ensures Lookup(t.entries, t.n, k) == Get(m', k) {
      assert Lookup(s.entries, s.n, k) == Get(m, k);
    }
  }

  lemma RemoveAgrees(s: State, op: Op, m: map<seq<char>, nat>)
    requires Tidy(s.entries, s.n) && Examined(s.n) <= |s.entries| && Agrees(s, m) && op.Remove? && Enabled(s, op)
    ensures Examined(Step(s, op).n) <= |Step(s, op).entries| && Agrees(Step(s, op), MapStep(s, op, m))
  {
    var t, m' := Step(s, op), MapStep(s, op, m);
    TidyRoom(t.entries, t.n);
    var idx := FindInode(s.entries, 0, s.n, op.inode);
    UnlinkRemovesName(s.entries, s.n, idx);
    forall k: seq<char> | |k| == MAX_FILENAME_LEN && k != NO_NAME ensures Lookup(t.entries, t.n, k) == Get(m', k) {
      assert Lookup(s.entries, s.n, k) == Get(m, k);
      LookupIsMap(s.entries, s.n, k);
      assert LiveAt(s.entries, s.n, idx);
    }
  }

  lemma StepAgrees(s: State, op: Op, m: map<seq<char>, nat>)
    requires Tidy(s.entries, s.n) && Examined(s.n) <= |s.entries| && Agrees(s, m)
    ensures Examined(Step(s, op).n) <= |Step(s, op).entries| && Agrees(Step(s, op), MapStep(s, op, m))
  {
    if Enabled(s, op) {
      if op.Add? {
        AddAgrees(s, op, m);
      } else {
        RemoveAgrees(s, op, m);
      }
    }
  }

  /** Over every run of creates and unlinks that do no harm, what search finds is what the finite map
      holds. */
  lemma {:induction false} DirectoryIsMap(s: State, ops: seq<Op>, m: map<seq<char>, nat>)
    requires Tidy(s.entries, s.n) && Examined(s.n) <= |s.entries| && Agrees(s, m)
    ensures Examined(Exec(s, ops).n) <= |Exec(s, ops).entries| && Agrees(Exec(s, ops), MapExec(s, ops, m))
  {
    if ops != [] {
      DirectoryIsMap(s, ops[..|ops| - 1], m);
      StepAgrees(Exec(s, ops[..|ops| - 1]), ops[|ops| - 1], MapExec(s, ops[..|ops| - 1], m));
    }
  }

  /** A name shorter than 12 characters can always be added while there is room, and is then found. */
  lemma ShortNameIsAdded(s: State, inode: nat, name: seq<char>)
    requires Tidy(s.entries, s.n) && s.n < |s.entries| && |name| < 12 && NewName(s.entries, s.n, inode, Pad(name))
    ensures var t := Step(s, Add(inode, name));
      Examined(t.n) <= |t.entries| && Lookup(t.entries, t.n, Pad(name)) == inode
  {
    CreateAddsName(s.entries, s.n, inode, name, FirstFree(s.entries, 0, s.n));
  }

  /** An entry that is not the last can always be removed, and its name is then not found. */
  lemma InnerEntryIsRemoved(s: State, idx: nat)
    requires Tidy(s.entries, s.n) && LiveAt(s.entries, s.n, idx) && idx + 1 < s.n
    ensures var t := Step(s, Remove(s.entries[idx].inode));
      t.n == s.n && t.entries == s.entries[idx := EMPTY] && Examined(t.n) <= |t.entries| && Lookup(t.entries, t.n, s.entries[idx].name) == 0
  {
    var i := FindInode(s.entries, 0, s.n, s.entries[idx].inode);
    assert i == idx;
    LookupAfterRemove(s.entries, s.n, idx, s.entries[idx].name);
  }

  // ----- The two failures, on concrete directories

  /** One sector with the given first entries. */
  function OneSector(first: seq<DirEntry>): (r: seq<DirEntry>)
    requires |first| <= 32
    ensures |r| == 32 && forall i :: 0 <= i < 32 ==> r[i] == if i < |first| then first[i] else EMPTY
  {
    seq(32, i requires 0 <= i < 32 => if i < |first| then first[i] else EMPTY)
  }

  ghost predicate ProperName(k: seq<char>) {
    |k| == MAX_FILENAME_LEN && k != NO_NAME
  }

  /** Names a, b and c in slots 0, 3 and 4, holes between; c, the last entry, is unlinked: the size
      drops to two entries and b is no longer found. */
  lemma ShrinkLosesName(a: seq<char>, b: seq<char>, c: seq<char>, entries: seq<DirEntry>)
    requires ProperName(a) && ProperName(b) && ProperName(c) && a != b && a != c && b != c
    requires entries == OneSector([DirEntry(5, a), EMPTY, EMPTY, DirEntry(6, b), DirEntry(7, c)])
    ensures Tidy(entries, 5) && LiveAt(entries, 5, 4) && Shrunk(entries, 5, 4) == 2 && !NothingCutOff(entries, 5, 4)
    ensures Lookup(entries, 5, b) == 6 && Lookup(entries[4 := EMPTY], 2, b) == 0
  {
    assert entries[0] == DirEntry(5, a) && entries[1] == EMPTY && entries[2] == EMPTY;
    assert entries[3] == DirEntry(6, b) && entries[4] == DirEntry(7, c);
    assert LiveBefore(entries, 2) == 1 && LiveBefore(entries, 4) == 2;
    LookupHit(entries, 5, b, 3);
    LookupMiss(entries[4 := EMPTY], 2, b, 3);
  }

  /** A hole before an entry with inode 5 gets a 12-character name: the entry then resolves to inode 0. */
  lemma LongNameHitsNext(next: seq<char>, name: seq<char>, entries: seq<DirEntry>)
    requires ProperName(next) && ProperName(name) && name != next && entries == OneSector([EMPTY, DirEntry(5, next)])
    ensures Tidy(entries, 2) && FirstFree(entries, 0, 2) == 0 && !TerminatorSafe(entries, 0, name)
    ensures Lookup(entries, 2, next) == 5 && Lookup(Inserted(entries, 0, 6, name), 2, next) == 0
  {
    assert entries[0] == EMPTY && entries[1] == DirEntry(5, next);
    LookupHit(entries, 2, next, 1);
    var e := Inserted(entries, 0, 6, name);
    assert e[0].name == name && e[1] == DirEntry(0, next);
    LookupHit(e, 2, next, 1);
  }

  ghost predicate NotBefore(entries: seq<DirEntry>, m: nat, key: seq<char>) {
    forall k :: 0 <= k < m && k < |entries| ==> entries[k].name != key
  }

  lemma LookupHit(entries: seq<DirEntry>, n: nat, key: seq<char>, m: nat)
    requires Examined(n) <= |entries| && m < Examined(n) && NotBefore(entries, m, key) && entries[m].name == key
    ensures Lookup(entries, n, key) == entries[m].inode
  {
    var r := Find(entries, 0, Examined(n), key);
    assert r == m;
  }

  lemma LookupMiss(entries: seq<DirEntry>, n: nat, key: seq<char>, m: nat)
    requires Examined(n) <= |entries| && m >= Examined(n) && NotBefore(entries, m, key)
    ensures Lookup(entries, n, key) == 0
  {
  }

}
