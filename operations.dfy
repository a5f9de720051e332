/** The tree operations of fs/operations.c (lookup_sub_node, is_dir_empty,
    lookup, create, delete, init_fs) over the inode table of FsState. Locks
    are left out: each operation runs alone. */
module Operations {
  import opened FsState
  import opened Paths

  /** A live entry carrying `name`: what lookup_sub_node's test accepts. */
  predicate Matches(e: DirEntry, name: string) {
    Live(e) && e.name == name
  }

  /** The index of the first entry at or after `from` that matches `name`, or -1. */
  function FirstMatch(es: seq<DirEntry>, name: string, from: nat): (r: int)
    requires from <= |es|
    ensures r == -1 <==> forall j :: from <= j < |es| ==> !Matches(es[j], name)
    ensures r != -1 ==> from <= r < |es| && Matches(es[r], name)
    ensures r != -1 ==> forall j :: from <= j < r ==> !Matches(es[j], name)
    decreases |es| - from
  {
    if from == |es| then -1
    else if Matches(es[from], name) then from
    else FirstMatch(es, name, from + 1)
  }

  /** lookup_sub_node on values: the inumber of the first live entry named
      `name`; FAIL when there is none or when the entries pointer is NULL. */
  function SubNode(name: string, d: Data): (r: int)
    ensures r == FAIL <==> d.Null? || forall j :: 0 <= j < |d.entries| ==> !Matches(d.entries[j], name)
    ensures r != FAIL ==> exists j :: (0 <= j < |d.entries| && Matches(d.entries[j], name) && d.entries[j].inumber == r
      && forall k :: 0 <= k < j ==> !Matches(d.entries[k], name))
  {
    if d.Null? then FAIL
    else
      var j := FirstMatch(d.entries, name, 0);
      if j == -1 then FAIL else d.entries[j].inumber
  }

  /** Every entry of a directory is free. */
  predicate AllFree(es: seq<DirEntry>) {
    forall j :: 0 <= j < |es| ==> es[j].inumber == FREE_INODE
  }

  /** The payload lookup holds after inode_get(c): that of slot c when c is in
      use; otherwise inode_get fails and leaves the previous payload `d`. */
  function DataAt(s: Table, c: int, d: Data): Data {
    if Used(s, c) then s[c].data else d
  }

  predicate EntriesShaped(d: Data) {
    d.DirEntries? ==> |d.entries| == MAX_DIR_ENTRIES
  }

  /** Entry j of slot i, where slot i has entries. */
  function EntryAt(s: Table, i: int, j: int): DirEntry
    requires 0 <= i < |s| && s[i].data.DirEntries? && 0 <= j < |s[i].data.entries|
  {
    s[i].data.entries[j]
  }

  /** Entry j of slot i is in use: an edge of the tree. */
  predicate IsEdge(s: Table, i: int, j: int) {
    0 <= i < |s| && s[i].data.DirEntries? && 0 <= j < |s[i].data.entries| && Live(EntryAt(s, i, j))
  }

  /** Every edge leads to an inode in use other than the root. */
  ghost predicate RefsOk(s: Table) {
    forall i, j :: IsEdge(s, i, j) ==> EntryAt(s, i, j).inumber != FS_ROOT && Used(s, EntryAt(s, i, j).inumber)
  }

  /** The live entries of one directory carry distinct names. */
  ghost predicate UniqueNames(s: Table) {
    forall i, j1, j2 :: IsEdge(s, i, j1) && IsEdge(s, i, j2) && EntryAt(s, i, j1).name == EntryAt(s, i, j2).name ==> j1 == j2
  }

  /** No inode is the target of two edges. */
  ghost predicate SingleParent(s: Table) {
    forall i1, j1, i2, j2 :: IsEdge(s, i1, j1) && IsEdge(s, i2, j2) && EntryAt(s, i1, j1).inumber == EntryAt(s, i2, j2).inumber
      ==> i1 == i2 && j1 == j2
  }

  /** A rank per slot that grows by one along every edge, so that no chain
      of entries leads back to where it started. */
  ghost predicate Ranked(s: Table, rank: seq<nat>) {
    |rank| == |s|
    && forall i, j :: IsEdge(s, i, j) ==>
      0 <= EntryAt(s, i, j).inumber < |s| && rank[EntryAt(s, i, j).inumber] == rank[i] + 1
  }

  /** The entries form a forest: some ranking exists. */
  ghost predicate Acyclic(s: Table) {
    exists rank: seq<nat> :: Ranked(s, rank)
  }

  /** The shape every table built by init_fs, create and delete keeps: a
      tree of directories hanging from FS_ROOT (plus any inode create
      leaked), with unique names per directory and at most one parent per
      inode. */
  ghost predicate WellFormed(s: Table) {
    Shaped(s) && IsDir(s, FS_ROOT) && RefsOk(s) && UniqueNames(s) && SingleParent(s) && Acyclic(s)
  }

  /** The loop of lookup: from inode `cur` with payload `d`, look each
      component up in turn; FAIL as soon as one is missing, otherwise the
      inumber reached by the last one. */
  function Walk(s: Table, cur: int, d: Data, comps: seq<string>): (r: int)
    ensures comps == [] ==> r == cur
    ensures RefsOk(s) && Used(s, cur) && d == s[cur].data ==> r == FAIL || Used(s, r)
    ensures RefsOk(s) && Used(s, cur) && d == s[cur].data && comps != [] && r != FAIL ==> r != FS_ROOT
    decreases |comps|
  {
    if comps == [] then cur
    else
      var c := SubNode(comps[0], d);
      if c == FAIL then FAIL
      else
        assert RefsOk(s) && Used(s, cur) && d == s[cur].data ==> IsEdge(s, cur, FirstMatch(d.entries, comps[0], 0));
        Walk(s, c, DataAt(s, c, d), comps[1..])
  }

  /** lookup on values: the walk from the root over the components strtok finds. */
  function Resolve(s: Table, path: string): int {
    Walk(s, FS_ROOT, DataAt(s, FS_ROOT, Null), Tokens(path))
  }

  /** create on values. The table and the result. When dir_add_entry fails
      the inode just allocated is kept, as the C code does. */
  function CreateSpec(s: Table, name: string, nodeType: NodeType): (r: (Table, int))
    requires Shaped(s) && PathName(name)
    ensures r.1 == SUCCESS || r.1 == FAIL
    ensures Shaped(r.0)
  {
    var (parent, child) := Split(name);
    var p := Resolve(s, parent);
    if p == FAIL || !IsDir(s, p) || SubNode(child, s[p].data) != FAIL then (s, FAIL)
    else
      var (s1, n) := Allocate(s, nodeType);
      if n == FAIL then (s, FAIL)
      else
        var (s2, res) := AddEntry(s1, p, n, child);
        if res == FAIL then (s1, FAIL) else (s2, SUCCESS)
  }

  /** Whether delete refuses the child `c` of a resolved directory: a
      directory for which is_dir_empty fails. */
  predicate NonEmptyDir(s: Table, c: int) {
    IsDir(s, c) && (s[c].data.Null? || !AllFree(s[c].data.entries))
  }

  /** delete on values. */
  function DeleteSpec(s: Table, name: string): (r: (Table, int))
    requires Shaped(s) && PathName(name)
    ensures r.1 == SUCCESS || r.1 == FAIL
    ensures Shaped(r.0)
  {
    var (parent, child) := Split(name);
    var p := Resolve(s, parent);
    if p == FAIL || !IsDir(s, p) then (s, FAIL)
    else
      var c := SubNode(child, s[p].data);
      if c == FAIL || NonEmptyDir(s, c) then (s, FAIL)
      else
        var (s1, r1) := ResetEntry(s, p, c);
        if r1 == FAIL then (s, FAIL)
        else
          var (s2, r2) := Release(s1, c);
          if r2 == FAIL then (s1, FAIL) else (s2, SUCCESS)
  }

  /** The table init_fs leaves: every slot free but the root directory. */
  function InitialTable(): (s: Table)
    ensures Shaped(s)
  {
    EmptyTable()[FS_ROOT := NewInode(TDirectory)]
  }

  /** lookup_sub_node. */
  method LookupSubNode(name: string, entries: Data) returns (r: int)
    requires EntriesShaped(entries)
    ensures r == SubNode(name, entries)
  {
    if entries.Null? {
      return FAIL;
    }
    var es := entries.entries;
    for i := 0 to MAX_DIR_ENTRIES
      invariant forall k :: 0 <= k < i ==> !Matches(es[k], name)
    {
      if es[i].inumber != FREE_INODE && es[i].name == name {
        assert FirstMatch(es, name, 0) == i;
        return es[i].inumber;
      }
    }
    return FAIL;
  }

  /** is_dir_empty: SUCCESS exactly when every entry is free; FAIL for NULL. */
  method IsDirEmpty(dirEntries: Data) returns (r: int)
    requires EntriesShaped(dirEntries)
    ensures r == SUCCESS || r == FAIL
    ensures r == SUCCESS <==> dirEntries.DirEntries? && AllFree(dirEntries.entries)
  {
    if dirEntries.Null? {
      return FAIL;
    }
    var es := dirEntries.entries;
    for i := 0 to MAX_DIR_ENTRIES
      invariant forall k :: 0 <= k < i ==> es[k].inumber == FREE_INODE
    {
      if es[i].inumber != FREE_INODE {
        return FAIL;
      }
    }
    return SUCCESS;
  }

  /** lookup: walks the components of `name` from the root. */
  method Lookup(t: InodeTable, name: string) returns (r: int)
    requires t.Valid()
    ensures r == Resolve(t.slots[..], name)
  {
    ghost var s := t.slots[..];
    var comps := Tokens(name);
    var cur := FS_ROOT;
    var res, nType, data := t.InodeGet(cur);
    if res == FAIL {
      data := Null;
    }
    var i := 0;
    while i < |comps|
      invariant 0 <= i <= |comps|
      invariant EntriesShaped(data)
      invariant Walk(s, cur, data, comps[i..]) == Resolve(s, name)
    {
      assert comps[i..][1..] == comps[i + 1..];
      var c := LookupSubNode(comps[i], data);
      if c == FAIL {
        return FAIL;
      }
      cur := c;
      var d: Data;
      res, nType, d := t.InodeGet(cur);
      if res == SUCCESS {
        data := d;
      }
      i := i + 1;
    }
    return cur;
  }

  /** The NUL-terminated copy of `name` that create and delete split. */
  method CopyName(name: string) returns (buf: array<char>)
    requires PathName(name)
    ensures fresh(buf)
    ensures buf[..] == name + ['\0']
    ensures '\0' in buf[..] && Strlen(buf[..]) == |name| && buf[..Strlen(buf[..])] == name
  {
    buf := new char[|name| + 1](i => if 0 <= i < |name| then name[i] else '\0');
    assert buf[..] == name + ['\0'];
    assert buf[|name|] in buf[..];
    var n := Strlen(buf[..]);
    assert buf[..n] == name;
  }

  /** create. */
  method Create(t: InodeTable, name: string, nodeType: NodeType) returns (res: int)
    requires t.Valid() && PathName(name) && nodeType != TNone
    modifies t.slots
    ensures t.Valid()
    ensures (t.slots[..], res) == CreateSpec(old(t.slots[..]), name, nodeType)
  {
    ghost var s := t.slots[..];
    var nameCopy := CopyName(name);
    var parentName, childName := SplitParentChildFromPath(nameCopy);
    assert (parentName, childName) == Split(name);
    var parentInumber := Lookup(t, parentName);
    if parentInumber == FAIL {
      return FAIL;
    }
    var r, pType, pdata := t.InodeGet(parentInumber);
    if pType != TDirectory {
      return FAIL;
    }
    assert IsDir(s, parentInumber) && pdata == s[parentInumber].data;
    var existing := LookupSubNode(childName, pdata);
    if existing != FAIL {
      return FAIL;
    }
    // create node and add entry to folder that contains new node
    var childInumber := t.InodeCreate(nodeType);
    if childInumber == FAIL {
      return FAIL;
    }
    ghost var s1 := t.slots[..];
    assert (s1, childInumber) == Allocate(s, nodeType);
    res := t.DirAddEntry(parentInumber, childInumber, childName);
    if res == FAIL {
      assert (t.slots[..], res) == (s1, FAIL);
      return FAIL;
    }
    return SUCCESS;
  }

  /** delete. */
  method Delete(t: InodeTable, name: string) returns (res: int)
    requires t.Valid() && PathName(name)
    modifies t.slots
    ensures t.Valid()
    ensures (t.slots[..], res) == DeleteSpec(old(t.slots[..]), name)
  {
    ghost var s := t.slots[..];
    var nameCopy := CopyName(name);
    var parentName, childName := SplitParentChildFromPath(nameCopy);
    assert (parentName, childName) == Split(name);
    var parentInumber := Lookup(t, parentName);
    if parentInumber == FAIL {
      return FAIL;
    }
    var r, pType, pdata := t.InodeGet(parentInumber);
    if pType != TDirectory {
      return FAIL;
    }
    assert IsDir(s, parentInumber) && pdata == s[parentInumber].data;
    var childInumber := LookupSubNode(childName, pdata);
    if childInumber == FAIL {
      return FAIL;
    }
    var cr, cType, cdata := t.InodeGet(childInumber);
    if cType == TDirectory {
      var empty := IsDirEmpty(cdata);
      if empty == FAIL {
        assert NonEmptyDir(s, childInumber);
        return FAIL;
      }
    }
    assert !NonEmptyDir(s, childInumber);
    // remove entry from folder that contained deleted node
    res := t.DirResetEntry(parentInumber, childInumber);
    if res == FAIL {
      return FAIL;
    }
    ghost var s1 := t.slots[..];
    assert (s1, res) == ResetEntry(s, parentInumber, childInumber);
    res := t.InodeDelete(childInumber);
    if res == FAIL {
      return FAIL;
    }
    return SUCCESS;
  }

  /** init_fs: the table is cleared and the root directory allocated. The
      process exits (`fatal`) when the first inode is not FS_ROOT, which
      cannot happen on a cleared table. */
  method InitFs(t: InodeTable) returns (fatal: bool)
    requires t.slots.Length == INODE_TABLE_SIZE
    modifies t.slots
    ensures !fatal
    ensures t.Valid() && t.slots[..] == InitialTable()
  {
    t.InodeTableInit();
    var root := t.InodeCreate(TDirectory);
    if root != FS_ROOT {
      return true;
    }
    assert t.slots[..] == InitialTable();
    return false;
  }
}
