/** The TecnicoFS inode table (state.c / state.h of the repository, which are
    not part of this model). The table is a fixed array of inode slots. Each slot
    has a node type, where TNone marks a free slot. A directory slot also holds
    its fixed-size array of directory entries. The operations below get the
    contracts that fs/operations.c relies on. */
module FsState {

  const INODE_TABLE_SIZE: int := 50
  const MAX_DIR_ENTRIES: int := 20
  /** Inumber stored in a directory entry that is not in use. */
  const FREE_INODE: int := -1
  /** Inumber of the root directory. */
  const FS_ROOT: int := 0
  const SUCCESS: int := 0
  const FAIL: int := -1

  datatype NodeType = TNone | TFile | TDirectory

  datatype DirEntry = DirEntry(name: string, inumber: int)

  /** The payload union of an inode: a directory points at its entries, every
      other slot holds a NULL pointer. */
  datatype Data = Null | DirEntries(entries: seq<DirEntry>)

  datatype Inode = Inode(nodeType: NodeType, data: Data)

  /** The value held by the table: one inode per slot. */
  type Table = seq<Inode>

  const FreeEntry: DirEntry := DirEntry("", FREE_INODE)
  const FreeSlot: Inode := Inode(TNone, Null)

  /** A directory entry in use. */
  predicate Live(e: DirEntry) {
    e.inumber != FREE_INODE
  }

  /** The inode that inode_create puts in the slot it allocates. */
  function NewInode(t: NodeType): (n: Inode)
    ensures n.nodeType == t
    ensures t == TDirectory ==> n.data.DirEntries? && |n.data.entries| == MAX_DIR_ENTRIES
    ensures t == TDirectory ==> forall j :: 0 <= j < |n.data.entries| ==> !Live(n.data.entries[j])
    ensures t != TDirectory ==> n.data == Null
  {
    Inode(t, if t == TDirectory then DirEntries(seq(MAX_DIR_ENTRIES, _ => FreeEntry)) else Null)
  }

  predicate Used(s: Table, i: int) {
    0 <= i < |s| && s[i].nodeType != TNone
  }

  predicate IsDir(s: Table, i: int) {
    0 <= i < |s| && s[i].nodeType == TDirectory
  }

  /** A directory owns exactly MAX_DIR_ENTRIES entries; any other slot owns none. */
  predicate SlotShaped(n: Inode) {
    if n.nodeType == TDirectory then n.data.DirEntries? && |n.data.entries| == MAX_DIR_ENTRIES
    else n.data == Null
  }

  predicate Shaped(s: Table) {
    |s| == INODE_TABLE_SIZE && forall i :: 0 <= i < |s| ==> SlotShaped(s[i])
  }

  /** The table after inode_table_init: every slot free. */
  function EmptyTable(): (s: Table)
    ensures Shaped(s)
    ensures forall i :: 0 <= i < |s| ==> s[i] == FreeSlot
  {
    seq(INODE_TABLE_SIZE, _ => FreeSlot)
  }

  /** The lowest free slot at or after `from`, or FAIL when there is none. */
  function FirstFree(s: Table, from: nat): (r: int)
    requires from <= |s|
    ensures r == FAIL <==> forall i :: from <= i < |s| ==> Used(s, i)
    ensures r != FAIL ==> from <= r < |s| && !Used(s, r)
    ensures r != FAIL ==> forall i :: from <= i < r ==> Used(s, i)
    decreases |s| - from
  {
    if from == |s| then FAIL
    else if s[from].nodeType == TNone then assert !Used(s, from); from
    else FirstFree(s, from + 1)
  }

  /** The lowest index at or after `from` whose entry carries `inumber`, or -1. */
  function FirstWith(es: seq<DirEntry>, inumber: int, from: nat): (r: int)
    requires from <= |es|
    ensures r == -1 <==> forall j :: from <= j < |es| ==> es[j].inumber != inumber
    ensures r != -1 ==> from <= r < |es| && es[r].inumber == inumber
    ensures r != -1 ==> forall j :: from <= j < r ==> es[j].inumber != inumber
    decreases |es| - from
  {
    if from == |es| then -1
    else if es[from].inumber == inumber then from
    else FirstWith(es, inumber, from + 1)
  }

  /** inode_create on the table value: the lowest free slot becomes a fresh
      inode of type `t`; FAIL, with nothing changed, when the table is full. */
  function Allocate(s: Table, t: NodeType): (r: (Table, int))
    ensures r.1 == FAIL <==> forall i :: 0 <= i < |s| ==> Used(s, i)
    ensures r.1 == FAIL ==> r.0 == s
    ensures r.1 != FAIL ==> 0 <= r.1 < |s| && !Used(s, r.1) && r.0 == s[r.1 := NewInode(t)]
    ensures r.1 != FAIL ==> forall i :: 0 <= i < r.1 ==> Used(s, i)
    ensures Shaped(s) ==> Shaped(r.0)
  {
    var i := FirstFree(s, 0);
    if i == FAIL then (s, FAIL) else (s[i := NewInode(t)], i)
  }

  /** dir_add_entry on the table value: the first free entry of directory
      `inumber` becomes (`name`, `sub`). FAIL, with nothing changed, when
      `inumber` is not a directory or the directory is full. */
  function AddEntry(s: Table, inumber: int, sub: int, name: string): (r: (Table, int))
    requires Shaped(s)
    ensures r.1 == SUCCESS || r.1 == FAIL
    ensures r.1 == FAIL <==> !IsDir(s, inumber) || forall j :: 0 <= j < MAX_DIR_ENTRIES ==> Live(s[inumber].data.entries[j])
    ensures r.1 == FAIL ==> r.0 == s
    ensures r.1 == SUCCESS ==> Shaped(r.0) && |r.0| == |s|
    ensures r.1 == SUCCESS ==> forall i :: 0 <= i < |s| && i != inumber ==> r.0[i] == s[i]
  {
    if !IsDir(s, inumber) then (s, FAIL)
    else
      var es := s[inumber].data.entries;
      var j := FirstWith(es, FREE_INODE, 0);
      if j == -1 then (s, FAIL)
      else (s[inumber := Inode(TDirectory, DirEntries(es[j := DirEntry(name, sub)]))], SUCCESS)
  }

  /** dir_reset_entry on the table value: the first entry of directory
      `inumber` that refers to `sub` is made free. FAIL, with nothing changed,
      when `inumber` is not a directory or no entry refers to `sub`. */
  function ResetEntry(s: Table, inumber: int, sub: int): (r: (Table, int))
    requires Shaped(s)
    ensures r.1 == SUCCESS || r.1 == FAIL
    ensures r.1 == FAIL <==> !IsDir(s, inumber) || forall j :: 0 <= j < MAX_DIR_ENTRIES ==> s[inumber].data.entries[j].inumber != sub
    ensures r.1 == FAIL ==> r.0 == s
    ensures r.1 == SUCCESS ==> Shaped(r.0) && |r.0| == |s|
    ensures r.1 == SUCCESS ==> forall i :: 0 <= i < |s| && i != inumber ==> r.0[i] == s[i]
  {
    if !IsDir(s, inumber) then (s, FAIL)
    else
      var es := s[inumber].data.entries;
      var j := FirstWith(es, sub, 0);
      if j == -1 then (s, FAIL)
      else (s[inumber := Inode(TDirectory, DirEntries(es[j := FreeEntry]))], SUCCESS)
  }

  /** inode_delete on the table value: slot `inumber` becomes free. FAIL, with
      nothing changed, when the slot is out of range or already free. */
  function Release(s: Table, inumber: int): (r: (Table, int))
    ensures r.1 == SUCCESS || r.1 == FAIL
    ensures r.1 == FAIL <==> !Used(s, inumber)
    ensures r.1 == FAIL ==> r.0 == s
    ensures r.1 == SUCCESS ==> |r.0| == |s| && r.0[inumber] == FreeSlot
    ensures r.1 == SUCCESS ==> forall i :: 0 <= i < |s| && i != inumber ==> r.0[i] == s[i]
    ensures Shaped(s) ==> Shaped(r.0)
  {
    if !Used(s, inumber) then (s, FAIL) else (s[inumber := FreeSlot], SUCCESS)
  }

  /** The table itself. The array is allocated once; its slots are updated in place. */
  class InodeTable {
    const slots: array<Inode>

    ghost predicate Valid()
      reads this, slots
    {
      slots.Length == INODE_TABLE_SIZE && Shaped(slots[..])
    }

    constructor ()
      ensures Valid() && fresh(slots)
      ensures slots[..] == EmptyTable()
    {
      slots := new Inode[INODE_TABLE_SIZE](_ => FreeSlot);
      new;
      assert slots[..] == EmptyTable();
    }

    /** inode_table_init: every slot becomes free. */
    method InodeTableInit()
      requires slots.Length == INODE_TABLE_SIZE
      modifies slots
      ensures Valid() && slots[..] == EmptyTable()
    {
      for i := 0 to slots.Length
        invariant forall k :: 0 <= k < i ==> slots[k] == FreeSlot
      {
        slots[i] := FreeSlot;
      }
      assert slots[..] == EmptyTable();
    }

    /** inode_create: takes the lowest free slot for a new inode of type `nType`. */
    method InodeCreate(nType: NodeType) returns (inumber: int)
      requires Valid() && nType != TNone
      modifies slots
      ensures Valid()
      ensures (slots[..], inumber) == Allocate(old(slots[..]), nType)
    {
      ghost var s := slots[..];
      for i := 0 to slots.Length
        invariant slots[..] == s
        invariant forall k :: 0 <= k < i ==> Used(s, k)
      {
        if slots[i].nodeType == TNone {
          assert !Used(s, i);
          assert FirstFree(s, 0) == i;
          slots[i] := NewInode(nType);
          return i;
        }
      }
      return FAIL;
    }

    /** inode_get: the type and payload of a slot in use; FAIL for a free or
        out-of-range slot, in which case the outputs carry no information. */
    method InodeGet(inumber: int) returns (res: int, nType: NodeType, data: Data)
      requires Valid()
      ensures res == SUCCESS <==> Used(slots[..], inumber)
      ensures res == SUCCESS || res == FAIL
      ensures res == SUCCESS ==> nType == slots[inumber].nodeType && data == slots[inumber].data
      ensures res == FAIL ==> nType == TNone && data == Null
      ensures data.DirEntries? ==> |data.entries| == MAX_DIR_ENTRIES
    {
      if !(0 <= inumber < slots.Length) || slots[inumber].nodeType == TNone {
        return FAIL, TNone, Null;
      }
      return SUCCESS, slots[inumber].nodeType, slots[inumber].data;
    }

    /** dir_add_entry: records (`subName`, `subInumber`) in the first free entry of directory `inumber`. */
    method DirAddEntry(inumber: int, subInumber: int, subName: string) returns (res: int)
      requires Valid()
      modifies slots
      ensures Valid()
      ensures (slots[..], res) == AddEntry(old(slots[..]), inumber, subInumber, subName)
    {
      if !(0 <= inumber < slots.Length) || slots[inumber].nodeType != TDirectory {
        return FAIL;
      }
      var es := slots[inumber].data.entries;
      for j := 0 to MAX_DIR_ENTRIES
        invariant forall k :: 0 <= k < j ==> es[k].inumber != FREE_INODE
      {
        if es[j].inumber == FREE_INODE {
          slots[inumber] := Inode(TDirectory, DirEntries(es[j := DirEntry(subName, subInumber)]));
          return SUCCESS;
        }
      }
      return FAIL;
    }

    /** dir_reset_entry: frees the first entry of directory `inumber` that refers to `subInumber`. */
    method DirResetEntry(inumber: int, subInumber: int) returns (res: int)
      requires Valid()
      modifies slots
      ensures Valid()
      ensures (slots[..], res) == ResetEntry(old(slots[..]), inumber, subInumber)
    {
      if !(0 <= inumber < slots.Length) || slots[inumber].nodeType != TDirectory {
        return FAIL;
      }
      var es := slots[inumber].data.entries;
      for j := 0 to MAX_DIR_ENTRIES
        invariant forall k :: 0 <= k < j ==> es[k].inumber != subInumber
      {
        if es[j].inumber == subInumber {
          slots[inumber] := Inode(TDirectory, DirEntries(es[j := FreeEntry]));
          return SUCCESS;
        }
      }
      return FAIL;
    }

    /** inode_delete: frees slot `inumber` and drops its payload. */
    method InodeDelete(inumber: int) returns (res: int)
      requires Valid()
      modifies slots
      ensures Valid()
      ensures (slots[..], res) == Release(old(slots[..]), inumber)
    {
      if !(0 <= inumber < slots.Length) || slots[inumber].nodeType == TNone {
        return FAIL;
      }
      slots[inumber] := FreeSlot;
      return SUCCESS;
    }
  }
}
