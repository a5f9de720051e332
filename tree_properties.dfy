/** What create, delete and lookup of fs/operations.c guarantee about the
    tree: the shape they keep (WellFormed), the outcome of each operation,
    and how lookup sees the tree afterwards. */
module TreeProperties {
  import opened FsState
  import opened Paths
  import opened Operations

  /** Every entry of the directory is in use: dir_add_entry has no room. */
  predicate AllLive(es: seq<DirEntry>) {
    forall j :: 0 <= j < |es| ==> Live(es[j])
  }

  /** `s2` is `s` with one more entry: entry j of directory p, free before,
      now names `c` and refers to n, a slot free before that now holds a fresh
      inode of type t. Nothing else differs. */
  ghost predicate Inserted(s: Table, s2: Table, p: int, j: int, n: int, c: string, t: NodeType) {
    Shaped(s) && IsDir(s, p) && 0 <= n < |s| && !Used(s, n) && t != TNone
    && 0 <= j < MAX_DIR_ENTRIES && !Live(s[p].data.entries[j])
    && |s2| == |s| && s2[n] == NewInode(t)
    && s2[p] == Inode(TDirectory, DirEntries(s[p].data.entries[j := DirEntry(c, n)]))
    && forall i :: 0 <= i < |s| && i != p && i != n ==> s2[i] == s[i]
  }

  /** `s2` is `s` with entry j of directory p, which referred to c, made free
      and slot c freed. Nothing else differs. */
  ghost predicate Removed(s: Table, s2: Table, p: int, j: int, c: int) {
    Shaped(s) && IsDir(s, p) && 0 <= j < MAX_DIR_ENTRIES && Live(s[p].data.entries[j])
    && s[p].data.entries[j].inumber == c && Used(s, c) && c != p
    && |s2| == |s| && s2[c] == FreeSlot
    && s2[p] == Inode(TDirectory, DirEntries(s[p].data.entries[j := FreeEntry]))
    && forall i :: 0 <= i < |s| && i != p && i != c ==> s2[i] == s[i]
  }

  /** A slot lookup cannot go past: a file, or a directory with no live entry. */
  predicate DeadEnd(n: Inode) {
    n.data.Null? || AllFree(n.data.entries)
  }

  // ---------------------------------------------------------------------
  // lookup_sub_node

  /** A successful lookup_sub_node follows an edge of the tree. */
  lemma SubNodeEdge(s: Table, i: int, x: string)
    requires 0 <= i < |s| && SubNode(x, s[i].data) != FAIL
    ensures var j := FirstMatch(s[i].data.entries, x, 0);
      IsEdge(s, i, j) && EntryAt(s, i, j).inumber == SubNode(x, s[i].data) && EntryAt(s, i, j).name == x
  {
  }

  /** So, in a table whose edges are sound, it reaches an inode in use other than the root. */
  lemma SubNodeTarget(s: Table, i: int, x: string)
    requires RefsOk(s) && 0 <= i < |s| && SubNode(x, s[i].data) != FAIL
    ensures Used(s, SubNode(x, s[i].data)) && SubNode(x, s[i].data) != FS_ROOT
  {
    SubNodeEdge(s, i, x);
  }

  /** With unique names, the name of an edge finds that very edge. */
  lemma SubNodeOfEdge(s: Table, i: int, j: int)
    requires UniqueNames(s) && IsEdge(s, i, j)
    ensures SubNode(EntryAt(s, i, j).name, s[i].data) == EntryAt(s, i, j).inumber
    ensures FirstMatch(s[i].data.entries, EntryAt(s, i, j).name, 0) == j
  {
    var x := EntryAt(s, i, j).name;
    var m := FirstMatch(s[i].data.entries, x, 0);
    assert Matches(s[i].data.entries[j], x);
    assert IsEdge(s, i, m);
  }

  /** Filling a free entry with (c, n) changes what lookup_sub_node finds for
      `c` only, and only when `c` was absent: it then finds n. */
  lemma SubNodeAfterInsert(es: seq<DirEntry>, j: int, c: string, n: int, x: string)
    requires 0 <= j < |es| && !Live(es[j]) && n != FREE_INODE
    ensures x != c ==> SubNode(x, DirEntries(es[j := DirEntry(c, n)])) == SubNode(x, DirEntries(es))
    ensures SubNode(c, DirEntries(es)) == FAIL ==> SubNode(c, DirEntries(es[j := DirEntry(c, n)])) == n
  {
    var es2 := es[j := DirEntry(c, n)];
    if x != c {
      assert forall k :: 0 <= k < |es| ==> (Matches(es2[k], x) <==> Matches(es[k], x));
      var m := FirstMatch(es, x, 0);
      var m2 := FirstMatch(es2, x, 0);
      assert m == m2;
    }
    if SubNode(c, DirEntries(es)) == FAIL {
      assert Matches(es2[j], c);
      var m2 := FirstMatch(es2, c, 0);
      assert m2 == j;
    }
  }

  /** Freeing entry j changes nothing for a name whose first match refers
      elsewhere. */
  lemma SubNodeAfterReset(es: seq<DirEntry>, j: int, x: string)
    requires 0 <= j < |es| && Live(es[j])
    requires SubNode(x, DirEntries(es)) != es[j].inumber
    ensures SubNode(x, DirEntries(es[j := FreeEntry])) == SubNode(x, DirEntries(es))
  {
    var es2 := es[j := FreeEntry];
    var m := FirstMatch(es, x, 0);
    var m2 := FirstMatch(es2, x, 0);
    if m == -1 {
      assert forall k :: 0 <= k < |es| ==> !Matches(es2[k], x);
    } else {
      assert m != j;
      assert Matches(es2[m], x);
      assert m2 == m;
    }
  }

  // ---------------------------------------------------------------------
  // lookup

  /** An empty path, or one made only of '/', resolves to the root. */
  lemma ResolveAllSlashes(s: Table, path: string)
    requires forall i :: 0 <= i < |path| ==> path[i] == '/'
    ensures Resolve(s, path) == FS_ROOT
  {
    AllSlashesNoTokens(path);
  }

  /** Empty components are skipped: "a//b" resolves like "a/b". */
  lemma ResolveSkipsEmpty(s: Table, a: string, b: string)
    ensures Resolve(s, a + "//" + b) == Resolve(s, a + "/" + b)
  {
    EmptyComponentsSkipped(a, b);
  }

  /** Walking `a + b` walks `a`, then `b` from where `a` ended; FAIL stays FAIL. */
  lemma {:induction false} WalkAppend(s: Table, cur: int, a: seq<string>, b: seq<string>)
    requires RefsOk(s) && Used(s, cur)
    ensures var r := Walk(s, cur, s[cur].data, a);
      Walk(s, cur, s[cur].data, a + b) == if r == FAIL then FAIL else Walk(s, r, s[r].data, b)
    decreases |a|
  {
    if a == [] {
      assert a + b == b;
    } else {
      assert (a + b)[0] == a[0];
      assert (a + b)[1..] == a[1..] + b;
      var c := SubNode(a[0], s[cur].data);
      if c != FAIL {
        SubNodeTarget(s, cur, a[0]);
        WalkAppend(s, c, a[1..], b);
      }
    }
  }

  /** lookup of "a/x" for a plain name x: FAIL when "a" does not resolve,
      otherwise what lookup_sub_node finds for x in what "a" resolves to. */
  lemma ResolveChild(s: Table, a: string, x: string)
    requires RefsOk(s) && Used(s, FS_ROOT)
    requires |x| > 0 && '/' !in x
    ensures var p := Resolve(s, a);
      Resolve(s, a + "/" + x) == if p == FAIL then FAIL else SubNode(x, s[p].data)
  {
    TokensConcat(a, x);
    TokensOfName(x);
    WalkAppend(s, FS_ROOT, Tokens(a), [x]);
    var p := Resolve(s, a);
    if p != FAIL {
      assert [x][1..] == [];
    }
  }

  /** A missing component makes the whole path fail, whatever follows. */
  lemma ResolveMissing(s: Table, a: string, b: string)
    requires RefsOk(s) && Used(s, FS_ROOT)
    requires Resolve(s, a) == FAIL
    ensures Resolve(s, a + "/" + b) == FAIL
  {
    TokensConcat(a, b);
    WalkAppend(s, FS_ROOT, Tokens(a), Tokens(b));
  }

  // ---------------------------------------------------------------------
  // The shape of the tree

  /** The edges after an insertion: the new one, and the old ones unchanged. */
  lemma InsertedEdges(s: Table, s2: Table, p: int, j: int, n: int, c: string, t: NodeType)
    requires Inserted(s, s2, p, j, n, c, t)
    ensures IsEdge(s2, p, j) && EntryAt(s2, p, j) == DirEntry(c, n)
    ensures forall i, k :: IsEdge(s2, i, k) && !(i == p && k == j) ==> IsEdge(s, i, k) && EntryAt(s2, i, k) == EntryAt(s, i, k)
    ensures forall u :: Used(s, u) ==> Used(s2, u)
  {
    assert p != n;
    forall i, k | IsEdge(s2, i, k) && !(i == p && k == j)
      ensures IsEdge(s, i, k) && EntryAt(s2, i, k) == EntryAt(s, i, k)
    {
    }
  }

  /** The edges after a removal are the old ones but the removed one. */
  lemma RemovedEdges(s: Table, s2: Table, p: int, j: int, c: int)
    requires Removed(s, s2, p, j, c)
    ensures forall i, k :: IsEdge(s2, i, k) ==> IsEdge(s, i, k) && EntryAt(s2, i, k) == EntryAt(s, i, k) && !(i == p && k == j)
    ensures forall u :: Used(s, u) && u != c ==> Used(s2, u)
  {
  }

  /** inode_table_init followed by the root's inode_create gives a well-formed tree. */
  lemma InitialWellFormed()
    ensures WellFormed(InitialTable())
  {
    var s := InitialTable();
    forall i, j | IsEdge(s, i, j)
      ensures false
    {
    }
    var rank: seq<nat> := seq(|s|, _ => 0);
    assert Ranked(s, rank);
  }

  /** An inode allocated but not linked keeps the tree well-formed. */
  lemma AllocatePreserves(s: Table, n: int, t: NodeType)
    requires WellFormed(s) && 0 <= n < |s| && !Used(s, n) && t != TNone
    ensures WellFormed(s[n := NewInode(t)])
  {
    var s2 := s[n := NewInode(t)];
    forall i, k | IsEdge(s2, i, k)
      ensures IsEdge(s, i, k) && EntryAt(s2, i, k) == EntryAt(s, i, k)
    {
    }
    var rank :| Ranked(s, rank);
    assert Ranked(s2, rank);
  }

  /** Linking a fresh inode under a name the directory does not have keeps
      the tree well-formed. */
  lemma InsertPreserves(s: Table, s2: Table, p: int, j: int, n: int, c: string, t: NodeType)
    requires WellFormed(s) && Inserted(s, s2, p, j, n, c, t) && SubNode(c, s[p].data) == FAIL
    ensures WellFormed(s2)
  {
    InsertedEdges(s, s2, p, j, n, c, t);
    assert Shaped(s2) by {
      forall i | 0 <= i < |s2|
        ensures SlotShaped(s2[i])
      {
        if i != p && i != n {
          assert SlotShaped(s[i]);
        }
      }
    }
    assert n != FS_ROOT;
    forall i, k | IsEdge(s2, i, k)
      ensures EntryAt(s2, i, k).inumber != FS_ROOT && Used(s2, EntryAt(s2, i, k).inumber)
    {
      if !(i == p && k == j) {
        assert IsEdge(s, i, k);
      }
    }
    assert forall k :: IsEdge(s, p, k) ==> !Matches(s[p].data.entries[k], c);
    forall i, k1, k2 | IsEdge(s2, i, k1) && IsEdge(s2, i, k2) && EntryAt(s2, i, k1).name == EntryAt(s2, i, k2).name
      ensures k1 == k2
    {
    }
    forall i1, k1, i2, k2 | IsEdge(s2, i1, k1) && IsEdge(s2, i2, k2) && EntryAt(s2, i1, k1).inumber == EntryAt(s2, i2, k2).inumber
      ensures i1 == i2 && k1 == k2
    {
    }
    // The new inode is a leaf one level below its parent.
    var rank :| Ranked(s, rank);
    var rank2 := rank[n := rank[p] + 1];
    forall i, k | IsEdge(s2, i, k)
      ensures 0 <= EntryAt(s2, i, k).inumber < |s2| && rank2[EntryAt(s2, i, k).inumber] == rank2[i] + 1
    {
      if !(i == p && k == j) {
        assert IsEdge(s, i, k);
        assert EntryAt(s, i, k).inumber != n;
        assert i != n;
      }
    }
    assert Ranked(s2, rank2);
  }

  /** Unlinking and freeing a dead-end inode keeps the tree well-formed. */
  lemma RemovePreserves(s: Table, s2: Table, p: int, j: int, c: int)
    requires WellFormed(s) && Removed(s, s2, p, j, c)
    ensures WellFormed(s2)
  {
    RemovedEdges(s, s2, p, j, c);
    assert IsEdge(s, p, j);
    assert c != FS_ROOT;
    assert Shaped(s2) by {
      forall i | 0 <= i < |s2|
        ensures SlotShaped(s2[i])
      {
        if i != p && i != c {
          assert SlotShaped(s[i]);
        }
      }
    }
    forall i, k | IsEdge(s2, i, k)
      ensures EntryAt(s2, i, k).inumber != FS_ROOT && Used(s2, EntryAt(s2, i, k).inumber)
    {
      assert IsEdge(s, i, k);
      assert EntryAt(s, i, k).inumber != c;
    }
    var rank :| Ranked(s, rank);
    assert Ranked(s2, rank);
  }

  /** `nodes` is a chain of edges: entry js[k] of nodes[k] refers to nodes[k + 1]. */
  ghost predicate Chain(s: Table, nodes: seq<int>, js: seq<int>) {
    |nodes| == |js| + 1
    && forall k :: 0 <= k < |js| ==> IsEdge(s, nodes[k], js[k]) && EntryAt(s, nodes[k], js[k]).inumber == nodes[k + 1]
  }

  /** Along a chain the rank grows by one per edge. */
  lemma {:induction false} ChainRank(s: Table, rank: seq<nat>, nodes: seq<int>, js: seq<int>, k: nat)
    requires Ranked(s, rank) && Chain(s, nodes, js) && 0 <= nodes[0] < |s| && k < |nodes|
    ensures 0 <= nodes[k] < |s| && rank[nodes[k]] == rank[nodes[0]] + k
  {
    if k > 0 {
      ChainRank(s, rank, nodes, js, k - 1);
      assert IsEdge(s, nodes[k - 1], js[k - 1]);
    }
  }

  /** In a well-formed table no chain of one or more entries leads back to
      the inode it started from: the directories form a tree. */
  lemma NoCycle(s: Table, nodes: seq<int>, js: seq<int>)
    requires WellFormed(s) && Chain(s, nodes, js) && |js| > 0
    ensures nodes[0] != nodes[|nodes| - 1]
  {
    var rank :| Ranked(s, rank);
    assert IsEdge(s, nodes[0], js[0]);
    ChainRank(s, rank, nodes, js, |nodes| - 1);
  }

  // ---------------------------------------------------------------------
  // create and delete

  /** create SUCCEEDS exactly when the parent resolves to a directory that
      has no entry of that name, the table has a free slot and the directory
      a free entry. It then adds exactly one entry, for a fresh inode of
      `nodeType` in the lowest free slot. On FAIL the table is unchanged,
      except when only the directory was full: the allocated inode stays. */
  lemma CreateOutcome(s: Table, name: string, nodeType: NodeType)
    requires Shaped(s) && PathName(name) && nodeType != TNone
    ensures var (parent, child) := Split(name);
      var p := Resolve(s, parent);
      var r := CreateSpec(s, name, nodeType);
      var n := FirstFree(s, 0);
      (r.1 == SUCCESS <==>
        (p != FAIL && IsDir(s, p) && SubNode(child, s[p].data) == FAIL && n != FAIL && !AllLive(s[p].data.entries)))
      && (r.1 == SUCCESS ==> Inserted(s, r.0, p, FirstWith(s[p].data.entries, FREE_INODE, 0), n, child, nodeType))
      && (r.1 == FAIL ==>
        (r.0 == s || (n != FAIL && r.0 == s[n := NewInode(nodeType)] && IsDir(s, p)
          && SubNode(child, s[p].data) == FAIL && AllLive(s[p].data.entries))))
  {
    var (parent, child) := Split(name);
    var p := Resolve(s, parent);
    var n := FirstFree(s, 0);
    if p != FAIL && IsDir(s, p) && SubNode(child, s[p].data) == FAIL && n != FAIL {
      var s1 := s[n := NewInode(nodeType)];
      assert s1[p] == s[p];
      var es := s[p].data.entries;
      var j := FirstWith(es, FREE_INODE, 0);
      assert AllLive(es) <==> j == -1;
    }
  }

  /** The leak of create: when the parent directory is full but the table
      is not, create fails and still leaves a new inode in use. */
  lemma CreateLeaksInode(s: Table, name: string, nodeType: NodeType)
    requires Shaped(s) && PathName(name) && nodeType != TNone
    requires var (parent, child) := Split(name);
      var p := Resolve(s, parent);
      p != FAIL && IsDir(s, p) && SubNode(child, s[p].data) == FAIL && AllLive(s[p].data.entries)
    requires FirstFree(s, 0) != FAIL
    ensures var r := CreateSpec(s, name, nodeType);
      r.1 == FAIL && r.0 != s && Used(r.0, FirstFree(s, 0)) && !Used(s, FirstFree(s, 0))
  {
    CreateOutcome(s, name, nodeType);
    var n := FirstFree(s, 0);
    assert CreateSpec(s, name, nodeType).0[n] != s[n];
  }

  /** create keeps the tree well-formed, on every outcome. */
  lemma CreatePreservesWellFormed(s: Table, name: string, nodeType: NodeType)
    requires WellFormed(s) && PathName(name) && nodeType != TNone
    ensures WellFormed(CreateSpec(s, name, nodeType).0)
  {
    CreateOutcome(s, name, nodeType);
    var (parent, child) := Split(name);
    var p := Resolve(s, parent);
    var r := CreateSpec(s, name, nodeType);
    var n := FirstFree(s, 0);
    if r.1 == SUCCESS {
      InsertPreserves(s, r.0, p, FirstWith(s[p].data.entries, FREE_INODE, 0), n, child, nodeType);
    } else if r.0 != s {
      AllocatePreserves(s, n, nodeType);
    }
  }

  /** The cases in which delete fails. In a well-formed tree a failing delete
      leaves the table unchanged, and a successful one unlinks the first
      entry named like the child and frees its inode, which is a dead end. */
  lemma DeleteOutcome(s: Table, name: string)
    requires WellFormed(s) && PathName(name)
    ensures var (parent, child) := Split(name);
      var p := Resolve(s, parent);
      var r := DeleteSpec(s, name);
      var c := if p == FAIL || !IsDir(s, p) then FAIL else SubNode(child, s[p].data);
      (r.1 == SUCCESS <==> p != FAIL && IsDir(s, p) && c != FAIL && !NonEmptyDir(s, c))
      && (r.1 == FAIL ==> r.0 == s)
      && (r.1 == SUCCESS ==> Removed(s, r.0, p, FirstMatch(s[p].data.entries, child, 0), c) && DeadEnd(s[c]))
  {
    var (parent, child) := Split(name);
    var p := Resolve(s, parent);
    if p != FAIL && IsDir(s, p) && SubNode(child, s[p].data) != FAIL {
      var c := SubNode(child, s[p].data);
      var es := s[p].data.entries;
      var j := FirstMatch(es, child, 0);
      SubNodeEdge(s, p, child);
      assert Used(s, c);
      var k := FirstWith(es, c, 0);
      assert IsEdge(s, p, k);
      assert k == j;
      if !NonEmptyDir(s, c) {
        assert IsEdge(s, p, j);
        assert c != p;
        if IsDir(s, c) {
          assert DeadEnd(s[c]);
        } else {
          assert SlotShaped(s[c]);
        }
        var s1 := ResetEntry(s, p, c).0;
        assert s1[c] == s[c];
      }
    }
  }

  /** delete keeps the tree well-formed, on every outcome. */
  lemma DeletePreservesWellFormed(s: Table, name: string)
    requires WellFormed(s) && PathName(name)
    ensures WellFormed(DeleteSpec(s, name).0)
  {
    DeleteOutcome(s, name);
    var (parent, child) := Split(name);
    var p := Resolve(s, parent);
    var r := DeleteSpec(s, name);
    if r.1 == SUCCESS {
      RemovePreserves(s, r.0, p, FirstMatch(s[p].data.entries, child, 0), SubNode(child, s[p].data));
    }
  }

  // ---------------------------------------------------------------------
  // lookup after create and delete

  /** A walk that succeeds before an insertion takes the same steps after it:
      the new name was absent, so no successful step looks it up. */
  lemma {:induction false} WalkInsertFrame(s: Table, s2: Table, p: int, j: int, n: int, c: string, t: NodeType,
                                           cur: int, comps: seq<string>)
    requires RefsOk(s) && Inserted(s, s2, p, j, n, c, t) && SubNode(c, s[p].data) == FAIL
    requires Used(s, cur) && Walk(s, cur, s[cur].data, comps) != FAIL
    ensures Used(s2, cur)
    ensures Walk(s2, cur, s2[cur].data, comps) == Walk(s, cur, s[cur].data, comps)
    decreases |comps|
  {
    InsertedEdges(s, s2, p, j, n, c, t);
    if comps != [] {
      var x := comps[0];
      var k := SubNode(x, s[cur].data);
      SubNodeTarget(s, cur, x);
      if cur == p {
        SubNodeAfterInsert(s[p].data.entries, j, c, n, x);
      }
      assert SubNode(x, s2[cur].data) == k;
      WalkInsertFrame(s, s2, p, j, n, c, t, k, comps[1..]);
    }
  }

  /** A walk that succeeds before a removal, and does not end at the removed
      inode, takes the same steps after it: the removed inode is a dead end,
      so no successful walk passes through it. */
  lemma {:induction false} WalkRemoveFrame(s: Table, s2: Table, p: int, j: int, c: int, cur: int, comps: seq<string>)
    requires RefsOk(s) && Removed(s, s2, p, j, c) && DeadEnd(s[c])
    requires Used(s, cur) && cur != c
    requires Walk(s, cur, s[cur].data, comps) != FAIL && Walk(s, cur, s[cur].data, comps) != c
    ensures Used(s2, cur)
    ensures Walk(s2, cur, s2[cur].data, comps) == Walk(s, cur, s[cur].data, comps)
    decreases |comps|
  {
    RemovedEdges(s, s2, p, j, c);
    if comps != [] {
      var x := comps[0];
      var k := SubNode(x, s[cur].data);
      SubNodeTarget(s, cur, x);
      if cur == p {
        SubNodeAfterReset(s[p].data.entries, j, x);
      }
      assert SubNode(x, s2[cur].data) == k;
      WalkRemoveFrame(s, s2, p, j, c, k, comps[1..]);
    }
  }

  /** After a successful create of a path whose last component is a plain
      name, lookup of the path finds the new inode, of the type asked for. */
  lemma CreateThenLookup(s: Table, name: string, nodeType: NodeType)
    requires WellFormed(s) && PathName(name) && nodeType != TNone
    requires |Split(name).1| > 0 && '/' !in Split(name).1
    requires CreateSpec(s, name, nodeType).1 == SUCCESS
    ensures var s2 := CreateSpec(s, name, nodeType).0;
      var n := Resolve(s2, name);
      n == FirstFree(s, 0) && !Used(s, n) && Used(s2, n) && s2[n].nodeType == nodeType
  {
    CreateOutcome(s, name, nodeType);
    CreatePreservesWellFormed(s, name, nodeType);
    var (parent, child) := Split(name);
    var p := Resolve(s, parent);
    var s2 := CreateSpec(s, name, nodeType).0;
    var n := FirstFree(s, 0);
    var j := FirstWith(s[p].data.entries, FREE_INODE, 0);
    SplitTokens(name);
    WalkInsertFrame(s, s2, p, j, n, child, nodeType, FS_ROOT, Tokens(parent));
    WalkAppend(s2, FS_ROOT, Tokens(parent), [child]);
    SubNodeAfterInsert(s[p].data.entries, j, child, n, child);
    assert [child][1..] == [];
  }

  /** A walk whose components never equal the inserted name takes the same
      steps after the insertion, whether it succeeds or not. */
  lemma {:induction false} WalkInsertAvoid(s: Table, s2: Table, p: int, j: int, n: int, c: string, t: NodeType,
                                           cur: int, comps: seq<string>)
    requires RefsOk(s) && Inserted(s, s2, p, j, n, c, t) && Used(s, cur)
    requires forall k :: 0 <= k < |comps| ==> comps[k] != c
    ensures Walk(s2, cur, s2[cur].data, comps) == Walk(s, cur, s[cur].data, comps)
    decreases |comps|
  {
    InsertedEdges(s, s2, p, j, n, c, t);
    if comps != [] {
      var x := comps[0];
      var k := SubNode(x, s[cur].data);
      if cur == p {
        SubNodeAfterInsert(s[p].data.entries, j, c, n, x);
      }
      assert SubNode(x, s2[cur].data) == k;
      if k != FAIL {
        SubNodeTarget(s, cur, x);
        WalkInsertAvoid(s, s2, p, j, n, c, t, k, comps[1..]);
      }
    }
  }

  /** When the child of the split holds a '/' (a path ending in "//"),
      create can succeed, but its entry carries a name no strtok component
      equals: every lookup resolves as before, and none reaches the new inode. */
  lemma CreatedUnreachable(s: Table, name: string, nodeType: NodeType, path: string)
    requires WellFormed(s) && PathName(name) && nodeType != TNone
    requires '/' in Split(name).1
    requires CreateSpec(s, name, nodeType).1 == SUCCESS
    ensures var s2 := CreateSpec(s, name, nodeType).0;
      Resolve(s2, path) == Resolve(s, path) && Resolve(s2, path) != FirstFree(s, 0)
      && Used(s2, FirstFree(s, 0))
  {
    CreateOutcome(s, name, nodeType);
    var (parent, child) := Split(name);
    var p := Resolve(s, parent);
    var s2 := CreateSpec(s, name, nodeType).0;
    var n := FirstFree(s, 0);
    var j := FirstWith(s[p].data.entries, FREE_INODE, 0);
    InsertedEdges(s, s2, p, j, n, child, nodeType);
    var comps := Tokens(path);
    forall k | 0 <= k < |comps|
      ensures comps[k] != child
    {
      assert '/' !in comps[k];
    }
    WalkInsertAvoid(s, s2, p, j, n, child, nodeType, FS_ROOT, comps);
  }

  /** "a//" splits into the root and the child "a/", and strtok sees the one component "a". */
  lemma DoubleSlashPath()
    ensures Split("a//") == ("", "a/") && Tokens("a//") == ["a"]
  {
    SplitUnfold("a//");
    assert Trimmed("a//") == "a/";
    assert LastSlashBefore("a/", 2) == -1;
    TrimmedTokens("a//");
    TrimmedTokens("a/");
    assert Trimmed("a/") == "a";
    TokensOfName("a");
  }

  /** In a tree whose root directory is empty and whose table has room,
      create of "a//" succeeds with a root entry named "a/", yet lookup of
      "a//" fails. */
  lemma DoubleSlashCreate(s: Table)
    requires WellFormed(s) && AllFree(s[FS_ROOT].data.entries) && FirstFree(s, 0) != FAIL
    ensures var r := CreateSpec(s, "a//", TFile);
      r.1 == SUCCESS && Resolve(r.0, "a//") == FAIL
  {
    DoubleSlashPath();
    ResolveAllSlashes(s, "");
    var es := s[FS_ROOT].data.entries;
    assert !Live(es[0]);
    assert SubNode("a/", s[FS_ROOT].data) == FAIL;
    assert SubNode("a", s[FS_ROOT].data) == FAIL;
    CreateOutcome(s, "a//", TFile);
    assert Resolve(s, "a//") == FAIL by {
      assert [ "a" ][1..] == [];
    }
    CreatedUnreachable(s, "a//", TFile, "a//");
  }

  /** The table init_fs builds is such a tree. */
  lemma InitialRootEmpty()
    ensures WellFormed(InitialTable()) && AllFree(InitialTable()[FS_ROOT].data.entries)
    ensures FirstFree(InitialTable(), 0) != FAIL
  {
    InitialWellFormed();
    var s := InitialTable();
    assert !Used(s, 1);
  }

  /** Creating the same path twice: the second create fails and changes nothing. */
  lemma CreateTwice(s: Table, name: string, nodeType: NodeType, nodeType2: NodeType)
    requires WellFormed(s) && PathName(name) && nodeType != TNone
    requires CreateSpec(s, name, nodeType).1 == SUCCESS
    ensures var s2 := CreateSpec(s, name, nodeType).0;
      CreateSpec(s2, name, nodeType2) == (s2, FAIL)
  {
    CreateOutcome(s, name, nodeType);
    var (parent, child) := Split(name);
    var p := Resolve(s, parent);
    var s2 := CreateSpec(s, name, nodeType).0;
    var n := FirstFree(s, 0);
    var j := FirstWith(s[p].data.entries, FREE_INODE, 0);
    WalkInsertFrame(s, s2, p, j, n, child, nodeType, FS_ROOT, Tokens(parent));
    SubNodeAfterInsert(s[p].data.entries, j, child, n, child);
    InsertedEdges(s, s2, p, j, n, child, nodeType);
    assert Shaped(s2) by {
      CreatePreservesWellFormed(s, name, nodeType);
    }
  }

  /** After a successful delete, the child's name is gone from its parent directory. */
  lemma DeleteUnlinks(s: Table, name: string)
    requires WellFormed(s) && PathName(name)
    requires DeleteSpec(s, name).1 == SUCCESS
    ensures var (parent, child) := Split(name);
      var s2 := DeleteSpec(s, name).0;
      var p := Resolve(s2, parent);
      p == Resolve(s, parent) && IsDir(s2, p) && SubNode(child, s2[p].data) == FAIL
  {
    DeleteOutcome(s, name);
    var (parent, child) := Split(name);
    var p := Resolve(s, parent);
    var s2 := DeleteSpec(s, name).0;
    var es := s[p].data.entries;
    var c := SubNode(child, s[p].data);
    var j := FirstMatch(es, child, 0);
    SubNodeEdge(s, p, child);
    WalkRemoveFrame(s, s2, p, j, c, FS_ROOT, Tokens(parent));
    var es2 := es[j := FreeEntry];
    forall k | 0 <= k < |es2|
      ensures !Matches(es2[k], child)
    {
      if k != j && Matches(es[k], child) {
        assert IsEdge(s, p, k);
      }
    }
  }

  /** After a successful delete of a path whose last component is a plain
      name, lookup of the path fails. */
  lemma DeleteThenLookup(s: Table, name: string)
    requires WellFormed(s) && PathName(name)
    requires |Split(name).1| > 0 && '/' !in Split(name).1
    requires DeleteSpec(s, name).1 == SUCCESS
    ensures Resolve(DeleteSpec(s, name).0, name) == FAIL
  {
    DeleteUnlinks(s, name);
    DeletePreservesWellFormed(s, name);
    var (parent, child) := Split(name);
    var s2 := DeleteSpec(s, name).0;
    SplitTokens(name);
    WalkAppend(s2, FS_ROOT, Tokens(parent), [child]);
  }

  /** Deleting the same path twice: the second delete fails and changes nothing. */
  lemma DeleteTwice(s: Table, name: string)
    requires WellFormed(s) && PathName(name)
    requires DeleteSpec(s, name).1 == SUCCESS
    ensures var s2 := DeleteSpec(s, name).0;
      DeleteSpec(s2, name) == (s2, FAIL)
  {
    DeleteUnlinks(s, name);
    DeletePreservesWellFormed(s, name);
  }
}
