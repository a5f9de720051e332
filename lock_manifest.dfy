/** The lock manifest of the socket servers (server/main.c and main.c): an
    array `inodeWaitList[MAX_DEPTH]` and a count `len` of the inumbers an
    operation has locked, which `unlockAll` releases. The locks themselves
    live in the inodes (state.c, which is not part of this model); here they
    are a LockTable that records which inumbers are held and the order of the
    `unlock` calls. */
module Manifests {
  const MAX_DEPTH: int := 10

  /** The inodes whose lock is held, and every unlock so far, in order. */
  class LockTable {
    var held: set<int>
    var unlocked: seq<int>

    constructor ()
      ensures held == {} && unlocked == []
    {
      held := {};
      unlocked := [];
    }

    /** lock(inumber): the caller must not hold the lock already. */
    method Lock(inumber: int)
      requires inumber !in held
      modifies this
      ensures held == old(held) + {inumber} && unlocked == old(unlocked)
    {
      held := held + {inumber};
    }

    /** unlock(inumber): releasing a lock the caller does not hold is an error,
        so the inode must be held. */
    method Unlock(inumber: int)
      requires inumber in held
      modifies this
      ensures held == old(held) - {inumber}
      ensures unlocked == old(unlocked) + [inumber]
    {
      held := held - {inumber};
      unlocked := unlocked + [inumber];
    }
  }

  /** No inumber is listed twice. */
  predicate Distinct(s: seq<int>) {
    forall i, j :: 0 <= i < j < |s| ==> s[i] != s[j]
  }

  function Elems(s: seq<int>): (r: set<int>)
    ensures forall x :: x in r <==> x in s
  {
    set x | x in s
  }

  /** The locks left after unlocking `list` in order. */
  function ReleaseAll(held: set<int>, list: seq<int>): set<int> {
    if list == [] then held else ReleaseAll(held - {list[0]}, list[1..])
  }

  /** Every unlock of `list`, in order, finds its inode held. */
  predicate UnlocksValid(held: set<int>, list: seq<int>) {
    list == [] || (list[0] in held && UnlocksValid(held - {list[0]}, list[1..]))
  }

  /** A manifest can be released in order exactly when its entries are
      distinct and all held, and releasing it drops exactly its entries. */
  lemma {:induction false} ReleaseManifest(held: set<int>, list: seq<int>)
    ensures UnlocksValid(held, list) <==> Distinct(list) && Elems(list) <= held
    ensures UnlocksValid(held, list) ==> ReleaseAll(held, list) == held - Elems(list)
  {
    if list != [] {
      var x, rest := list[0], list[1..];
      assert list == [x] + rest;
      ReleaseManifest(held - {x}, rest);
      assert Elems(list) == {x} + Elems(rest);
      if Distinct(list) {
        assert Distinct(rest) by {
          forall i, j | 0 <= i < j < |rest| ensures rest[i] != rest[j] {
            assert rest[i] == list[i + 1] && rest[j] == list[j + 1];
          }
        }
        assert x !in rest by {
          forall k | 0 <= k < |rest| ensures rest[k] != x {
            assert rest[k] == list[k + 1];
          }
        }
      }
      if x !in rest && Distinct(rest) {
        forall i, j | 0 <= i < j < |list| ensures list[i] != list[j] {
          if i > 0 {
            assert list[i] == rest[i - 1];
          }
          assert list[j] == rest[j - 1];
        }
      }
    }
  }

  /** The array after `inodeWaitList[i] = 0` for every i below len. */
  function Zeroed(a: seq<int>, len: int): (r: seq<int>)
    requires 0 <= len <= |a|
    ensures |r| == |a|
    ensures forall i :: 0 <= i < |a| ==> r[i] == if i < len then 0 else a[i]
  {
    seq(|a|, i requires 0 <= i < |a| => if i < len then 0 else a[i])
  }

  /** unlockAll: unlocks the inumbers of the manifest in index order, zeroes
      their entries and returns the new `*len`, 0. */
  method UnlockAll(inodeWaitList: array<int>, len: int, locks: LockTable) returns (newLen: int)
    requires 0 <= len <= inodeWaitList.Length
    requires Distinct(inodeWaitList[..len]) && Elems(inodeWaitList[..len]) <= locks.held
    modifies inodeWaitList, locks
    ensures newLen == 0
    ensures locks.unlocked == old(locks.unlocked) + old(inodeWaitList[..len])
    ensures locks.held == old(locks.held) - Elems(old(inodeWaitList[..len]))
    ensures locks.held == ReleaseAll(old(locks.held), old(inodeWaitList[..len]))
    ensures inodeWaitList[..] == Zeroed(old(inodeWaitList[..]), len)
  {
    ghost var list := inodeWaitList[..len];
    ghost var before := inodeWaitList[..];
    ghost var h0, u0 := locks.held, locks.unlocked;
    var i := 0;
    while i < len
      invariant 0 <= i <= len
      invariant forall j :: 0 <= j < i ==> inodeWaitList[j] == 0
      invariant forall j :: i <= j < inodeWaitList.Length ==> inodeWaitList[j] == before[j]
      invariant locks.held == h0 - Elems(list[..i])
      invariant locks.unlocked == u0 + list[..i]
    {
      assert inodeWaitList[i] == list[i];
      assert list[i] !in list[..i];
      locks.Unlock(inodeWaitList[i]);
      inodeWaitList[i] := 0;
      assert list[..i + 1] == list[..i] + [list[i]];
      i := i + 1;
    }
    assert list[..i] == list;
    assert inodeWaitList[..] == Zeroed(before, len);
    ReleaseManifest(h0, list);
    newLen := 0;
  }

  /** What one of the server's fs operations does to the manifest and the
      result it returns. Those operations (create, lookup, delete and move
      with a manifest) are not part of this model; a call is described by the
      inumbers it locks, in order, and its result code. */
  datatype Effect = Effect(taken: seq<int>, res: int)

  /** An fs operation called with an empty manifest: it locks the inumbers
      of `e`, lists them in the manifest, and returns `e.res`. */
  method Operate(inodeWaitList: array<int>, len: int, locks: LockTable, e: Effect) returns (res: int, newLen: int)
    requires inodeWaitList.Length == MAX_DEPTH && len == 0 && |e.taken| <= MAX_DEPTH
    requires Distinct(e.taken) && Elems(e.taken) !! locks.held
    modifies inodeWaitList, locks
    ensures res == e.res && newLen == |e.taken|
    ensures inodeWaitList[..newLen] == e.taken
    ensures locks.held == old(locks.held) + Elems(e.taken)
    ensures locks.unlocked == old(locks.unlocked)
  {
    newLen := len;
    while newLen < |e.taken|
      invariant 0 <= newLen <= |e.taken|
      invariant inodeWaitList[..newLen] == e.taken[..newLen]
      invariant locks.held == old(locks.held) + Elems(e.taken[..newLen])
      invariant locks.unlocked == old(locks.unlocked)
    {
      assert e.taken[newLen] !in e.taken[..newLen];
      locks.Lock(e.taken[newLen]);
      inodeWaitList[newLen] := e.taken[newLen];
      assert e.taken[..newLen + 1] == e.taken[..newLen] + [e.taken[newLen]];
      newLen := newLen + 1;
    }
    assert e.taken[..newLen] == e.taken;
    res := e.res;
  }
}
