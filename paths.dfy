/** Path handling of fs/operations.c: splitting a path into parent and child
    (split_parent_child_from_path) and the components that strtok(path, "/")
    yields when lookup walks a path. */
module Paths {

  /** A C string: no NUL inside. */
  predicate CString(s: string) {
    '\0' !in s
  }

  /** A path the operations accept: a non-empty C string, as sscanf's %s produces. */
  predicate PathName(s: string) {
    |s| > 0 && CString(s)
  }

  /** strlen: the position of the first NUL of a buffer. */
  function Strlen(buf: seq<char>): (n: int)
    requires '\0' in buf
    ensures 0 <= n < |buf| && buf[n] == '\0'
    ensures forall i :: 0 <= i < n ==> buf[i] != '\0'
  {
    if buf[0] == '\0' then 0 else assert '\0' in buf[1..]; 1 + Strlen(buf[1..])
  }

  /** The C string that starts at offset `at` of a buffer. */
  function CStringAt(buf: seq<char>, at: nat): (s: string)
    requires at <= |buf| && '\0' in buf[at..]
    ensures CString(s) && at + |s| < |buf| && buf[at + |s|] == '\0'
    ensures s == buf[at..at + |s|]
  {
    var n := Strlen(buf[at..]);
    assert forall i :: 0 <= i < n ==> buf[at..at + n][i] == buf[at..][i];
    buf[at..at + n]
  }

  /** The path with one trailing '/' removed. */
  function Trimmed(s: string): (t: string)
    requires |s| > 0
    ensures t == s || (t + "/" == s)
    ensures |t| == |s| || |t| == |s| - 1
  {
    if s[|s| - 1] == '/' then s[..|s| - 1] else s
  }

  /** The last position below `n` that holds a '/' followed by another
      character of `t`, or -1 when there is none. */
  function LastSlashBefore(t: string, n: nat): (k: int)
    requires n <= |t|
    ensures -1 <= k < n
    ensures k >= 0 ==> t[k] == '/' && k + 1 < |t|
    ensures forall i :: k < i < n && i + 1 < |t| ==> t[i] != '/'
    decreases n
  {
    if n == 0 then -1
    else if t[n - 1] == '/' && n < |t| then n - 1
    else LastSlashBefore(t, n - 1)
  }

  /** split_parent_child_from_path on the path's value: after one trailing '/'
      is dropped, the path is cut at its last '/' that is followed by a
      character. Without such a '/', the parent is "" and the child is the
      whole trimmed path. */
  function Split(s: string): (r: (string, string))
    requires |s| > 0
    ensures var t := Trimmed(s);
      (forall i :: 0 <= i < |t| - 1 ==> t[i] != '/') ==> r == ("", t)
    ensures var t := Trimmed(s);
      (exists i :: 0 <= i < |t| - 1 && t[i] == '/') ==>
        r.0 + "/" + r.1 == t && |r.1| > 0 && forall i :: 0 <= i < |r.1| - 1 ==> r.1[i] != '/'
  {
    var t := Trimmed(s);
    var k := LastSlashBefore(t, |t|);
    if k < 0 then ("", t)
    else
      assert t[..k] + "/" + t[k + 1..] == t;
      (t[..k], t[k + 1..])
  }

  /** Split unfolded one step, for callers that follow the C code. */
  lemma SplitUnfold(s: string)
    requires |s| > 0
    ensures var t := Trimmed(s);
      var k := LastSlashBefore(t, |t|);
      Split(s) == if k < 0 then ("", t) else (t[..k], t[k + 1..])
  {
  }

  /** A buffer that holds `t` followed by a NUL reads back as `t`. */
  lemma WholeBuffer(tb: seq<char>, t: string)
    requires CString(t) && |t| < |tb| && tb[..|t|] == t && tb[|t|] == '\0'
    ensures '\0' in tb[0..] && CStringAt(tb, 0) == t
  {
    assert tb[0..] == tb;
    assert tb[|t|] in tb;
    var c := CStringAt(tb, 0);
    assert c == t;
  }

  /** A NUL written at position k of such a buffer cuts it into `t[..k]` and
      `t[k + 1..]`. */
  lemma CutBuffer(tb: seq<char>, t: string, k: nat)
    requires CString(t) && |t| < |tb| && tb[..|t|] == t && tb[|t|] == '\0'
    requires k < |t|
    ensures var cut := tb[k := '\0'];
      '\0' in cut[0..] && '\0' in cut[k + 1..] &&
      CStringAt(cut, 0) == t[..k] && CStringAt(cut, k + 1) == t[k + 1..]
  {
    var cut := tb[k := '\0'];
    WholeBuffer(cut, t[..k]);
    var rest := t[k + 1..];
    assert cut[k + 1..][..|rest|] == rest;
    assert cut[k + 1..][|rest|] == '\0';
    WholeBuffer(cut[k + 1..], rest);
    assert cut[k + 1..][0..] == cut[k + 1..];
  }

  /** The buffer split_parent_child_from_path leaves behind: a NUL over the
      trailing '/', if any, and a NUL over the '/' it cuts at, if any. */
  function SplitBuffer(b: seq<char>): (r: seq<char>)
    requires '\0' in b && Strlen(b) > 0
    ensures |r| == |b|
    ensures forall i :: 0 <= i < |b| && r[i] != b[i] ==> r[i] == '\0' && b[i] == '/'
  {
    var n := Strlen(b);
    var t := Trimmed(b[..n]);
    var k := LastSlashBefore(t, |t|);
    var trimmedBuf := if |t| < n then b[n - 1 := '\0'] else b;
    if k >= 0 then trimmedBuf[k := '\0'] else trimmedBuf
  }

  /** Once a trailing '/' is overwritten, the buffer holds the trimmed path
      followed by a NUL. */
  lemma TrimmedBuffer(b: seq<char>, n: int, t: string, tb: seq<char>)
    requires '\0' in b && n == Strlen(b) && n > 0 && t == Trimmed(b[..n])
    requires tb == if |t| < n then b[n - 1 := '\0'] else b
    ensures |tb| == |b| && |t| < |tb| && tb[..|t|] == t && tb[|t|] == '\0' && CString(t)
  {
    assert forall i :: 0 <= i < |t| ==> t[i] == b[i];
  }

  /** Without a '/' to cut at, the buffer reads as the trimmed path. */
  lemma SplitWhole(b: seq<char>, n: int, t: string, tb: seq<char>)
    requires '\0' in b && n == Strlen(b) && n > 0 && t == Trimmed(b[..n])
    requires tb == if |t| < n then b[n - 1 := '\0'] else b
    requires LastSlashBefore(t, |t|) < 0
    ensures '\0' in tb[0..] && Split(b[..n]) == ("", CStringAt(tb, 0)) && SplitBuffer(b) == tb
  {
    TrimmedBuffer(b, n, t, tb);
    SplitUnfold(b[..n]);
    WholeBuffer(tb, t);
  }

  /** With a '/' at k to cut at, the two C strings are the halves of Split. */
  lemma SplitCut(b: seq<char>, n: int, t: string, tb: seq<char>, k: int)
    requires '\0' in b && n == Strlen(b) && n > 0 && t == Trimmed(b[..n])
    requires tb == if |t| < n then b[n - 1 := '\0'] else b
    requires k == LastSlashBefore(t, |t|) && k >= 0
    ensures var cut := tb[k := '\0'];
      '\0' in cut[0..] && '\0' in cut[k + 1..] &&
      Split(b[..n]) == (CStringAt(cut, 0), CStringAt(cut, k + 1)) && SplitBuffer(b) == cut
  {
    SplitUnfold(b[..n]);
    assert Split(b[..n]) == (t[..k], t[k + 1..]);
    assert SplitBuffer(b) == tb[k := '\0'];
    TrimmedBuffer(b, n, t, tb);
    CutBuffer(tb, t, k);
  }

  /** What the buffer of split_parent_child_from_path reads as once the NULs
      are written: the two C strings are the halves of Split. */
  lemma SplitOutcome(b: seq<char>)
    requires '\0' in b && Strlen(b) > 0
    ensures var n := Strlen(b);
      var t := Trimmed(b[..n]);
      var tb := if |t| < n then b[n - 1 := '\0'] else b;
      var k := LastSlashBefore(t, |t|);
      |t| < |tb| && tb[..|t|] == t && tb[|t|] == '\0' &&
      if k < 0 then
        '\0' in tb[0..] && Split(b[..n]) == ("", CStringAt(tb, 0)) && SplitBuffer(b) == tb
      else
        var cut := tb[k := '\0'];
        '\0' in cut[0..] && '\0' in cut[k + 1..] &&
        Split(b[..n]) == (CStringAt(cut, 0), CStringAt(cut, k + 1)) && SplitBuffer(b) == cut
  {
    var n := Strlen(b);
    var t := Trimmed(b[..n]);
    var tb := if |t| < n then b[n - 1 := '\0'] else b;
    var k := LastSlashBefore(t, |t|);
    TrimmedBuffer(b, n, t, tb);
    if k < 0 {
      SplitWhole(b, n, t, tb);
    } else {
      SplitCut(b, n, t, tb, k);
    }
  }

  /** What the slash scan of split_parent_child_from_path has found before
      position i: the last '/' followed by a character other than NUL, or -1. */
  function ScanLast(tb: seq<char>, i: nat): (r: int)
    requires i < |tb|
    ensures -1 <= r < i
    ensures r >= 0 ==> tb[r] == '/' && tb[r + 1] != '\0'
  {
    if i == 0 then -1
    else if tb[i - 1] == '/' && tb[i] != '\0' then i - 1
    else ScanLast(tb, i - 1)
  }

  /** Over a buffer holding `t` then a NUL, the scan finds LastSlashBefore. */
  lemma {:induction false} ScanFindsLastSlash(tb: seq<char>, t: string, i: nat)
    requires |t| < |tb| && tb[..|t|] == t && tb[|t|] == '\0' && CString(t) && i <= |t|
    ensures ScanLast(tb, i) == LastSlashBefore(t, i)
  {
    if i > 0 {
      ScanFindsLastSlash(tb, t, i - 1);
      assert tb[i - 1] == t[i - 1];
      if i < |t| {
        assert tb[i] == t[i] && t[i] in t;
      }
    }
  }

  /** Scanned up to the original length, the trimmed buffer yields the
      last inner '/' of the trimmed path: a trailing NUL adds no candidate. */
  lemma ScanOverTrimmed(b: seq<char>, n: int, t: string, tb: seq<char>)
    requires '\0' in b && n == Strlen(b) && n > 0 && t == Trimmed(b[..n])
    requires tb == if |t| < n then b[n - 1 := '\0'] else b
    ensures ScanLast(tb, n) == LastSlashBefore(t, |t|)
  {
    TrimmedBuffer(b, n, t, tb);
    ScanFindsLastSlash(tb, t, |t|);
    if |t| < n {
      assert tb[n - 1] == '\0';
    }
  }

  /** The scan loop of split_parent_child_from_path: counts the '/'s that
      are followed by a character and remembers the last one. */
  method ScanSlashes(path: array<char>, len: int) returns (nSlashes: int, lastSlashLocation: int)
    requires 0 <= len < path.Length
    ensures nSlashes >= 0
    ensures (nSlashes == 0 && ScanLast(path[..], len) == -1) || (nSlashes > 0 && lastSlashLocation == ScanLast(path[..], len) >= 0)
  {
    nSlashes, lastSlashLocation := 0, 0;
    for i := 0 to len
      invariant nSlashes >= 0
      invariant (nSlashes == 0 && ScanLast(path[..], i) == -1) || (nSlashes > 0 && lastSlashLocation == ScanLast(path[..], i) >= 0)
    {
      if path[i] == '/' && path[i + 1] != '\0' {
        lastSlashLocation := i;
        nSlashes := nSlashes + 1;
      }
    }
  }

  /** split_parent_child_from_path itself. `path` holds a C string; the
      function writes NULs into it in place and returns the parent and the
      child, read as the C strings they point at. */
  method SplitParentChildFromPath(path: array<char>) returns (parent: string, child: string)
    requires '\0' in path[..] && Strlen(path[..]) > 0
    modifies path
    ensures (parent, child) == Split(old(path[..Strlen(path[..])]))
    ensures path[..] == SplitBuffer(old(path[..]))
  {
    ghost var b := path[..];
    var len := Strlen(path[..]);
    ghost var t := Trimmed(b[..len]);
    DropTrailingSlash(path, len);
    assert path[..] == if |t| < len then b[len - 1 := '\0'] else b;
    parent, child := CutAtLastSlash(path, len, b, t);
  }

  /** The first step of split_parent_child_from_path: a trailing '/' is
      overwritten with a NUL ( a/x/ becomes a/x ). */
  method DropTrailingSlash(path: array<char>, len: int)
    requires 0 < len < path.Length
    modifies path
    ensures path[..] == if old(path[len - 1]) == '/' then old(path[..])[len - 1 := '\0'] else old(path[..])
  {
    if path[len - 1] == '/' {
      path[len - 1] := '\0';
    }
  }

  /** The rest of split_parent_child_from_path, on the buffer with its
      trailing '/' dropped: scan for the last inner '/' and cut there. */
  method CutAtLastSlash(path: array<char>, len: int, ghost b: seq<char>, ghost t: string)
      returns (parent: string, child: string)
    requires '\0' in b && len == Strlen(b) && len > 0 && t == Trimmed(b[..len])
    requires path[..] == if |t| < len then b[len - 1 := '\0'] else b
    modifies path
    ensures (parent, child) == Split(b[..len])
    ensures path[..] == SplitBuffer(b)
  {
    ghost var tb := path[..];
    ghost var k := LastSlashBefore(t, |t|);
    TrimmedBuffer(b, len, t, tb);
    var nSlashes, lastSlashLocation := ScanSlashes(path, len);
    ScanOverTrimmed(b, len, t, tb);
    if nSlashes == 0 {
      // no inner '/': the child is the whole trimmed path
      SplitWhole(b, len, t, tb);
      parent, child := "", CStringAt(path[..], 0);
    } else {
      SplitCut(b, len, t, tb, k);
      path[lastSlashLocation] := '\0';
      parent := CStringAt(path[..], 0);
      child := CStringAt(path[..], lastSlashLocation + 1);
    }
  }

  /** The number of characters before the first '/' (or the end). */
  function RunLength(s: string): (n: nat)
    ensures n <= |s|
    ensures forall i :: 0 <= i < n ==> s[i] != '/'
    ensures n < |s| ==> s[n] == '/'
  {
    if s == [] || s[0] == '/' then 0 else 1 + RunLength(s[1..])
  }

  /** The tokens strtok(path, "/") returns one after the other: the maximal
      non-empty runs of characters other than '/'. */
  function Tokens(s: string): (r: seq<string>)
    ensures forall i :: 0 <= i < |r| ==> |r[i]| > 0 && '/' !in r[i]
    decreases |s|
  {
    if s == [] then []
    else if s[0] == '/' then Tokens(s[1..])
    else
      var n := RunLength(s);
      [s[..n]] + Tokens(s[n..])
  }

  lemma {:induction false} RunLengthBeforeSlash(a: string, b: string)
    ensures RunLength(a + "/" + b) == RunLength(a)
    decreases |a|
  {
    if a == [] {
    } else if a[0] == '/' {
    } else {
      assert (a + "/" + b)[1..] == a[1..] + "/" + b;
      RunLengthBeforeSlash(a[1..], b);
    }
  }

  /** An inner '/' separates the tokens of the two sides. */
  lemma {:induction false} TokensConcat(a: string, b: string)
    ensures Tokens(a + "/" + b) == Tokens(a) + Tokens(b)
    decreases |a|
  {
    var x := a + "/" + b;
    if a == [] {
      assert x[1..] == b;
    } else if a[0] == '/' {
      assert x[1..] == a[1..] + "/" + b;
      TokensConcat(a[1..], b);
    } else {
      var n := RunLength(x);
      RunLengthBeforeSlash(a, b);
      assert x[..n] == a[..n];
      assert x[n..] == a[n..] + "/" + b;
      TokensConcat(a[n..], b);
    }
  }

  /** Empty components, as in "a//b", yield no token. */
  lemma EmptyComponentsSkipped(a: string, b: string)
    ensures Tokens(a + "//" + b) == Tokens(a + "/" + b) == Tokens(a) + Tokens(b)
  {
    TokensConcat(a, "/" + b);
    assert a + "/" + ("/" + b) == a + "//" + b;
    TokensConcat("", b);
    assert "" + "/" + b == "/" + b;
    TokensConcat(a, b);
  }

  /** A path made only of '/' (or the empty path) has no components. */
  lemma {:induction false} AllSlashesNoTokens(s: string)
    requires forall i :: 0 <= i < |s| ==> s[i] == '/'
    ensures Tokens(s) == []
    decreases |s|
  {
    if s != [] {
      AllSlashesNoTokens(s[1..]);
    }
  }

  /** A single name is its own only token. */
  lemma TokensOfName(c: string)
    requires |c| > 0 && '/' !in c
    ensures Tokens(c) == [c]
  {
    assert c[0] in c;
    var n := RunLength(c);
    assert n == |c|;
    assert c[..n] == c;
    assert c[n..] == [];
    assert Tokens(c) == [c[..n]] + Tokens(c[n..]);
  }

  /** Dropping one trailing '/' does not change the components. */
  lemma TrimmedTokens(s: string)
    requires |s| > 0
    ensures Tokens(Trimmed(s)) == Tokens(s)
  {
    var t := Trimmed(s);
    if t != s {
      TokensConcat(t, "");
      assert t + "/" + "" == s;
    }
  }

  /** When the child of a split is a plain name, the components of the path
      are those of the parent followed by the child. */
  lemma SplitTokens(s: string)
    requires |s| > 0
    requires |Split(s).1| > 0 && '/' !in Split(s).1
    ensures Tokens(s) == Tokens(Split(s).0) + [Split(s).1]
  {
    var t := Trimmed(s);
    var r := Split(s);
    TrimmedTokens(s);
    TokensOfName(r.1);
    var k := LastSlashBefore(t, |t|);
    if k < 0 {
      assert r == ("", t);
    } else {
      assert r == (t[..k], t[k + 1..]);
      assert r.0 + "/" + r.1 == t;
      TokensConcat(r.0, r.1);
    }
  }

  /** The child of a split is a plain name (non-empty, no '/') except for
      the path "/" and the paths that end in "//": only one trailing '/' is
      removed, so the child of "a//" is "a/". */
  lemma SplitChildPlain(s: string)
    requires |s| > 0
    ensures (|Split(s).1| > 0 && '/' !in Split(s).1) <==>
      !(s == "/" || (|s| >= 2 && s[|s| - 2] == '/' && s[|s| - 1] == '/'))
  {
    var t := Trimmed(s);
    var r := Split(s);
    var k := LastSlashBefore(t, |t|);
    SplitUnfold(s);
    var endsDouble := |s| >= 2 && s[|s| - 2] == '/' && s[|s| - 1] == '/';
    assert endsDouble <==> |t| > 0 && t[|t| - 1] == '/';
    if k < 0 {
      assert r.1 == t;
      assert '/' in t <==> |t| > 0 && t[|t| - 1] == '/';
      assert |t| == 0 <==> s == "/";
    } else {
      assert r.1 == t[k + 1..];
      assert r.1[|r.1| - 1] == t[|t| - 1];
      assert '/' in r.1 <==> r.1[|r.1| - 1] == '/';
    }
  }
}
