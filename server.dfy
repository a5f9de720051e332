/** The request handler of the datagram server (server/main.c): applyCommands
    parses one request, calls the fs operation it names with an empty lock
    manifest, releases the manifest with unlockAll and returns the result,
    which socketOn sends back as at most two characters of decimal text. */
module Server {
  import opened FsState
  import opened Commands
  import opened Manifests
  import opened Replies

  /** The fs operation a request names. */
  datatype OpKind = CreateFile | CreateDirectory | LookupPath | DeletePath | MovePath | PrintTree

  /** What applyCommands does with a request: return a code straight away,
      run an operation, or end the process (exit(EXIT_FAILURE)). */
  datatype Action = Return(code: int) | Run(op: OpKind) | Exit

  /** The operations that take a manifest; printFS takes none. */
  predicate UsesManifest(op: OpKind) {
    op != PrintTree
  }

  /** The dispatch of server/main.c: NULL gives FAIL; fewer than two tokens
      is fatal; 'c' picks the node type from the first character of the
      second word; 'l', 'd', 'm' and 'p' name their operation; any other
      letter is fatal. */
  function Dispatch(command: Option<Request>): (a: Action)
    ensures a.Return? <==> command.None?
    ensures a.Return? ==> a.code == FAIL
    ensures command.Some? && command.value.numTokens < 2 ==> a == Exit
    ensures a.Run? ==> command.Some? && command.value.token in "cldmp"
    ensures (a.Run? && a.op == PrintTree) <==> (command.Some? && command.value.numTokens >= 2 && command.value.token == 'p')
  {
    match command
    case None => Return(FAIL)
    case Some(r) =>
      if r.numTokens < 2 then Exit
      else match r.token
        case 'c' =>
          if TypeChar(r) == 'f' then Run(CreateFile)
          else if TypeChar(r) == 'd' then Run(CreateDirectory)
          else Exit
        case 'l' => Run(LookupPath)
        case 'd' => Run(DeletePath)
        case 'm' => Run(MovePath)
        case 'p' => Run(PrintTree)
        case _ => Exit
  }

  /** A well-formed request reaches an operation, with the letter deciding which. */
  lemma DispatchOfParsed(r: Request)
    requires RequestParsed(r) && r.numTokens >= 2
    ensures Dispatch(Some(r)).Run? <==>
      (r.token in "ldmp" || (r.token == 'c' && (TypeChar(r) == 'f' || TypeChar(r) == 'd')))
    ensures Dispatch(Some(r)).Run? ==> (Dispatch(Some(r)).op == LookupPath <==> r.token == 'l')
  {
  }

  /** applyCommands. The fs operation it calls is not part of this model:
      `e` gives the inumbers it locks and its result. Every path that reaches
      the end returns with the manifest released, so the process holds the
      same locks as before; a fatal path exits before any lock is taken. */
  method ApplyCommands(command: Option<Request>, locks: LockTable, e: Effect) returns (res: int, fatal: bool)
    requires |e.taken| <= MAX_DEPTH && Distinct(e.taken) && Elems(e.taken) !! locks.held
    modifies locks
    ensures fatal <==> Dispatch(command).Exit?
    ensures Dispatch(command).Return? ==> res == Dispatch(command).code
    ensures Dispatch(command).Run? ==> res == e.res
    ensures locks.held == old(locks.held)
    ensures locks.unlocked == old(locks.unlocked) +
      if Dispatch(command).Run? && UsesManifest(Dispatch(command).op) then e.taken else []
  {
    var inodeWaitList := new int[MAX_DEPTH];
    var len := 0;
    if command == None {
      return FAIL, false;
    }
    var r := command.value;
    if r.numTokens < 2 {
      return 0, true;
    }
    match r.token
    case 'c' =>
      var nodeType := TypeChar(r);
      if nodeType == 'f' || nodeType == 'd' {
        res, len := Operate(inodeWaitList, len, locks, e);
        len := UnlockAll(inodeWaitList, len, locks);
        return res, false;
      }
      return 0, true;
    case 'l' =>
      var searchResult;
      searchResult, len := Operate(inodeWaitList, len, locks, e);
      len := UnlockAll(inodeWaitList, len, locks);
      return searchResult, false;
    case 'd' =>
      res, len := Operate(inodeWaitList, len, locks, e);
      len := UnlockAll(inodeWaitList, len, locks);
      return res, false;
    case 'm' =>
      res, len := Operate(inodeWaitList, len, locks, e);
      len := UnlockAll(inodeWaitList, len, locks);
      return res, false;
    case 'p' =>
      return e.res, false;
    case _ =>
      return 0, true;
  }

  /** What socketOn sends: the decimal text of the result, cut to two
      characters by `response[2] = '\0'`. */
  function Reply(res: int): (s: string)
    ensures 1 <= |s| <= 2
    ensures |s| <= |DecimalText(res)| && s == DecimalText(res)[..|s|]
    ensures |DecimalText(res)| <= 2 ==> s == DecimalText(res)
    ensures |DecimalText(res)| > 2 ==> s == DecimalText(res)[..2]
  {
    Truncated(DecimalText(res), 2)
  }

  /** Any result from -9 to 99 reaches the client intact. */
  lemma ReplyRoundTrip(res: int)
    requires -9 <= res <= 99
    ensures DecimalValue(Reply(res)) == Some(res)
  {
    ShortText(res);
    DecimalRoundTrip(res);
  }

  /** One request of socketOn: apply it, then send the reply. The result of
      an operation is SUCCESS, FAIL or, for a lookup, an inumber, and each of
      those is sent intact. */
  method Serve(command: Option<Request>, locks: LockTable, e: Effect) returns (reply: string, fatal: bool)
    requires |e.taken| <= MAX_DEPTH && Distinct(e.taken) && Elems(e.taken) !! locks.held
    modifies locks
    ensures fatal <==> Dispatch(command).Exit?
    ensures locks.held == old(locks.held)
    ensures !fatal && (e.res == FAIL || 0 <= e.res < INODE_TABLE_SIZE) ==>
      DecimalValue(reply) == Some(if command.None? then FAIL else e.res)
  {
    var res;
    res, fatal := ApplyCommands(command, locks, e);
    if fatal {
      return "", true;
    }
    reply := Reply(res);
    if e.res == FAIL || 0 <= e.res < INODE_TABLE_SIZE || command.None? {
      ReplyRoundTrip(res);
    }
  }
}
