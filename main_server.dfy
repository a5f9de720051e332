/** The earlier datagram server (main.c at the top of the repository). Its
    applyCommands differs from server/main.c in three ways: NULL gives -2,
    there is no 'p' case, and socketOn keeps one character of the reply. */
module MainServer {
  import opened FsState
  import opened Commands
  import opened Manifests
  import opened Replies
  import Server

  /** The result for a NULL command (and for falling off the switch, which
      no command reaches). socketOn always passes its own buffer, so -2 is
      never sent. */
  const NO_COMMAND: int := -2

  /** The dispatch of main.c: as in server/main.c, except that NULL gives -2
      and 'p' is an unknown letter, so fatal. */
  function Dispatch(command: Option<Request>): (a: Server.Action)
    ensures a.Return? <==> command.None?
    ensures a.Return? ==> a.code == NO_COMMAND
    ensures command.Some? && command.value.numTokens < 2 ==> a == Server.Exit
    ensures a.Run? ==> command.Some? && command.value.token in "cldm" && a.op != Server.PrintTree
  {
    match command
    case None => Server.Return(NO_COMMAND)
    case Some(r) =>
      if r.numTokens < 2 then Server.Exit
      else match r.token
        case 'c' =>
          if TypeChar(r) == 'f' then Server.Run(Server.CreateFile)
          else if TypeChar(r) == 'd' then Server.Run(Server.CreateDirectory)
          else Server.Exit
        case 'l' => Server.Run(Server.LookupPath)
        case 'd' => Server.Run(Server.DeletePath)
        case 'm' => Server.Run(Server.MovePath)
        case _ => Server.Exit
  }

  /** The two handlers agree on every request except NULL and 'p'. */
  lemma VariantsAgree(command: Option<Request>)
    ensures command.None? ==> Dispatch(command) == Server.Return(NO_COMMAND) && Server.Dispatch(command) == Server.Return(FAIL)
    ensures command.Some? && command.value.token != 'p' ==> Dispatch(command) == Server.Dispatch(command)
    ensures command.Some? && command.value.token == 'p' ==>
      Dispatch(command) == Server.Exit && (command.value.numTokens >= 2 ==> Server.Dispatch(command) == Server.Run(Server.PrintTree))
    ensures Dispatch(command).Run? ==> Server.UsesManifest(Dispatch(command).op)
  {
  }

  /** applyCommands of main.c: every operation it runs takes the manifest,
      which is released before the result is returned. */
  method ApplyCommands(command: Option<Request>, locks: LockTable, e: Effect) returns (res: int, fatal: bool)
    requires |e.taken| <= MAX_DEPTH && Distinct(e.taken) && Elems(e.taken) !! locks.held
    modifies locks
    ensures fatal <==> Dispatch(command).Exit?
    ensures Dispatch(command).Return? ==> res == Dispatch(command).code
    ensures Dispatch(command).Run? ==> res == e.res
    ensures locks.held == old(locks.held)
    ensures locks.unlocked == old(locks.unlocked) + if Dispatch(command).Run? then e.taken else []
  {
    var inodeWaitList := new int[MAX_DEPTH];
    var len := 0;
    if command == None {
      return NO_COMMAND, false;
    }
    var r := command.value;
    if r.numTokens < 2 {
      return 0, true;
    }
    match r.token
    case 'c' =>
      var nodeType := TypeChar(r);
      if nodeType == 'f' || nodeType == 'd' {
        res, len := Operate(inodeWaitList, len, locks, e);
        len := UnlockAll(inodeWaitList, len, locks);
        return res, false;
      }
      return 0, true;
    case 'l' =>
      var searchResult;
      searchResult, len := Operate(inodeWaitList, len, locks, e);
      len := UnlockAll(inodeWaitList, len, locks);
      return searchResult, false;
    case 'd' =>
      res, len := Operate(inodeWaitList, len, locks, e);
      len := UnlockAll(inodeWaitList, len, locks);
      return res, false;
    case 'm' =>
      res, len := Operate(inodeWaitList, len, locks, e);
      len := UnlockAll(inodeWaitList, len, locks);
      return res, false;
    case _ =>
      return 0, true;
  }

  /** The reply as main.c's socketOn writes it: `response[1] = '\0'` keeps
      one character of the decimal text. */
  function ReplyAsWritten(res: int): (s: string)
    ensures |s| == 1 && s[0] == DecimalText(res)[0]
  {
    Truncated(DecimalText(res), 1)
  }

  /** With one character, FAIL (and every negative result) arrives as "-",
      which is not a number, and lookup results 1 and 12 both arrive as "1". */
  lemma ReplyAsWrittenLosesResults(res: int)
    ensures res < 0 ==> ReplyAsWritten(res) == "-"
    ensures ReplyAsWritten(FAIL) == "-" && DecimalValue("-") == None
    ensures ReplyAsWritten(1) == ReplyAsWritten(12) == "1"
  {
    assert DecimalText(12) == Digits(1) + [DigitChar(2)];
  }

  /** One request of main.c's socketOn, sending the two characters the client
      reads (SERVER_RESPONSE_SIZE in the client library) instead of one:
      every result applyCommands can return then reaches the client intact. */
  method Serve(command: Option<Request>, locks: LockTable, e: Effect) returns (reply: string, fatal: bool)
    requires |e.taken| <= MAX_DEPTH && Distinct(e.taken) && Elems(e.taken) !! locks.held
    modifies locks
    ensures fatal <==> Dispatch(command).Exit?
    ensures locks.held == old(locks.held)
    ensures !fatal && (e.res == FAIL || 0 <= e.res < INODE_TABLE_SIZE) ==>
      DecimalValue(reply) == Some(if command.None? then NO_COMMAND else e.res)
  {
    var res;
    res, fatal := ApplyCommands(command, locks, e);
    if fatal {
      return "", true;
    }
    reply := Server.Reply(res);
    if e.res == FAIL || 0 <= e.res < INODE_TABLE_SIZE || command.None? {
      Server.ReplyRoundTrip(res);
    }
  }
}
