/** The batch program (main.c of so-20-21-ex1_base): processInput admits
    the lines of the input into the command buffer, applyCommands drains the
    buffer and applies each command to the tree. The thread pool is left out:
    processInput runs to the end of input, then one applyCommands drains the
    buffer. Printing is kept as the Report each command would print. */
module Batch {
  import opened FsState
  import opened Paths
  import opened Operations
  import opened TreeProperties
  import opened Commands
  import opened CommandBuffers

  /** What processInput does with one line. */
  datatype Verdict = Skip | Enqueue | Reject

  /** The admission rule of processInput: lines without a token, and '#'
      comments, are skipped; 'c' needs three tokens and 'l' and 'd' two;
      anything else stops the program (errorParse). */
  function Admit(c: Command): (v: Verdict)
    ensures v == Enqueue <==> (c.token == 'c' && c.numTokens == 3) || (c.token in "ld" && c.numTokens == 2)
    ensures v == Skip <==> c.numTokens < 1 || c.token == '#'
    ensures v == Reject <==>
      (c.numTokens >= 1 && c.token != '#'
       && !((c.token == 'c' && c.numTokens == 3) || (c.token in "ld" && c.numTokens == 2)))
  {
    if c.numTokens < 1 then Skip
    else match c.token
      case 'c' => if c.numTokens != 3 then Reject else Enqueue
      case 'l' => if c.numTokens != 2 then Reject else Enqueue
      case 'd' => if c.numTokens != 2 then Reject else Enqueue
      case '#' => Skip
      case _ => Reject
  }

  /** Every line is something sscanf can produce. */
  predicate AllParsed(cmds: seq<Command>) {
    forall k :: 0 <= k < |cmds| ==> Parsed(cmds[k])
  }

  /** processInput over a whole input: the commands it queues, in input order,
      and whether it stopped at a rejected line. */
  function Intake(lines: seq<Command>): (r: (seq<Command>, bool))
    ensures forall k :: 0 <= k < |r.0| ==> Admit(r.0[k]) == Enqueue
    ensures AllParsed(lines) ==> AllParsed(r.0)
    ensures |r.0| <= |lines|
  {
    if lines == [] then ([], false)
    else
      var rest := Intake(lines[1..]);
      match Admit(lines[0])
      case Skip => rest
      case Enqueue => ([lines[0]] + rest.0, rest.1)
      case Reject => ([], true)
  }

  /** processInput fails exactly when some line is rejected, and it queues
      only lines of the input. */
  lemma {:induction false} IntakeFatal(lines: seq<Command>)
    ensures Intake(lines).1 <==> exists i :: 0 <= i < |lines| && Admit(lines[i]) == Reject
    ensures forall k :: 0 <= k < |Intake(lines).0| ==> Intake(lines).0[k] in lines
  {
    if lines != [] {
      IntakeFatal(lines[1..]);
      if Admit(lines[0]) != Reject && exists i :: 0 <= i < |lines| && Admit(lines[i]) == Reject {
        var i :| 0 <= i < |lines| && Admit(lines[i]) == Reject;
        assert lines[1..][i - 1] == lines[i];
      }
      if Intake(lines[1..]).1 {
        var i :| 0 <= i < |lines[1..]| && Admit(lines[1..][i]) == Reject;
        assert lines[i + 1] == lines[1..][i];
      }
      forall k | 0 <= k < |Intake(lines[1..]).0|
        ensures Intake(lines[1..]).0[k] in lines
      {
        assert Intake(lines[1..]).0[k] in lines[1..];
      }
    }
  }

  /** Lines are handled in order: the intake of two inputs in a row is the
      intake of the first, then, unless it was rejected, that of the second. */
  lemma {:induction false} IntakeAppend(a: seq<Command>, b: seq<Command>)
    ensures Intake(a + b) == if Intake(a).1 then Intake(a) else (Intake(a).0 + Intake(b).0, Intake(b).1)
    decreases |a|
  {
    if a == [] {
      assert a + b == b;
      assert Intake(a) == ([], false);
      assert [] + Intake(b).0 == Intake(b).0;
    } else {
      assert (a + b)[0] == a[0];
      assert (a + b)[1..] == a[1..] + b;
      IntakeAppend(a[1..], b);
      if Admit(a[0]) == Enqueue && !Intake(a[1..]).1 {
        assert [a[0]] + (Intake(a[1..]).0 + Intake(b).0) == [a[0]] + Intake(a[1..]).0 + Intake(b).0;
      }
    }
  }

  /** The intake of a single line. */
  lemma IntakeSingle(x: Command)
    ensures Intake([x]) == (if Admit(x) == Enqueue then [x] else [], Admit(x) == Reject)
  {
    assert [x][1..] == [];
    assert Intake([]) == ([], false);
    assert [x] + [] == [x];
  }

  /** One more line after an input that was not rejected. */
  lemma IntakeStep(lines: seq<Command>, i: int)
    requires 0 <= i < |lines| && !Intake(lines[..i]).1
    ensures Admit(lines[i]) == Skip ==> Intake(lines[..i + 1]) == Intake(lines[..i])
    ensures Admit(lines[i]) == Enqueue ==> Intake(lines[..i + 1]) == (Intake(lines[..i]).0 + [lines[i]], false)
  {
    var x, a := lines[i], lines[..i];
    assert lines[..i + 1] == a + [x];
    IntakeAppend(a, [x]);
    IntakeSingle(x);
    var ia := Intake(a).0;
    assert ia + [] == ia;
  }

  /** A rejected line ends the intake: nothing after it is queued. */
  lemma IntakeRejected(a: seq<Command>, x: Command, b: seq<Command>)
    requires !Intake(a).1 && Admit(x) == Reject
    ensures Intake(a + [x] + b) == (Intake(a).0, true)
  {
    IntakeAppend(a, [x]);
    IntakeSingle(x);
    var ia := Intake(a).0;
    assert ia + [] == ia;
    IntakeAppend(a + [x], b);
  }

  /** processInput: queues the admitted lines, in order, and sets `finished`
      at the end of input. A rejected line ends the program (`fatal`) before
      `finished` is set. insertCommand always returns 1, so processInput does
      not return early. The room the buffer needs is a precondition: with no
      concurrent consumer a full buffer would block for ever. */
  method ProcessInput(buf: CommandBuffer, lines: seq<Command>) returns (fatal: bool)
    requires buf.Valid() && buf.numberCommands + |lines| <= MAX_COMMANDS
    modifies buf, buf.inputCommands
    ensures buf.Valid()
    ensures fatal == Intake(lines).1
    ensures buf.Contents == old(buf.Contents) + Intake(lines).0
    ensures fatal ==> buf.finished == old(buf.finished)
    ensures !fatal ==> buf.finished
  {
    var i := 0;
    while i < |lines|
      invariant 0 <= i <= |lines|
      invariant buf.Valid() && buf.finished == old(buf.finished)
      invariant buf.numberCommands <= old(buf.numberCommands) + i
      invariant !Intake(lines[..i]).1
      invariant buf.Contents == old(buf.Contents) + Intake(lines[..i]).0
    {
      IntakeStep(lines, i);
      var v := Admit(lines[i]);
      if v == Reject {
        assert lines == lines[..i] + [lines[i]] + lines[i + 1..];
        IntakeRejected(lines[..i], lines[i], lines[i + 1..]);
        return true;
      }
      if v == Enqueue {
        var r := buf.InsertCommand(lines[i]);
      }
      i := i + 1;
    }
    assert lines[..i] == lines;
    buf.Finish();
    return false;
  }

  /** The line applyCommands prints for a command. */
  datatype Report = CreateFile(name: string) | CreateDirectory(name: string)
    | Found(name: string) | NotFound(name: string) | Delete(name: string)

  /** The result of applying one command: the new table and the report, or
      the end of the program. */
  datatype Outcome = Applied(table: Table, report: Report) | Fatal

  /** One iteration of applyCommands. Fewer than two tokens, a 'c' whose type
      is neither 'f' nor 'd', and an unknown letter end the program. */
  function Step(s: Table, c: Command): (o: Outcome)
    requires Shaped(s) && Parsed(c)
    ensures o.Applied? ==> Shaped(o.table)
  {
    if c.numTokens < 2 then Fatal
    else match c.token
      case 'c' =>
        if c.nodeType == 'f' then Applied(CreateSpec(s, c.name, TFile).0, CreateFile(c.name))
        else if c.nodeType == 'd' then Applied(CreateSpec(s, c.name, TDirectory).0, CreateDirectory(c.name))
        else Fatal
      case 'l' => Applied(s, if Resolve(s, c.name) >= 0 then Found(c.name) else NotFound(c.name))
      case 'd' => Applied(DeleteSpec(s, c.name).0, Delete(c.name))
      case _ => Fatal
  }

  /** applyCommands over the commands it takes, in order: the final table,
      the reports, and whether the program ended on a fatal command. */
  function RunAll(s: Table, cmds: seq<Command>): (r: (Table, seq<Report>, bool))
    requires Shaped(s) && AllParsed(cmds)
    ensures Shaped(r.0) && |r.1| <= |cmds|
    ensures !r.2 ==> |r.1| == |cmds|
    decreases |cmds|
  {
    if cmds == [] then (s, [], false)
    else match Step(s, cmds[0])
      case Fatal => (s, [], true)
      case Applied(s1, rep) =>
        var rest := RunAll(s1, cmds[1..]);
        (rest.0, [rep] + rest.1, rest.2)
  }

  /** A command that processInput admitted can only be fatal to applyCommands
      by a node type other than 'f' and 'd'. */
  lemma AdmittedFatal(s: Table, c: Command)
    requires Shaped(s) && Parsed(c) && Admit(c) == Enqueue
    ensures Step(s, c).Fatal? <==> c.token == 'c' && c.nodeType != 'f' && c.nodeType != 'd'
  {
    assert c.token == 'c' || c.token == 'l' || c.token == 'd';
  }

  /** Every command keeps the tree well-formed. */
  lemma StepPreservesWellFormed(s: Table, c: Command)
    requires WellFormed(s) && Parsed(c)
    ensures Step(s, c).Applied? ==> WellFormed(Step(s, c).table)
  {
    if c.numTokens >= 2 {
      if c.token == 'c' {
        CreatePreservesWellFormed(s, c.name, TFile);
        CreatePreservesWellFormed(s, c.name, TDirectory);
      } else if c.token == 'd' {
        DeletePreservesWellFormed(s, c.name);
      }
    }
  }

  /** So does any run of commands. */
  lemma {:induction false} RunAllPreservesWellFormed(s: Table, cmds: seq<Command>)
    requires WellFormed(s) && AllParsed(cmds)
    ensures WellFormed(RunAll(s, cmds).0)
    decreases |cmds|
  {
    if cmds != [] {
      StepPreservesWellFormed(s, cmds[0]);
      if Step(s, cmds[0]).Applied? {
        RunAllPreservesWellFormed(Step(s, cmds[0]).table, cmds[1..]);
      }
    }
  }

  /** RunAll after one applied command. */
  lemma RunAllApplied(s: Table, q: seq<Command>, s1: Table, rep: Report, done: seq<Report>)
    requires Shaped(s) && AllParsed(q) && q != [] && Step(s, q[0]) == Applied(s1, rep)
    ensures Shaped(s1) && AllParsed(q[1..])
    ensures var r := RunAll(s1, q[1..]);
      RunAll(s, q) == (r.0, [rep] + r.1, r.2) && done + RunAll(s, q).1 == (done + [rep]) + r.1
  {
  }

  /** The body of applyCommands' loop for one command: the switch on its
      token. `fatal` is the exit the source takes on a command it cannot run. */
  method ApplyCommand(t: InodeTable, c: Command) returns (rep: Report, fatal: bool)
    requires t.Valid() && Parsed(c)
    modifies t.slots
    ensures t.Valid()
    ensures fatal <==> Step(old(t.slots[..]), c).Fatal?
    ensures fatal ==> t.slots[..] == old(t.slots[..])
    ensures !fatal ==> Step(old(t.slots[..]), c) == Applied(t.slots[..], rep)
  {
    rep, fatal := NotFound(c.name), true;
    if c.numTokens < 2 {
      return;
    }
    if c.token == 'c' {
      if c.nodeType == 'f' {
        rep := CreateFile(c.name);
        var res := Create(t, c.name, TFile);
      } else if c.nodeType == 'd' {
        rep := CreateDirectory(c.name);
        var res := Create(t, c.name, TDirectory);
      } else {
        return;
      }
    } else if c.token == 'l' {
      var searchResult := Lookup(t, c.name);
      rep := if searchResult >= 0 then Found(c.name) else NotFound(c.name);
    } else if c.token == 'd' {
      rep := Delete(c.name);
      var res := Operations.Delete(t, c.name);
    } else {
      return;
    }
    fatal := false;
  }

  /** applyCommands: takes commands until removeCommand returns NULL, which,
      with the input finished, happens once the buffer is empty. */
  method ApplyCommands(buf: CommandBuffer, t: InodeTable) returns (reports: seq<Report>, fatal: bool)
    requires buf.Valid() && buf.finished && t.Valid()
    requires AllParsed(buf.Contents)
    modifies buf, t.slots
    ensures t.Valid() && buf.Valid()
    ensures (t.slots[..], reports, fatal) == RunAll(old(t.slots[..]), old(buf.Contents))
    ensures !fatal ==> buf.Contents == []
  {
    reports := [];
    ghost var total := RunAll(t.slots[..], buf.Contents);
    assert reports + total.1 == total.1;
    while true
      invariant buf.Valid() && buf.finished && t.Valid()
      invariant AllParsed(buf.Contents)
      invariant total == RunAll(old(t.slots[..]), old(buf.Contents))
      invariant total.0 == RunAll(t.slots[..], buf.Contents).0
      invariant total.1 == reports + RunAll(t.slots[..], buf.Contents).1
      invariant total.2 == RunAll(t.slots[..], buf.Contents).2
      decreases buf.numberCommands
    {
      ghost var s := t.slots[..];
      ghost var q := buf.Contents;
      var command := buf.RemoveCommand();
      assert reports + [] == reports;
      if command == None {
        return reports, false;
      }
      var c := command.value;
      assert c == q[0] && buf.Contents == q[1..];
      var rep, stop := ApplyCommand(t, c);
      if stop {
        return reports, true;
      }
      RunAllApplied(s, q, t.slots[..], rep, reports);
      reports := reports + [rep];
    }
  }

  /** The batch program from start to end: init_fs, then processInput over
      the lines, then applyCommands. `fatal` is an exit with EXIT_FAILURE. */
  method RunBatch(lines: seq<Command>) returns (t: InodeTable, reports: seq<Report>, fatal: bool)
    requires |lines| <= MAX_COMMANDS && AllParsed(lines)
    ensures t.Valid()
    ensures fatal <==> Intake(lines).1 || RunAll(InitialTable(), Intake(lines).0).2
    ensures !fatal ==> (t.slots[..], reports, false) == RunAll(InitialTable(), Intake(lines).0)
    ensures !fatal ==> WellFormed(t.slots[..])
  {
    t := new InodeTable();
    var initFatal := InitFs(t);
    var buf := new CommandBuffer();
    fatal := ProcessInput(buf, lines);
    if fatal {
      return t, [], true;
    }
    assert buf.Contents == Intake(lines).0;
    reports, fatal := ApplyCommands(buf, t);
    InitialWellFormed();
    RunAllPreservesWellFormed(InitialTable(), Intake(lines).0);
  }
}
