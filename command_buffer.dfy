/** The bounded command buffer of the batch program (main.c of
    so-20-21-ex1_base): a circular array with an insert index, a remove index
    and a count. The mutex and the condition variables are left out; the
    condition waits become preconditions. */
module CommandBuffers {
  import opened Commands

  const MAX_COMMANDS: int := 150000

  /** One step of the next index, wrapping to 0 at MAX_COMMANDS. */
  function Next(i: int): (r: int)
    requires 0 <= i < MAX_COMMANDS
    ensures 0 <= r < MAX_COMMANDS
    ensures r == (i + 1) % MAX_COMMANDS
  {
    if i + 1 == MAX_COMMANDS then 0 else i + 1
  }

  /** The slot that holds the k-th command after `base`. */
  function Slot(base: int, k: int): int {
    (base + k) % MAX_COMMANDS
  }

  class CommandBuffer {
    const inputCommands: array<Command>
    var numberCommands: int
    var insertIndex: int
    var removeIndex: int
    var finished: bool
    /** The queued commands, oldest first. */
    ghost var Contents: seq<Command>

    ghost predicate Valid()
      reads this, inputCommands
    {
      inputCommands.Length == MAX_COMMANDS
      && 0 <= numberCommands <= MAX_COMMANDS
      && 0 <= insertIndex < MAX_COMMANDS && 0 <= removeIndex < MAX_COMMANDS
      && insertIndex == Slot(removeIndex, numberCommands)
      && |Contents| == numberCommands
      && forall k :: 0 <= k < numberCommands ==> Contents[k] == inputCommands[Slot(removeIndex, k)]
    }

    /** The buffer at program start: empty, input not finished. */
    constructor ()
      ensures Valid() && fresh(inputCommands)
      ensures Contents == [] && !finished
      ensures numberCommands == 0 && insertIndex == 0 && removeIndex == 0
    {
      inputCommands := new Command[MAX_COMMANDS](_ => Command('\0', "", '\0', -1));
      numberCommands, insertIndex, removeIndex := 0, 0, 0;
      finished := false;
      Contents := [];
    }

    /** insertCommand: stores `data` at the insert index and advances it. The
        wait for room (`numberCommands == MAX_COMMANDS`) is the precondition. */
    method InsertCommand(data: Command) returns (r: int)
      requires Valid() && numberCommands < MAX_COMMANDS
      modifies this, inputCommands
      ensures Valid()
      ensures r == 1
      ensures Contents == old(Contents) + [data]
      ensures inputCommands[old(insertIndex)] == data
      ensures forall i :: 0 <= i < MAX_COMMANDS && i != old(insertIndex) ==> inputCommands[i] == old(inputCommands[i])
      ensures insertIndex == Next(old(insertIndex)) && numberCommands == old(numberCommands) + 1
      ensures removeIndex == old(removeIndex) && finished == old(finished)
    {
      ghost var k0 := insertIndex;
      inputCommands[insertIndex] := data;
      insertIndex := insertIndex + 1;
      if insertIndex == MAX_COMMANDS {
        insertIndex := 0;
      }
      numberCommands := numberCommands + 1;
      Contents := Contents + [data];
      forall k | 0 <= k < numberCommands - 1
        ensures Slot(removeIndex, k) != k0
      {
        RingDistinct(removeIndex, k, numberCommands - 1);
      }
      r := 1;
    }

    /** removeCommand: once input is finished and the buffer is empty, NULL
        (None) with nothing changed; otherwise the command at the remove index,
        which then advances. The wait for a command or for the end of input is
        the precondition. */
    method RemoveCommand() returns (command: Option<Command>)
      requires Valid()
      requires numberCommands > 0 || finished
      modifies this
      ensures Valid() && finished == old(finished) && insertIndex == old(insertIndex)
      ensures old(numberCommands) == 0 ==>
        command == None && Contents == old(Contents) && numberCommands == 0 && removeIndex == old(removeIndex)
      ensures old(numberCommands) > 0 ==>
        command == Some(old(Contents)[0]) && command.value == inputCommands[old(removeIndex)]
        && Contents == old(Contents)[1..]
        && removeIndex == Next(old(removeIndex)) && numberCommands == old(numberCommands) - 1
    {
      if finished && numberCommands == 0 {
        return None;
      }
      command := Some(inputCommands[removeIndex]);
      assert Contents[0] == inputCommands[Slot(removeIndex, 0)];
      ghost var r0 := removeIndex;
      removeIndex := removeIndex + 1;
      if removeIndex == MAX_COMMANDS {
        removeIndex := 0;
      }
      numberCommands := numberCommands - 1;
      Contents := Contents[1..];
      forall k | 0 <= k < numberCommands
        ensures Slot(removeIndex, k) == Slot(r0, k + 1)
      {
        RingShift(r0, k);
      }
    }

    /** End of input: `finished = 1`. */
    method Finish()
      requires Valid()
      modifies this
      ensures Valid() && finished
      ensures Contents == old(Contents) && numberCommands == old(numberCommands)
      ensures insertIndex == old(insertIndex) && removeIndex == old(removeIndex)
    {
      finished := true;
    }
  }

  /** Two different positions of a window shorter than the ring map to
      different slots. */
  lemma RingDistinct(base: int, k: int, n: int)
    requires 0 <= base < MAX_COMMANDS && 0 <= k < n < MAX_COMMANDS
    ensures Slot(base, k) != Slot(base, n)
  {
    var a, b := base + k, base + n;
    if a < MAX_COMMANDS && b < MAX_COMMANDS {
    } else if a < MAX_COMMANDS {
      assert b % MAX_COMMANDS == b - MAX_COMMANDS;
    } else {
      assert a % MAX_COMMANDS == a - MAX_COMMANDS && b % MAX_COMMANDS == b - MAX_COMMANDS;
    }
  }

  /** Advancing the base by one shifts the window by one. */
  lemma RingShift(base: int, k: int)
    requires 0 <= base < MAX_COMMANDS && 0 <= k < MAX_COMMANDS - 1
    ensures Slot(Next(base), k) == Slot(base, k + 1)
  {
  }

  /** A sequence of buffer operations, in the order they happen. */
  datatype Op = Put(c: Command) | Take

  /** The commands a sequence of operations takes out of a buffer that holds
      `q`, and what the buffer holds afterwards. A Take on an empty buffer
      takes nothing (removeCommand's NULL). */
  function Replay(q: seq<Command>, ops: seq<Op>): (r: (seq<Command>, seq<Command>))
    decreases |ops|
  {
    if ops == [] then ([], q)
    else match ops[0]
      case Put(c) => Replay(q + [c], ops[1..])
      case Take =>
        if q == [] then Replay(q, ops[1..])
        else var r := Replay(q[1..], ops[1..]); ([q[0]] + r.0, r.1)
  }

  /** The commands put in, in order. */
  function Puts(ops: seq<Op>): (r: seq<Command>)
    ensures |r| <= |ops|
  {
    if ops == [] then []
    else (if ops[0].Put? then [ops[0].c] else []) + Puts(ops[1..])
  }

  /** One step of Replay is one call on the buffer: a Put is what
      InsertCommand's contract says of Contents (the command appended), and
      a Take is what RemoveCommand's says (None on an empty buffer, else the
      oldest command, removed). */
  lemma ReplaySteps(q: seq<Command>, c: Command)
    ensures Replay(q, [Put(c)]) == ([], q + [c])
    ensures Replay(q, [Take]) == if q == [] then ([], []) else ([q[0]], q[1..])
  {
    assert [Put(c)][1..] == [];
    assert [Take][1..] == [];
    if q != [] {
      assert [q[0]] + [] == [q[0]];
    }
  }

  /** Replaying two sequences of operations one after the other. */
  lemma {:induction false} ReplayAppend(q: seq<Command>, ops: seq<Op>, more: seq<Op>)
    ensures var a := Replay(q, ops); var b := Replay(a.1, more);
      Replay(q, ops + more) == (a.0 + b.0, b.1)
    decreases |ops|
  {
    if ops == [] {
      assert ops + more == more;
      assert [] + Replay(q, more).0 == Replay(q, more).0;
    } else {
      assert (ops + more)[0] == ops[0];
      assert (ops + more)[1..] == ops[1..] + more;
      match ops[0]
      case Put(c) =>
        ReplayAppend(q + [c], ops[1..], more);
      case Take =>
        if q == [] {
          ReplayAppend(q, ops[1..], more);
        } else {
          ReplayAppend(q[1..], ops[1..], more);
          var a := Replay(q[1..], ops[1..]);
          var b := Replay(a.1, more);
          assert [q[0]] + (a.0 + b.0) == ([q[0]] + a.0) + b.0;
        }
    }
  }

  /** FIFO: what comes out, followed by what is left, is what was there
      followed by what was put in, in the same order. */
  lemma {:induction false} FifoOrder(q: seq<Command>, ops: seq<Op>)
    ensures Replay(q, ops).0 + Replay(q, ops).1 == q + Puts(ops)
    decreases |ops|
  {
    if ops != [] {
      match ops[0]
      case Put(c) =>
        FifoOrder(q + [c], ops[1..]);
        assert q + [c] + Puts(ops[1..]) == q + Puts(ops);
      case Take =>
        if q == [] {
          FifoOrder(q, ops[1..]);
        } else {
          FifoOrder(q[1..], ops[1..]);
          var r := Replay(q[1..], ops[1..]);
          assert [q[0]] + r.0 + r.1 == [q[0]] + (r.0 + r.1);
          assert [q[0]] + q[1..] == q;
          assert Puts(ops) == Puts(ops[1..]);
        }
    }
  }
}
