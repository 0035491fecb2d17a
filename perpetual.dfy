/** PerpetualCommand: runs one wrapped command for as long as the wrapper
    itself runs, ignoring the wrapped command's own end condition. The
    wrapped command is child 0 of the traces below. */
module Perpetual {
  import opened Lifecycle
  import opened Ownership

  /** The wrapper's run state: the wrapped command, its Execute() count since
      its Initialize(), and the calls made on it since then. */
  datatype State = State(command: Command, steps: nat, trace: seq<Call>)

  function Initialized(s: State): (r: State) {
    State(s.command, 0, [Start(0)])
  }

  function Executed(s: State): (r: State) {
    State(s.command, s.steps + 1, s.trace + [Step(0)])
  }

  /** End(interrupted) is forwarded with the wrapper's own flag. */
  function Ended(s: State, interrupted: bool): (r: State) {
    State(s.command, s.steps, s.trace + [Stop(0, interrupted)])
  }

  /** The wrapped command's own IsFinished() answer. */
  predicate WrappedFinished(s: State) {
    IsFinishedAfter(s.command, s.steps)
  }

  /** PerpetualCommand does not override IsFinished(): it keeps the default
      answer, false. */
  predicate Finished(s: State) {
    false
  }

  /** The run state after Initialize() and `k` Execute() cycles. */
  function RunFromStart(s: State, k: nat): (r: State)
    decreases k
  {
    if k == 0 then Initialized(s) else Executed(RunFromStart(s, k - 1))
  }

  /** The wrapped command is executed every cycle and is never ended while
      the wrapper runs; the wrapper never reports finished. */
  lemma {:induction false} RunsForever(s: State, k: nat)
    ensures RunFromStart(s, k).trace == [Start(0)] + Steps(0, k)
    ensures RunFromStart(s, k).steps == k && RunFromStart(s, k).command == s.command
    ensures !Finished(RunFromStart(s, k))
    decreases k
  {
    if k > 0 {
      RunsForever(s, k - 1);
    }
  }

  /** The wrapper ignores the wrapped command's end condition: in every cycle
      after the one in which the wrapped command first reports finished, it
      is still executed, it is not ended, and the wrapper is not finished. */
  lemma ExecutedPastOwnFinish(s: State, k: nat)
    requires k > Duration(s.command)
    ensures var before := RunFromStart(s, k - 1);
      && WrappedFinished(before)
      && WrappedFinished(RunFromStart(s, k))
      && RunFromStart(s, k).trace == before.trace + [Step(0)]
      && Count(RunFromStart(s, k).trace, Stop(0, false)) == 0
      && Count(RunFromStart(s, k).trace, Stop(0, true)) == 0
      && !Finished(RunFromStart(s, k))
  {
    RunsForever(s, k - 1);
    RunsForever(s, k);
    var steps := Steps(0, k);
    StepsCount(0, k, Stop(0, false));
    StepsCount(0, k, Stop(0, true));
    CountConcat([Start(0)], steps, Stop(0, false));
    CountConcat([Start(0)], steps, Stop(0, true));
    CountSnoc([], Start(0), Stop(0, false));
    CountSnoc([], Start(0), Stop(0, true));
  }

  /** A scheduler ends a command normally only when its IsFinished() answers
      true, so the wrapper is ended only by interruption: after any number of
      cycles, the wrapped command has been started once, executed every cycle
      and ended once, by interruption, never normally. */
  lemma EndedOnlyByInterruption(s: State, k: nat)
    ensures var r := RunFromStart(s, k);
      var e := Ended(r, !Finished(r));
      && Count(e.trace, Start(0)) == 1
      && Count(e.trace, Step(0)) == k
      && Count(e.trace, Stop(0, true)) == 1
      && Count(e.trace, Stop(0, false)) == 0
  {
    RunsForever(s, k);
    var steps := Steps(0, k);
    forall x | x in [Start(0), Step(0), Stop(0, true), Stop(0, false)]
      ensures Count(Ended(RunFromStart(s, k), true).trace, x) ==
        Count([Start(0)], x) + Count(steps, x) + (if x == Stop(0, true) then 1 else 0)
    {
      StepsCount(0, k, x);
      CountConcat([Start(0)], steps, x);
      CountSnoc([Start(0)] + steps, Stop(0, true), x);
      CountSnoc([], Start(0), x);
    }
    StepsCount(0, k, Start(0));
    StepsCount(0, k, Step(0));
    StepsCount(0, k, Stop(0, true));
    StepsCount(0, k, Stop(0, false));
    CountSnoc([], Start(0), Start(0));
    CountSnoc([], Start(0), Step(0));
    CountSnoc([], Start(0), Stop(0, true));
    CountSnoc([], Start(0), Stop(0, false));
  }

  class PerpetualCommand {
    /** m_command: the wrapped command; None when the constructor refused it. */
    var command: Option<Command>
    /** The wrapped command's Execute() count since its Initialize(). */
    var steps: nat
    var requirements: set<SubsystemId>
    /** The calls made on the wrapped command since Initialize(). */
    ghost var trace: seq<Call>

    ghost function Model(): (r: State)
      requires command.Some?
      reads this
    {
      State(command.value, steps, trace)
    }

    ghost predicate Valid()
      reads this
    {
      requirements == if command.Some? then command.value.requirements else {}
    }

    /** PerpetualCommand(command): a command that is already grouped is
        refused (and an error reported); otherwise it becomes grouped, is
        owned by the wrapper, and the wrapper requires what it requires. */
    constructor (registry: GroupRegistry, c: Command)
      modifies registry
      ensures Valid() && steps == 0 && trace == []
      ensures command == if c.id !in old(registry.grouped) then Some(c) else None
      ensures registry.grouped == old(registry.grouped) + if command.Some? then {c.id} else {}
    {
      command, steps, requirements, trace := None, 0, {}, [];
      new;
      var ok, _ := registry.RequireUngrouped(c);
      if ok {
        command := Some(c);
        registry.MarkGrouped(c);
        requirements := c.requirements;
      }
    }

    method Initialize()
      requires Valid() && command.Some?
      modifies this
      ensures command == old(command) && Valid() && Model() == Initialized(old(Model()))
    {
      steps, trace := 0, [Start(0)];
    }

    method Execute()
      requires Valid() && command.Some?
      modifies this
      ensures command == old(command) && Valid() && Model() == Executed(old(Model()))
    {
      steps, trace := steps + 1, trace + [Step(0)];
    }

    method End(interrupted: bool)
      requires Valid() && command.Some?
      modifies this
      ensures command == old(command) && Valid() && Model() == Ended(old(Model()), interrupted)
    {
      trace := trace + [Stop(0, interrupted)];
    }

    /** The inherited IsFinished(): never true, whatever the wrapped command
        reports. */
    method IsFinished() returns (done: bool)
      requires Valid()
      ensures !done && (command.Some? ==> done == Finished(Model()))
    {
      done := false;
    }

    /** The inherited RunsWhenDisabled(): false. */
    method RunsWhenDisabled() returns (b: bool)
      requires Valid()
      ensures !b
    {
      b := false;
    }

    /** The wrapper requires exactly what the wrapped command requires. */
    method GetRequirements() returns (r: set<SubsystemId>)
      requires Valid()
      ensures command.Some? ==> r == command.value.requirements
      ensures command.None? ==> r == {}
    {
      r := requirements;
    }
  }
}
