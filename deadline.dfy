/** ParallelDeadlineGroup: runs all of its children at once and finishes when
    one designated child, the deadline, finishes; the children still running
    then are interrupted. The map of children to running flags is kept exactly
    as ParallelCommandGroup keeps it, so the group delegates that bookkeeping
    to one. */
module Deadline {
  import opened Lifecycle
  import opened Ownership
  import opened Parallel

  /** No child is flagged running and no child has been executed. */
  predicate Idle(running: seq<bool>, steps: seq<nat>) {
    |running| == |steps| && forall i :: 0 <= i < |running| ==> !running[i] && steps[i] == 0
  }

  /** The same for one child that may or may not have been accepted. */
  lemma IdleAppendOne(running: seq<bool>, steps: seq<nat>, ok: bool)
    requires Idle(running, steps)
    ensures Idle(running + (if ok then [false] else []), steps + (if ok then [0] else []))
  {
  }

  /** Children added without being started leave every child idle. */
  lemma IdleAppend(running: seq<bool>, steps: seq<nat>, k: nat)
    requires Idle(running, steps)
    ensures Idle(running + Flags(k, false), steps + Zeros(k))
  {
  }

  /** IsFinished(): the deadline's own IsFinished() answer, asked directly,
      whether or not other children have already finished. */
  predicate DeadlineFinished(cmds: seq<Command>, s: State, d: nat)
    requires WellFormed(cmds, s) && d < |cmds|
  {
    IsFinishedAfter(cmds[d], s.steps[d])
  }

  /** Once the deadline has been executed, the group is finished exactly when
      the deadline has been ended normally and dropped from the running
      children; other children finishing do not matter. */
  lemma FinishedIffDeadlineStopped(cmds: seq<Command>, s: State, d: nat)
    requires Balanced(cmds, s) && d < |cmds| && (s.steps[d] > 0 || !s.running[d])
    ensures DeadlineFinished(cmds, s, d) <==> !s.running[d]
    ensures DeadlineFinished(cmds, s, d) <==> Count(s.trace, Stop(d, false)) == 1
  {
  }

  /** After Initialize() and `k >= 1` cycles the group is finished iff `k`
      reaches the deadline's duration, whatever the other children need. */
  lemma FinishesWithDeadline(cmds: seq<Command>, s: State, d: nat, k: nat)
    requires WellFormed(cmds, s) && d < |cmds| && k >= 1
    ensures DeadlineFinished(cmds, Run(cmds, Initialized(cmds, s), k), d) <==> Duration(cmds[d]) <= k
  {
    RunFlags(cmds, Initialized(cmds, s), k, d);
  }

  /** End() after the deadline has finished: every child has been ended
      exactly once; the deadline normally, and every other child by
      interruption iff it was still running. */
  lemma EndedAfterDeadline(cmds: seq<Command>, s: State, d: nat, j: nat)
    requires Balanced(cmds, s) && d < |cmds| && j < |cmds|
    requires DeadlineFinished(cmds, s, d) && (s.steps[d] > 0 || !s.running[d])
    ensures var e := Ended(cmds, s, true);
      && Count(e.trace, Start(j)) == 1
      && Count(e.trace, Stop(j, false)) + Count(e.trace, Stop(j, true)) == 1
      && (j == d ==> Count(e.trace, Stop(j, false)) == 1)
      && (j != d ==> (Count(e.trace, Stop(j, true)) == 1 <==> s.running[j]))
  {
    EndedStopsEachChildOnce(cmds, s, true, j);
  }

  class ParallelDeadlineGroup {
    /** m_commands with its running flags, m_runWhenDisabled and isRunning. */
    const children: ParallelCommandGroup
    /** m_deadline, as the position of the deadline among the children; None
        when no deadline has been accepted. */
    var deadline: Option<nat>

    ghost predicate Valid()
      reads this, children
    {
      children.Valid() && (deadline.Some? ==> deadline.value < |children.commands|)
    }

    /** ParallelDeadlineGroup(deadline, commands): the deadline is set first,
        then the other commands are added. */
    constructor (registry: GroupRegistry, d: Command, cmds: seq<Command>)
      modifies registry
      ensures Valid() && fresh(children) && !children.isRunning && children.trace == []
      ensures deadline.Some? <==> d.id !in old(registry.grouped)
      ensures deadline.Some? ==> deadline.value == 0 && children.commands[0] == d
      ensures var first := if d.id !in old(registry.grouped) then [d] else [];
        var marked := old(registry.grouped) + Ids(first);
        var k := if Ungrouped(marked, cmds) then DisjointPrefix(Requirements(first), cmds) else 0;
        && children.commands == first + cmds[..k]
        && registry.grouped == marked + Ids(cmds[..k])
      ensures Idle(children.running, children.steps)
    {
      children := new ParallelCommandGroup(registry, []);
      deadline := None;
      new;
      assert children.commands == [] && children.running == [] && children.steps == [];
      assert children.requirements == {} && d.requirements !! {};
      ghost var first := if d.id !in registry.grouped then [d] else [];
      ghost var marked := registry.grouped + Ids(first);
      assert Ids([d]) == {d.id} && Requirements([d]) == d.requirements;
      IdleAppendOne([], [], d.id !in registry.grouped);
      var _ := SetDeadline(registry, d);
      assert children.commands == first && registry.grouped == marked;
      assert children.requirements == Requirements(first);
      ghost var k := if Ungrouped(marked, cmds) then DisjointPrefix(Requirements(first), cmds) else 0;
      ghost var running, steps := children.running, children.steps;
      var _ := AddCommands(registry, cmds);
      IdleAppend(running, steps, k);
      assert children.commands == first + cmds[..k];
      assert registry.grouped == marked + Ids(cmds[..k]);
    }

    /** SetDeadline: the deadline is added like any other command; it becomes
        the deadline only if it is accepted. */
    method SetDeadline(registry: GroupRegistry, d: Command) returns (errors: seq<GroupError>)
      requires Valid()
      modifies children, registry, this
      ensures Valid()
      ensures children.isRunning == old(children.isRunning) && children.trace == old(children.trace)
      ensures var ok := d.id !in old(registry.grouped) && d.requirements !! old(children.requirements);
        && children.commands == old(children.commands) + (if ok then [d] else [])
        && children.running == old(children.running) + (if ok then [false] else [])
        && children.steps == old(children.steps) + (if ok then [0] else [])
        && deadline == (if ok then Some(|old(children.commands)|) else None)
        && registry.grouped == old(registry.grouped) + (if ok then {d.id} else {})
    {
      var n := |children.commands|;
      assert [d][0] == d && [d][1..] == [];
      assert [d][..1] == [d] && [d][..0] == [];
      errors := children.AddCommands(registry, [d]);
      if |children.commands| > n {
        deadline := Some(n);
      } else {
        deadline := None;
      }
    }

    /** AddCommands, as for ParallelCommandGroup; the deadline stays where it is. */
    method AddCommands(registry: GroupRegistry, cmds: seq<Command>) returns (errors: seq<GroupError>)
      requires Valid()
      modifies children, registry
      ensures Valid() && deadline == old(deadline)
      ensures children.isRunning == old(children.isRunning) && children.trace == old(children.trace)
      ensures var ok := Ungrouped(old(registry.grouped), cmds);
        var k := if ok then DisjointPrefix(old(children.requirements), cmds) else 0;
        && children.commands == old(children.commands) + cmds[..k]
        && children.running == old(children.running) + Flags(k, false)
        && children.steps == old(children.steps) + Zeros(k)
        && registry.grouped == old(registry.grouped) + Ids(cmds[..k])
        && (ok ==>
              errors == (if old(children.isRunning) then [AddedWhileRunning] else [])
                + (if k < |cmds| then [RequirementsOverlap(cmds[k].id)] else []))
        && (!ok ==>
              |errors| == 1 && errors[0].AlreadyGrouped? && errors[0].command in old(registry.grouped))
    {
      errors := children.AddCommands(registry, cmds);
    }

    /** Every child, the deadline included, is started and flagged running. */
    method Initialize()
      requires Valid()
      modifies children
      ensures Valid() && children.Model() == Initialized(old(children.commands), old(children.Model()))
      ensures children.commands == old(children.commands) && children.isRunning
    {
      children.Initialize();
    }

    /** Each running child is executed; one that then reports finished is
        ended normally and no longer executed. */
    method Execute()
      requires Valid()
      modifies children
      ensures Valid() && children.Model() == Executed(old(children.commands), old(children.Model()))
      ensures children.commands == old(children.commands) && children.isRunning == old(children.isRunning)
    {
      children.Execute();
    }

    /** End(interrupted): whatever the flag says, every child still running is
        interrupted. */
    method End(interrupted: bool)
      requires Valid()
      modifies children
      ensures Valid() && children.Model() == Ended(old(children.commands), old(children.Model()), true)
      ensures children.commands == old(children.commands) && !children.isRunning
    {
      children.End(true);
    }

    /** The deadline's IsFinished() answer. */
    method IsFinished() returns (done: bool)
      requires Valid() && deadline.Some?
      ensures done == DeadlineFinished(children.commands, children.Model(), deadline.value)
    {
      var d := deadline.value;
      done := IsFinishedAfter(children.commands[d], children.steps[d]);
    }

    /** True iff every child, the deadline included, runs when disabled. */
    method RunsWhenDisabled() returns (b: bool)
      requires Valid()
      ensures b <==> forall i :: 0 <= i < |children.commands| ==> children.commands[i].runsWhenDisabled
    {
      b := children.RunsWhenDisabled();
    }

    /** The group requires exactly what some child requires, the deadline
        among them. */
    method GetRequirements() returns (r: set<SubsystemId>)
      requires Valid()
      ensures forall s :: s in r <==> exists i :: 0 <= i < |children.commands| && s in children.commands[i].requirements
      ensures deadline.Some? ==> children.commands[deadline.value].requirements <= r
    {
      r := children.GetRequirements();
    }
  }
}
