/** ParallelRaceGroup: runs all of its children at once and finishes as soon
    as any one of them finishes; the others are then interrupted. */
module Race {
  import opened Lifecycle
  import opened Ownership

  /** The group's run state: each child's Execute() count since Initialize(),
      whether some child has reported finished, and the calls made since
      Initialize(). */
  datatype State = State(steps: seq<nat>, finished: bool, trace: seq<Call>)

  /** Initialize(): every child is started; nothing has finished. */
  function Initialized(cmds: seq<Command>, s: State): (r: State)
    requires |s.steps| == |cmds|
  {
    State(Zeros(|cmds|), false, Starts(|cmds|))
  }

  /** Some child reports finished after its next Execute(). */
  predicate AnyFinishesNext(cmds: seq<Command>, steps: seq<nat>)
    requires |steps| == |cmds|
  {
    exists i :: 0 <= i < |cmds| && IsFinishedAfter(cmds[i], steps[i] + 1)
  }

  /** Execute(): every child is executed, whether or not another one has
      finished; the group's flag is raised when some child reports finished. */
  function Executed(cmds: seq<Command>, s: State): (r: State)
    requires |s.steps| == |cmds|
  {
    State(
      seq(|cmds|, i requires 0 <= i < |cmds| => s.steps[i] + 1),
      s.finished || AnyFinishesNext(cmds, s.steps),
      s.trace + StepAll(|cmds|))
  }

  /** The calls End() makes on children 0..k-1: each child is ended, as
      interrupted exactly when it does not report finished. */
  function EndCalls(cmds: seq<Command>, steps: seq<nat>, k: nat): (r: seq<Call>)
    requires |steps| == |cmds| && k <= |cmds|
  {
    if k == 0 then []
    else EndCalls(cmds, steps, k - 1) + [Stop(k - 1, !IsFinishedAfter(cmds[k - 1], steps[k - 1]))]
  }

  /** End(interrupted): every child is ended, whatever `interrupted` says. */
  function Ended(cmds: seq<Command>, s: State): (r: State)
    requires |s.steps| == |cmds|
  {
    State(s.steps, s.finished, s.trace + EndCalls(cmds, s.steps, |cmds|))
  }

  /** `k` cycles of Execute() calls on `n` children. */
  function Rounds(n: nat, k: nat): (r: seq<Call>)
    ensures |r| == n * k
  {
    if k == 0 then [] else Rounds(n, k - 1) + StepAll(n)
  }

  /** The shape of a run after `t` cycles: every child has been executed `t`
      times after being started once, and the group's flag says whether some
      child has reported finished in one of those cycles. */
  predicate Racing(cmds: seq<Command>, s: State, t: nat) {
    && |s.steps| == |cmds|
    && (forall i :: 0 <= i < |cmds| ==> s.steps[i] == t)
    && s.trace == Starts(|cmds|) + Rounds(|cmds|, t)
    && s.finished == (t > 0 && exists i :: 0 <= i < |cmds| && IsFinishedAfter(cmds[i], t))
  }

  lemma InitializedRacing(cmds: seq<Command>, s: State)
    requires |s.steps| == |cmds|
    ensures Racing(cmds, Initialized(cmds, s), 0)
  {
    assert Starts(|cmds|) + [] == Starts(|cmds|);
  }

  /** Execute() advances every child by one cycle together; IsFinished()
      answers true from the first cycle in which any child finishes. */
  lemma ExecutedRacing(cmds: seq<Command>, s: State, t: nat)
    requires Racing(cmds, s, t)
    ensures Racing(cmds, Executed(cmds, s), t + 1)
  {
    var r := Executed(cmds, s);
    assert s.trace + StepAll(|cmds|) == Starts(|cmds|) + Rounds(|cmds|, t + 1);
    if s.finished {
      var i :| 0 <= i < |cmds| && IsFinishedAfter(cmds[i], t);
      assert IsFinishedAfter(cmds[i], t + 1);
    }
  }

  /** The run state after Initialize() and `k` Execute() cycles. */
  function RunFromStart(cmds: seq<Command>, s: State, k: nat): (r: State)
    requires |s.steps| == |cmds|
    ensures |r.steps| == |cmds|
    decreases k
  {
    if k == 0 then Initialized(cmds, s) else Executed(cmds, RunFromStart(cmds, s, k - 1))
  }

  lemma {:induction false} RunIsRacing(cmds: seq<Command>, s: State, k: nat)
    requires |s.steps| == |cmds|
    ensures Racing(cmds, RunFromStart(cmds, s, k), k)
    decreases k
  {
    if k == 0 {
      InitializedRacing(cmds, s);
    } else {
      RunIsRacing(cmds, s, k - 1);
      ExecutedRacing(cmds, RunFromStart(cmds, s, k - 1), k - 1);
    }
  }

  /** The race ends with its first finisher: after Initialize() and `k`
      cycles the group is finished iff some child needs at most `k` cycles. A
      group without children never finishes. */
  lemma FinishesWithFirstChild(cmds: seq<Command>, s: State, k: nat)
    requires |s.steps| == |cmds|
    ensures RunFromStart(cmds, s, k).finished <==>
      exists i :: 0 <= i < |cmds| && Duration(cmds[i]) <= k
  {
    RunIsRacing(cmds, s, k);
    if exists i :: 0 <= i < |cmds| && Duration(cmds[i]) <= k {
      var i :| 0 <= i < |cmds| && Duration(cmds[i]) <= k;
      assert IsFinishedAfter(cmds[i], k);
    }
    if RunFromStart(cmds, s, k).finished {
      var i :| 0 <= i < |cmds| && IsFinishedAfter(cmds[i], k);
      assert Duration(cmds[i]) <= k;
    }
  }

  lemma {:induction false} RoundsCount(n: nat, k: nat, x: Call)
    ensures Count(Rounds(n, k), x) == if x.Step? && x.child < n then k else 0
  {
    if k > 0 {
      RoundsCount(n, k - 1, x);
      StepAllCount(n, x);
      CountConcat(Rounds(n, k - 1), StepAll(n), x);
    }
  }

  lemma {:induction false} EndCallsCount(cmds: seq<Command>, steps: seq<nat>, k: nat, x: Call)
    requires |steps| == |cmds| && k <= |cmds|
    ensures Count(EndCalls(cmds, steps, k), x) ==
      if x.Stop? && x.child < k && x.interrupted == !IsFinishedAfter(cmds[x.child], steps[x.child]) then 1 else 0
  {
    if k > 0 {
      var last := Stop(k - 1, !IsFinishedAfter(cmds[k - 1], steps[k - 1]));
      EndCallsCount(cmds, steps, k - 1, x);
      CountSnoc(EndCalls(cmds, steps, k - 1), last, x);
    }
  }

  /** The calls of a whole run, counted by kind: the starts, the cycles of
      Execute() calls and the ends. */
  lemma EndedCount(cmds: seq<Command>, s: State, t: nat, x: Call)
    requires Racing(cmds, s, t)
    ensures Count(Ended(cmds, s).trace, x) ==
      (if x.Start? && x.child < |cmds| then 1 else 0)
      + (if x.Step? && x.child < |cmds| then t else 0)
      + (if x.Stop? && x.child < |cmds| && x.interrupted == !IsFinishedAfter(cmds[x.child], t) then 1 else 0)
  {
    var n := |cmds|;
    var ends := EndCalls(cmds, s.steps, n);
    CountConcat(Starts(n), Rounds(n, t), x);
    CountConcat(s.trace, ends, x);
    StartsCount(n, x);
    RoundsCount(n, t, x);
    EndCallsCount(cmds, s.steps, n, x);
  }

  /** End() on a run, interrupted or finished: every child has been started
      once, executed once per cycle, and ended exactly once, normally iff it
      reports finished. So when the race is won, each child that finished
      ends normally and every other child is interrupted. */
  lemma EndedStopsEachChildOnce(cmds: seq<Command>, s: State, t: nat, j: nat)
    requires Racing(cmds, s, t) && j < |cmds|
    ensures var e := Ended(cmds, s);
      && Count(e.trace, Start(j)) == 1
      && Count(e.trace, Step(j)) == t
      && Count(e.trace, Stop(j, false)) == (if IsFinishedAfter(cmds[j], t) then 1 else 0)
      && Count(e.trace, Stop(j, true)) == (if IsFinishedAfter(cmds[j], t) then 0 else 1)
  {
    EndedCount(cmds, s, t, Start(j));
    EndedCount(cmds, s, t, Step(j));
    EndedCount(cmds, s, t, Stop(j, false));
    EndedCount(cmds, s, t, Stop(j, true));
  }

  class ParallelRaceGroup {
    var commands: seq<Command>
    /** Each child's Execute() count since Initialize(). */
    var steps: seq<nat>
    /** m_finished: some child has reported finished in this run. */
    var finished: bool
    var runWhenDisabled: bool
    var requirements: set<SubsystemId>
    var isRunning: bool
    /** The calls made on the children since the group's Initialize(). */
    ghost var trace: seq<Call>

    ghost function Model(): (r: State)
      reads this
    {
      State(steps, finished, trace)
    }

    ghost predicate Valid()
      reads this
    {
      && |steps| == |commands|
      && requirements == Requirements(commands)
      && runWhenDisabled == AllRunWhenDisabled(commands)
      && PairwiseDisjoint(commands)
    }

    /** ParallelRaceGroup(commands): an empty group to which the commands are
        added. */
    constructor (registry: GroupRegistry, cmds: seq<Command>)
      modifies registry
      ensures Valid() && !isRunning && !finished && trace == []
      ensures var k := if Ungrouped(old(registry.grouped), cmds) then DisjointPrefix({}, cmds) else 0;
        && commands == cmds[..k]
        && registry.grouped == old(registry.grouped) + Ids(cmds[..k])
    {
      commands, steps, finished := [], [], false;
      runWhenDisabled, requirements, isRunning, trace := true, {}, false, [];
      new;
      var _ := AddCommands(registry, cmds);
    }

    /** AddCommands: refused as a whole, with an error, when any command is
        already grouped. Otherwise the commands are taken in order, each
        marked grouped and added, until one requires a subsystem the group
        already holds: that one is reported and it and the rest are not
        added. Adding to a running group is reported but still done. */
    method AddCommands(registry: GroupRegistry, cmds: seq<Command>) returns (errors: seq<GroupError>)
      requires Valid()
      modifies this, registry
      ensures Valid()
      ensures isRunning == old(isRunning) && finished == old(finished) && trace == old(trace)
      ensures var ok := Ungrouped(old(registry.grouped), cmds);
        var k := if ok then DisjointPrefix(old(requirements), cmds) else 0;
        && commands == old(commands) + cmds[..k]
        && steps == old(steps) + Zeros(k)
        && registry.grouped == old(registry.grouped) + Ids(cmds[..k])
        && (ok ==>
              errors == (if old(isRunning) then [AddedWhileRunning] else [])
                + (if k < |cmds| then [RequirementsOverlap(cmds[k].id)] else []))
        && (!ok ==>
              |errors| == 1 && errors[0].AlreadyGrouped? && errors[0].command in old(registry.grouped))
    {
      var ok, report := registry.RequireUngroupedAll(cmds);
      if !ok {
        assert cmds[..0] == [];
        return [report.value];
      }
      var prefix := if isRunning then [AddedWhileRunning] else [];
      var overlap := AdoptDisjoint(registry, cmds);
      errors := prefix + overlap;
    }

    /** The accepting part of AddCommands. */
    method AdoptDisjoint(registry: GroupRegistry, cmds: seq<Command>) returns (errors: seq<GroupError>)
      requires Valid()
      modifies this, registry
      ensures Valid()
      ensures isRunning == old(isRunning) && finished == old(finished) && trace == old(trace)
      ensures var k := DisjointPrefix(old(requirements), cmds);
        && commands == old(commands) + cmds[..k]
        && steps == old(steps) + Zeros(k)
        && registry.grouped == old(registry.grouped) + Ids(cmds[..k])
        && errors == if k < |cmds| then [RequirementsOverlap(cmds[k].id)] else []
    {
      var i := 0;
      while i < |cmds| && cmds[i].requirements !! requirements
        invariant 0 <= i <= |cmds|
        invariant Valid()
        invariant DisjointPrefix(old(requirements), cmds) == i + DisjointPrefix(requirements, cmds[i..])
        invariant commands == old(commands) + cmds[..i]
        invariant steps == old(steps) + Zeros(i)
        invariant registry.grouped == old(registry.grouped) + Ids(cmds[..i])
        invariant isRunning == old(isRunning) && finished == old(finished) && trace == old(trace)
      {
        var c := cmds[i];
        DisjointPrefixStep(requirements, cmds, i);
        Adopt(registry, c);
        SliceStep(old(commands), cmds, i);
        assert Zeros(i + 1) == Zeros(i) + [0];
        assert old(steps) + Zeros(i) + [0] == old(steps) + Zeros(i + 1);
        i := i + 1;
      }
      if i < |cmds| {
        DisjointPrefixStep(requirements, cmds, i);
        errors := [RequirementsOverlap(cmds[i].id)];
      } else {
        errors := [];
      }
    }

    /** One command of AddCommands: marked grouped and added, with the
        group's requirements and RunsWhenDisabled updated. */
    method Adopt(registry: GroupRegistry, c: Command)
      requires Valid() && c.requirements !! requirements
      modifies this, registry
      ensures Valid()
      ensures requirements == old(requirements) + c.requirements
      ensures commands == old(commands) + [c] && steps == old(steps) + [0]
      ensures registry.grouped == old(registry.grouped) + {c.id}
      ensures isRunning == old(isRunning) && finished == old(finished) && trace == old(trace)
    {
      registry.MarkGrouped(c);
      AppendOne(commands, c);
      DisjointAppend(commands, c);
      requirements := requirements + c.requirements;
      runWhenDisabled := runWhenDisabled && c.runsWhenDisabled;
      commands := commands + [c];
      steps := steps + [0];
    }

    method Initialize()
      requires Valid()
      modifies this
      ensures Valid() && Model() == Initialized(old(commands), old(Model())) && isRunning
      ensures commands == old(commands) && requirements == old(requirements)
      ensures runWhenDisabled == old(runWhenDisabled)
    {
      var counts := steps;
      ghost var calls := [];
      var i := 0;
      while i < |commands|
        invariant 0 <= i <= |commands|
        invariant |counts| == |commands|
        invariant forall k :: 0 <= k < i ==> counts[k] == 0
        invariant calls == Starts(i)
      {
        calls := calls + [Start(i)];
        counts := counts[i := 0];
        i := i + 1;
      }
      steps, finished, trace, isRunning := counts, false, calls, true;
    }

    method Execute()
      requires Valid()
      modifies this
      ensures Valid() && Model() == Executed(old(commands), old(Model()))
      ensures commands == old(commands) && requirements == old(requirements)
      ensures runWhenDisabled == old(runWhenDisabled) && isRunning == old(isRunning)
    {
      ghost var s0 := Model();
      var counts := steps;
      var done := finished;
      ghost var calls := [];
      var i := 0;
      while i < |commands|
        invariant 0 <= i <= |commands|
        invariant |counts| == |commands|
        invariant forall k :: 0 <= k < i ==> counts[k] == s0.steps[k] + 1
        invariant forall k :: i <= k < |commands| ==> counts[k] == s0.steps[k]
        invariant done == (s0.finished || exists k :: 0 <= k < i && IsFinishedAfter(commands[k], s0.steps[k] + 1))
        invariant calls == StepAll(i)
      {
        counts := counts[i := counts[i] + 1];
        calls := calls + [Step(i)];
        if IsFinishedAfter(commands[i], counts[i]) {
          done := true;
        }
        i := i + 1;
      }
      ExecutedFromParts(commands, s0, counts, done, calls);
      steps, finished, trace := counts, done, trace + calls;
    }

    /** End(interrupted): each child is ended, as interrupted iff it does not
        report finished; the flag is not consulted. */
    method End(interrupted: bool)
      requires Valid()
      modifies this
      ensures Valid() && Model() == Ended(old(commands), old(Model())) && !isRunning
      ensures commands == old(commands) && requirements == old(requirements)
      ensures runWhenDisabled == old(runWhenDisabled)
    {
      ghost var calls := [];
      var i := 0;
      while i < |commands|
        invariant 0 <= i <= |commands|
        invariant calls == EndCalls(commands, steps, i)
      {
        var childFinished := IsFinishedAfter(commands[i], steps[i]);
        calls := calls + [Stop(i, !childFinished)];
        i := i + 1;
      }
      trace, isRunning := trace + calls, false;
    }

    /** True iff some child has reported finished in this run. */
    method IsFinished() returns (done: bool)
      requires Valid()
      ensures done == Model().finished
    {
      done := finished;
    }

    /** True iff every child runs when disabled (true for no children). */
    method RunsWhenDisabled() returns (b: bool)
      requires Valid()
      ensures b <==> forall i :: 0 <= i < |commands| ==> commands[i].runsWhenDisabled
    {
      b := runWhenDisabled;
    }

    /** The group requires exactly what some child requires, and no two
        children share a subsystem. */
    method GetRequirements() returns (r: set<SubsystemId>)
      requires Valid()
      ensures forall s :: s in r <==> exists i :: 0 <= i < |commands| && s in commands[i].requirements
      ensures forall i, j :: 0 <= i < j < |commands| ==> commands[i].requirements !! commands[j].requirements
    {
      r := requirements;
      forall s | true
        ensures s in r <==> exists i :: 0 <= i < |commands| && s in commands[i].requirements
      {
        RequirementsExact(commands, s);
      }
    }
  }

  /** Execute() as computed child by child. */
  lemma ExecutedFromParts(cmds: seq<Command>, s: State, counts: seq<nat>, done: bool, calls: seq<Call>)
    requires |s.steps| == |cmds| && |counts| == |cmds|
    requires forall k :: 0 <= k < |cmds| ==> counts[k] == s.steps[k] + 1
    requires done == (s.finished || exists k :: 0 <= k < |cmds| && IsFinishedAfter(cmds[k], s.steps[k] + 1))
    requires calls == StepAll(|cmds|)
    ensures State(counts, done, s.trace + calls) == Executed(cmds, s)
  {
  }
}
