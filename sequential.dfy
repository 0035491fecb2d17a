/** SequentialCommandGroup: runs its children one after another, by an index
    that is advanced whenever the current child finishes. */
module Sequential {
  import opened Lifecycle
  import opened Ownership

  /** invalid_index: the largest size_t, taken as 64 bits wide. The index holds
      it before Initialize() and after End(). */
  const InvalidIndex: nat := 0xFFFF_FFFF_FFFF_FFFF

  /** The group's run state: each child's Execute() count since its own
      Initialize(), the current index, and the calls made since Initialize(). */
  datatype State = State(steps: seq<nat>, index: nat, trace: seq<Call>)

  predicate WellFormed(cmds: seq<Command>, s: State) {
    && |cmds| < InvalidIndex
    && |s.steps| == |cmds|
    && (s.index == InvalidIndex || s.index <= |cmds|)
  }

  /** Initialize(): index 0, and the first child, if any, is started. */
  function Initialized(cmds: seq<Command>, s: State): (r: State)
    requires WellFormed(cmds, s)
  {
    if cmds == [] then State(s.steps, 0, [])
    else State(s.steps[0 := 0], 0, [Start(0)])
  }

  /** Execute(): step the current child; when it reports finished, end it
      normally, advance the index and start the next child, if any. The
      source indexes the child list with the current index, so the index must
      denote a child whenever there is one. */
  function Executed(cmds: seq<Command>, s: State): (r: State)
    requires WellFormed(cmds, s) && (cmds == [] || s.index < |cmds|)
  {
    if cmds == [] then s
    else
      var i := s.index;
      var k := s.steps[i] + 1;
      var steps := s.steps[i := k];
      if !IsFinishedAfter(cmds[i], k) then State(steps, i, s.trace + [Step(i)])
      else if i + 1 < |cmds| then
        State(steps[i + 1 := 0], i + 1, s.trace + [Step(i), Stop(i, false), Start(i + 1)])
      else State(steps, i + 1, s.trace + [Step(i), Stop(i, false)])
  }

  /** End(interrupted): an interrupted group interrupts the child at the
      current index, if that index denotes one; the index becomes invalid. */
  function Ended(cmds: seq<Command>, s: State, interrupted: bool): (r: State)
    requires WellFormed(cmds, s)
  {
    var trace := if interrupted && s.index < |cmds| then s.trace + [Stop(s.index, true)] else s.trace;
    State(s.steps, InvalidIndex, trace)
  }

  /** IsFinished(): the index has moved past the last child. */
  predicate Finished(cmds: seq<Command>, s: State) {
    s.index == |cmds|
  }

  /** The calls a child receives over its whole run inside the group. */
  function ChildRun(i: nat, c: Command): (r: seq<Call>) {
    [Start(i)] + Steps(i, Duration(c)) + [Stop(i, false)]
  }

  /** The calls for children 0..k-1, each run to completion in list order. */
  function Completed(cmds: seq<Command>, k: nat): (r: seq<Call>)
    requires k <= |cmds|
  {
    if k == 0 then [] else Completed(cmds, k - 1) + ChildRun(k - 1, cmds[k - 1])
  }

  /** The shape of every run: the children before the index have run to
      completion in order, and the child at the index has been started and
      executed fewer times than it needs to finish. */
  predicate Canonical(cmds: seq<Command>, s: State) {
    && WellFormed(cmds, s)
    && s.index <= |cmds|
    && (s.index < |cmds| ==>
          && s.steps[s.index] < Duration(cmds[s.index])
          && s.trace == Completed(cmds, s.index) + [Start(s.index)] + Steps(s.index, s.steps[s.index]))
    && (s.index == |cmds| ==> s.trace == Completed(cmds, |cmds|))
  }

  /** Execute() cycles that children 0..k-1 need in total. */
  function Elapsed(cmds: seq<Command>, k: nat): (r: nat)
    requires k <= |cmds|
  {
    if k == 0 then 0 else Elapsed(cmds, k - 1) + Duration(cmds[k - 1])
  }

  /** Execute() cycles the group has gone through in the current run. */
  function Progress(cmds: seq<Command>, s: State): (r: nat)
    requires s.index <= |cmds| && |s.steps| == |cmds|
  {
    Elapsed(cmds, s.index) + if s.index < |cmds| then s.steps[s.index] else 0
  }

  /** Initialize() begins a run: the shape holds and no cycle has elapsed. */
  lemma InitializedIsCanonical(cmds: seq<Command>, s: State)
    requires WellFormed(cmds, s)
    ensures Canonical(cmds, Initialized(cmds, s))
    ensures Progress(cmds, Initialized(cmds, s)) == 0
  {
  }

  /** Execute() keeps the shape of the run and accounts for exactly one cycle:
      a child is started only right after its predecessor has ended normally. */
  lemma ExecutedIsCanonical(cmds: seq<Command>, s: State)
    requires Canonical(cmds, s) && s.index < |cmds|
    ensures Canonical(cmds, Executed(cmds, s))
    ensures Progress(cmds, Executed(cmds, s)) == Progress(cmds, s) + 1
  {
    var i := s.index;
    var prefix := Completed(cmds, i) + [Start(i)];
    assert s.trace + [Step(i)] == prefix + Steps(i, s.steps[i] + 1);
    if IsFinishedAfter(cmds[i], s.steps[i] + 1) {
      ChildCompletes(cmds, s);
    }
  }

  /** The current child's last cycle: it is ended normally and the next
      child, if any, is started with a fresh counter. */
  lemma ChildCompletes(cmds: seq<Command>, s: State)
    requires Canonical(cmds, s) && s.index < |cmds|
    requires IsFinishedAfter(cmds[s.index], s.steps[s.index] + 1)
    ensures Canonical(cmds, Executed(cmds, s))
    ensures Progress(cmds, Executed(cmds, s)) == Progress(cmds, s) + 1
  {
    var i := s.index;
    var k := s.steps[i] + 1;
    assert k == Duration(cmds[i]);
    var done := s.trace + [Step(i), Stop(i, false)];
    assert s.trace + [Step(i)] == Completed(cmds, i) + [Start(i)] + Steps(i, k);
    assert Completed(cmds, i + 1) == done;
    var r := Executed(cmds, s);
    if i + 1 < |cmds| {
      assert r == State(s.steps[i := k][i + 1 := 0], i + 1, done + [Start(i + 1)]);
      assert r.trace == Completed(cmds, i + 1) + [Start(i + 1)] + Steps(i + 1, 0);
    } else {
      assert r == State(s.steps[i := k], i + 1, done);
    }
  }

  lemma {:induction false} ElapsedMonotone(cmds: seq<Command>, i: nat, j: nat)
    requires i <= j <= |cmds|
    ensures Elapsed(cmds, i) <= Elapsed(cmds, j)
    decreases j - i
  {
    if i < j {
      ElapsedMonotone(cmds, i, j - 1);
    }
  }

  /** The group is finished exactly when every child has used up the cycles
      it needs; until then it has used fewer. */
  lemma ProgressBound(cmds: seq<Command>, s: State)
    requires Canonical(cmds, s)
    ensures Progress(cmds, s) <= Elapsed(cmds, |cmds|)
    ensures Finished(cmds, s) <==> Progress(cmds, s) == Elapsed(cmds, |cmds|)
  {
    if s.index < |cmds| {
      ElapsedMonotone(cmds, s.index + 1, |cmds|);
    }
  }

  /** The run state after `k` further Execute() cycles. */
  ghost function Run(cmds: seq<Command>, s: State, k: nat): (r: State)
    requires Canonical(cmds, s) && Progress(cmds, s) + k <= Elapsed(cmds, |cmds|)
    decreases k
  {
    if k == 0 then s
    else
      ProgressBound(cmds, s);
      ExecutedIsCanonical(cmds, s);
      Run(cmds, Executed(cmds, s), k - 1)
  }

  lemma {:induction false} RunProgress(cmds: seq<Command>, s: State, k: nat)
    requires Canonical(cmds, s) && Progress(cmds, s) + k <= Elapsed(cmds, |cmds|)
    ensures Canonical(cmds, Run(cmds, s, k))
    ensures Progress(cmds, Run(cmds, s, k)) == Progress(cmds, s) + k
    decreases k
  {
    if k > 0 {
      ProgressBound(cmds, s);
      ExecutedIsCanonical(cmds, s);
      RunProgress(cmds, Executed(cmds, s), k - 1);
    }
  }

  /** The run state after Initialize() and `k` Execute() cycles. */
  ghost function RunFromStart(cmds: seq<Command>, s: State, k: nat): (r: State)
    requires WellFormed(cmds, s) && k <= Elapsed(cmds, |cmds|)
  {
    InitializedIsCanonical(cmds, s);
    Run(cmds, Initialized(cmds, s), k)
  }

  /** A run of the group from Initialize(): after k cycles it is finished iff
      k is the total number of cycles its children need, and then every child
      has been started, executed and ended normally, one after another, in
      list order. */
  lemma SequenceRunsToCompletion(cmds: seq<Command>, s: State, k: nat)
    requires WellFormed(cmds, s) && k <= Elapsed(cmds, |cmds|)
    ensures var r := RunFromStart(cmds, s, k);
      && (Finished(cmds, r) <==> k == Elapsed(cmds, |cmds|))
      && (k == Elapsed(cmds, |cmds|) ==> r.trace == Completed(cmds, |cmds|))
  {
    InitializedIsCanonical(cmds, s);
    RunProgress(cmds, Initialized(cmds, s), k);
    ProgressBound(cmds, Run(cmds, Initialized(cmds, s), k));
  }

  lemma ChildRunCount(i: nat, c: Command, x: Call)
    ensures Count(ChildRun(i, c), x) ==
      (if x == Start(i) || x == Stop(i, false) then 1 else 0) + (if x == Step(i) then Duration(c) else 0)
  {
    StepsCount(i, Duration(c), x);
    CountConcat([Start(i)], Steps(i, Duration(c)), x);
    CountConcat([Start(i)] + Steps(i, Duration(c)), [Stop(i, false)], x);
  }

  lemma {:induction false} CompletedCounts(cmds: seq<Command>, k: nat, j: nat)
    requires k <= |cmds|
    ensures Count(Completed(cmds, k), Start(j)) == if j < k then 1 else 0
    ensures Count(Completed(cmds, k), Stop(j, false)) == if j < k then 1 else 0
    ensures Count(Completed(cmds, k), Stop(j, true)) == 0
  {
    if k > 0 {
      var i := k - 1;
      var prev := Completed(cmds, i);
      var run := ChildRun(i, cmds[i]);
      assert Completed(cmds, k) == prev + run;
      CompletedCounts(cmds, i, j);
      ChildRunCount(i, cmds[i], Start(j));
      ChildRunCount(i, cmds[i], Stop(j, false));
      ChildRunCount(i, cmds[i], Stop(j, true));
      CountConcat(prev, run, Start(j));
      CountConcat(prev, run, Stop(j, false));
      CountConcat(prev, run, Stop(j, true));
    }
  }

  /** How often child j has been started and ended in a run of this shape. */
  lemma CanonicalCounts(cmds: seq<Command>, s: State, j: nat)
    requires Canonical(cmds, s)
    ensures Count(s.trace, Start(j)) == if j <= s.index && j < |cmds| then 1 else 0
    ensures Count(s.trace, Stop(j, false)) == if j < s.index then 1 else 0
    ensures Count(s.trace, Stop(j, true)) == 0
  {
    CompletedCounts(cmds, s.index, j);
    if s.index < |cmds| {
      var i := s.index;
      var head := Completed(cmds, i) + [Start(i)];
      var tail := Steps(i, s.steps[i]);
      StepsCount(i, s.steps[i], Start(j));
      StepsCount(i, s.steps[i], Stop(j, false));
      StepsCount(i, s.steps[i], Stop(j, true));
      CountConcat(head, tail, Start(j));
      CountConcat(head, tail, Stop(j, false));
      CountConcat(head, tail, Stop(j, true));
      CountConcat(Completed(cmds, i), [Start(i)], Start(j));
      CountConcat(Completed(cmds, i), [Start(i)], Stop(j, false));
      CountConcat(Completed(cmds, i), [Start(i)], Stop(j, true));
    }
  }

  /** A child is active when it has been started more often than ended. */
  predicate Active(trace: seq<Call>, j: nat) {
    Count(trace, Start(j)) > Count(trace, Stop(j, false)) + Count(trace, Stop(j, true))
  }

  /** At most one child is active, the one at the index; the children were
      started in list order, each only after every earlier one had ended
      normally, and none has been started twice. */
  lemma OneChildAtATime(cmds: seq<Command>, s: State, j: nat)
    requires Canonical(cmds, s) && j < |cmds|
    ensures Active(s.trace, j) <==> j == s.index
    ensures Count(s.trace, Start(j)) == if j <= s.index then 1 else 0
    ensures Count(s.trace, Start(j)) > 0 ==> forall i :: 0 <= i < j ==> Count(s.trace, Stop(i, false)) == 1
  {
    CanonicalCounts(cmds, s, j);
    forall i | 0 <= i < j && Count(s.trace, Start(j)) > 0
      ensures Count(s.trace, Stop(i, false)) == 1
    {
      CanonicalCounts(cmds, s, i);
    }
  }

  /** End(true) interrupts the active child only: afterwards every child that
      was started has been ended exactly once, only the one at the index by
      interruption, and children not yet started received no call at all. */
  lemma InterruptStopsOnlyCurrent(cmds: seq<Command>, s: State, j: nat)
    requires Canonical(cmds, s) && s.index < |cmds| && j < |cmds|
    ensures var e := Ended(cmds, s, true);
      && Count(e.trace, Stop(j, true)) == (if j == s.index then 1 else 0)
      && Count(e.trace, Stop(j, false)) == (if j < s.index then 1 else 0)
      && Count(e.trace, Start(j)) == Count(e.trace, Stop(j, false)) + Count(e.trace, Stop(j, true))
  {
    CanonicalCounts(cmds, s, j);
    var last := [Stop(s.index, true)];
    CountConcat(s.trace, last, Start(j));
    CountConcat(s.trace, last, Stop(j, false));
    CountConcat(s.trace, last, Stop(j, true));
  }

  /** Natural completion: a finished group that is ended normally has started
      every child once and ended every child once, normally. */
  lemma NaturalEndStopsEveryChildOnce(cmds: seq<Command>, s: State, j: nat)
    requires Canonical(cmds, s) && Finished(cmds, s) && j < |cmds|
    ensures var e := Ended(cmds, s, false);
      && Count(e.trace, Start(j)) == 1
      && Count(e.trace, Stop(j, false)) == 1
      && Count(e.trace, Stop(j, true)) == 0
  {
    CompletedCounts(cmds, |cmds|, j);
  }

  class SequentialCommandGroup {
    var commands: seq<Command>
    /** Each child's Execute() count since its own Initialize(). */
    var steps: seq<nat>
    var currentCommandIndex: nat
    var runWhenDisabled: bool
    var requirements: set<SubsystemId>
    /** The calls made on the children since the group's Initialize(). */
    ghost var trace: seq<Call>

    ghost function Model(): (r: State)
      reads this
    {
      State(steps, currentCommandIndex, trace)
    }

    ghost predicate Valid()
      reads this
    {
      && WellFormed(commands, Model())
      && requirements == Requirements(commands)
      && runWhenDisabled == AllRunWhenDisabled(commands)
    }

    /** SequentialCommandGroup(commands): an empty group to which the commands
        are added. */
    constructor (registry: GroupRegistry, cmds: seq<Command>)
      requires |cmds| < InvalidIndex
      modifies registry
      ensures Valid() && currentCommandIndex == InvalidIndex && trace == []
      ensures commands == if Ungrouped(old(registry.grouped), cmds) then cmds else []
      ensures registry.grouped ==
        if Ungrouped(old(registry.grouped), cmds) then old(registry.grouped) + Ids(cmds) else old(registry.grouped)
    {
      commands, steps, currentCommandIndex := [], [], InvalidIndex;
      runWhenDisabled, requirements, trace := true, {}, [];
      new;
      var _ := AddCommands(registry, cmds);
    }

    /** AddCommands: refused as a whole, with an error, when any command is
        already grouped; otherwise every command is marked grouped and
        appended, and the group's requirements and RunsWhenDisabled are
        updated. Adding to a running group is reported but still done. */
    method AddCommands(registry: GroupRegistry, cmds: seq<Command>) returns (errors: seq<GroupError>)
      requires Valid() && |commands| + |cmds| < InvalidIndex
      modifies this, registry
      ensures Valid()
      ensures currentCommandIndex == old(currentCommandIndex) && trace == old(trace)
      ensures Ungrouped(old(registry.grouped), cmds) ==>
        && commands == old(commands) + cmds
        && steps == old(steps) + Zeros(|cmds|)
        && registry.grouped == old(registry.grouped) + Ids(cmds)
        && errors == if old(currentCommandIndex) != InvalidIndex then [AddedWhileRunning] else []
      ensures !Ungrouped(old(registry.grouped), cmds) ==>
        && commands == old(commands) && steps == old(steps)
        && registry.grouped == old(registry.grouped)
        && |errors| == 1 && errors[0].AlreadyGrouped? && errors[0].command in old(registry.grouped)
    {
      var ok, report := registry.RequireUngroupedAll(cmds);
      if !ok {
        return [report.value];
      }
      errors := if currentCommandIndex != InvalidIndex then [AddedWhileRunning] else [];
      AdoptAll(registry, cmds);
    }

    /** The accepting part of AddCommands: every command is adopted, in order. */
    method AdoptAll(registry: GroupRegistry, cmds: seq<Command>)
      requires Valid() && |commands| + |cmds| < InvalidIndex
      modifies this, registry
      ensures Valid()
      ensures currentCommandIndex == old(currentCommandIndex) && trace == old(trace)
      ensures commands == old(commands) + cmds && steps == old(steps) + Zeros(|cmds|)
      ensures registry.grouped == old(registry.grouped) + Ids(cmds)
    {
      var i := 0;
      while i < |cmds|
        invariant 0 <= i <= |cmds|
        invariant Valid()
        invariant commands == old(commands) + cmds[..i]
        invariant steps == old(steps) + Zeros(i)
        invariant registry.grouped == old(registry.grouped) + Ids(cmds[..i])
        invariant currentCommandIndex == old(currentCommandIndex) && trace == old(trace)
      {
        Adopt(registry, cmds[i]);
        assert cmds[..i + 1] == cmds[..i] + [cmds[i]];
        assert cmds[..i + 1][..i] == cmds[..i];
        i := i + 1;
      }
      assert cmds[..i] == cmds;
    }

    /** One command of AddCommands: marked grouped and appended, with the
        group's requirements and RunsWhenDisabled updated. */
    method Adopt(registry: GroupRegistry, c: Command)
      requires Valid() && |commands| + 1 < InvalidIndex
      modifies this, registry
      ensures Valid()
      ensures commands == old(commands) + [c] && steps == old(steps) + [0]
      ensures registry.grouped == old(registry.grouped) + {c.id}
      ensures currentCommandIndex == old(currentCommandIndex) && trace == old(trace)
    {
      registry.MarkGrouped(c);
      AppendOne(commands, c);
      requirements := requirements + c.requirements;
      runWhenDisabled := runWhenDisabled && c.runsWhenDisabled;
      commands := commands + [c];
      steps := steps + [0];
    }

    method Initialize()
      requires Valid()
      modifies this
      ensures Valid() && Model() == Initialized(old(commands), old(Model()))
      ensures commands == old(commands) && requirements == old(requirements)
      ensures runWhenDisabled == old(runWhenDisabled)
    {
      currentCommandIndex := 0;
      trace := [];
      if commands != [] {
        steps := steps[0 := 0];
        trace := [Start(0)];
      }
    }

    method Execute()
      requires Valid() && (commands == [] || currentCommandIndex < |commands|)
      modifies this
      ensures Valid() && Model() == Executed(old(commands), old(Model()))
      ensures commands == old(commands) && requirements == old(requirements)
      ensures runWhenDisabled == old(runWhenDisabled)
    {
      if commands == [] {
        return;
      }
      var i := currentCommandIndex;
      steps := steps[i := steps[i] + 1];
      trace := trace + [Step(i)];
      if IsFinishedAfter(commands[i], steps[i]) {
        trace := trace + [Stop(i, false)];
        currentCommandIndex := i + 1;
        if currentCommandIndex < |commands| {
          steps := steps[currentCommandIndex := 0];
          trace := trace + [Start(currentCommandIndex)];
        }
      }
    }

    method End(interrupted: bool)
      requires Valid()
      modifies this
      ensures Valid() && Model() == Ended(old(commands), old(Model()), interrupted)
      ensures commands == old(commands) && requirements == old(requirements)
      ensures runWhenDisabled == old(runWhenDisabled)
    {
      if interrupted && currentCommandIndex < |commands| {
        trace := trace + [Stop(currentCommandIndex, true)];
      }
      currentCommandIndex := InvalidIndex;
    }

    method IsFinished() returns (done: bool)
      requires Valid()
      ensures done == Finished(commands, Model())
    {
      done := currentCommandIndex == |commands|;
    }

    /** True iff every child runs when disabled (true for no children). */
    method RunsWhenDisabled() returns (b: bool)
      requires Valid()
      ensures b <==> forall i :: 0 <= i < |commands| ==> commands[i].runsWhenDisabled
    {
      b := runWhenDisabled;
    }

    /** The group requires exactly what some child requires. */
    method GetRequirements() returns (r: set<SubsystemId>)
      requires Valid()
      ensures forall s :: s in r <==> exists i :: 0 <= i < |commands| && s in commands[i].requirements
    {
      r := requirements;
      forall s | true
        ensures s in r <==> exists i :: 0 <= i < |commands| && s in commands[i].requirements
      {
        RequirementsExact(commands, s);
      }
    }
  }
}
