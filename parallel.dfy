/** ParallelCommandGroup: runs all of its children at once, each child with a
    flag that says whether it is still running, and finishes when the last
    child has finished. */
module Parallel {
  import opened Lifecycle
  import opened Ownership

  /** The group's run state: each child's running flag, each child's Execute()
      count since its own Initialize(), and the calls made since Initialize(). */
  datatype State = State(running: seq<bool>, steps: seq<nat>, trace: seq<Call>)

  predicate WellFormed(cmds: seq<Command>, s: State) {
    |s.running| == |cmds| && |s.steps| == |cmds|
  }

  /** `n` flags of the given value. */
  function Flags(n: nat, value: bool): (r: seq<bool>)
    ensures |r| == n && forall k :: 0 <= k < n ==> r[k] == value
  {
    if n == 0 then [] else Flags(n - 1, value) + [value]
  }

  /** Initialize(): every child is started and flagged running. */
  function Initialized(cmds: seq<Command>, s: State): (r: State)
    requires WellFormed(cmds, s)
  {
    State(Flags(|cmds|, true), Zeros(|cmds|), Starts(|cmds|))
  }

  /** Whether child i is still running after this Execute(): it was running
      and did not report finished. */
  predicate StillRunning(cmds: seq<Command>, s: State, i: nat)
    requires WellFormed(cmds, s) && i < |cmds|
  {
    s.running[i] && !IsFinishedAfter(cmds[i], s.steps[i] + 1)
  }

  /** The calls Execute() makes on child i: a running child is executed, and
      ended normally when it then reports finished; a child that is no longer
      running receives nothing. */
  function ChildCalls(cmds: seq<Command>, s: State, i: nat): (r: seq<Call>)
    requires WellFormed(cmds, s) && i < |cmds|
  {
    if !s.running[i] then []
    else if IsFinishedAfter(cmds[i], s.steps[i] + 1) then [Step(i), Stop(i, false)]
    else [Step(i)]
  }

  /** The calls Execute() makes on children 0..k-1, in list order. */
  function ExecuteCalls(cmds: seq<Command>, s: State, k: nat): (r: seq<Call>)
    requires WellFormed(cmds, s) && k <= |cmds|
  {
    if k == 0 then [] else ExecuteCalls(cmds, s, k - 1) + ChildCalls(cmds, s, k - 1)
  }

  /** Execute(): every running child is executed; the flag of each child that
      then reports finished is cleared. */
  function Executed(cmds: seq<Command>, s: State): (r: State)
    requires WellFormed(cmds, s)
  {
    State(
      seq(|cmds|, i requires 0 <= i < |cmds| => StillRunning(cmds, s, i)),
      seq(|cmds|, i requires 0 <= i < |cmds| => if s.running[i] then s.steps[i] + 1 else s.steps[i]),
      s.trace + ExecuteCalls(cmds, s, |cmds|))
  }

  /** The interruptions End(true) makes on children 0..k-1: only the children
      still flagged running are interrupted. */
  function InterruptCalls(running: seq<bool>, k: nat): (r: seq<Call>)
    requires k <= |running|
  {
    if k == 0 then []
    else InterruptCalls(running, k - 1) + if running[k - 1] then [Stop(k - 1, true)] else []
  }

  /** End(interrupted): an interrupted group interrupts exactly the children
      that are still running; a normal end makes no call. */
  function Ended(cmds: seq<Command>, s: State, interrupted: bool): (r: State)
    requires WellFormed(cmds, s)
  {
    State(s.running, s.steps, if interrupted then s.trace + InterruptCalls(s.running, |cmds|) else s.trace)
  }

  /** IsFinished(): no child is flagged running any more. */
  predicate Finished(s: State) {
    forall i :: 0 <= i < |s.running| ==> !s.running[i]
  }

  /** The invariant of a run: every child was started once and never
      interrupted; it has been executed once per cycle while it was running,
      and ended normally exactly when its flag was cleared; a child whose flag
      is cleared has reported finished, and a running child that has been
      executed has not. */
  predicate Balanced(cmds: seq<Command>, s: State) {
    && WellFormed(cmds, s)
    && forall i :: 0 <= i < |cmds| ==>
      && Count(s.trace, Start(i)) == 1
      && Count(s.trace, Step(i)) == s.steps[i]
      && Count(s.trace, Stop(i, true)) == 0
      && Count(s.trace, Stop(i, false)) == (if s.running[i] then 0 else 1)
      && (!s.running[i] ==> IsFinishedAfter(cmds[i], s.steps[i]))
      && (s.running[i] && s.steps[i] > 0 ==> !IsFinishedAfter(cmds[i], s.steps[i]))
  }

  /** The calls one Execute() makes on child j, counted by kind. */
  function ChildCount(cmds: seq<Command>, s: State, j: nat, x: Call): (r: nat)
    requires WellFormed(cmds, s) && j < |cmds|
  {
    if x == Step(j) then (if s.running[j] then 1 else 0)
    else if x == Stop(j, false) then (if s.running[j] && !StillRunning(cmds, s, j) then 1 else 0)
    else 0
  }

  /** The calls Execute() makes on child i concern child i only. */
  lemma ChildCallsCount(cmds: seq<Command>, s: State, i: nat, x: Call)
    requires WellFormed(cmds, s) && i < |cmds|
    ensures Count(ChildCalls(cmds, s, i), x) == if x.child == i then ChildCount(cmds, s, i, x) else 0
  {
    CountSnoc([], Step(i), x);
    if s.running[i] && !StillRunning(cmds, s, i) {
      CountSnoc([Step(i)], Stop(i, false), x);
    }
  }

  /** Execute() makes no Initialize() call and no interruption; among
      children 0..k-1 it executes each running child exactly once and ends
      normally exactly the children that report finished. */
  lemma {:induction false} ExecuteCallsCount(cmds: seq<Command>, s: State, k: nat, x: Call)
    requires WellFormed(cmds, s) && k <= |cmds|
    ensures Count(ExecuteCalls(cmds, s, k), x) ==
      if x.child < k then ChildCount(cmds, s, x.child, x) else 0
  {
    if k > 0 {
      var prev := ExecuteCalls(cmds, s, k - 1);
      var last := ChildCalls(cmds, s, k - 1);
      ExecuteCallsCount(cmds, s, k - 1, x);
      ChildCallsCount(cmds, s, k - 1, x);
      CountConcat(prev, last, x);
      assert ExecuteCalls(cmds, s, k) == prev + last;
      if x.child < k - 1 {
        assert Count(ExecuteCalls(cmds, s, k), x) == ChildCount(cmds, s, x.child, x) + 0;
      } else if x.child == k - 1 {
        assert Count(ExecuteCalls(cmds, s, k), x) == 0 + ChildCount(cmds, s, x.child, x);
      }
    }
  }

  /** End(true) interrupts each child among 0..k-1 still flagged running,
      exactly once, and makes no other call. */
  lemma {:induction false} InterruptCallsCount(running: seq<bool>, k: nat, j: nat)
    requires k <= |running|
    ensures Count(InterruptCalls(running, k), Stop(j, true)) == if j < k && running[j] then 1 else 0
    ensures Count(InterruptCalls(running, k), Stop(j, false)) == 0
    ensures Count(InterruptCalls(running, k), Start(j)) == 0
    ensures Count(InterruptCalls(running, k), Step(j)) == 0
  {
    if k > 0 {
      var prev := InterruptCalls(running, k - 1);
      var last := if running[k - 1] then [Stop(k - 1, true)] else [];
      InterruptCallsCount(running, k - 1, j);
      CountConcat(prev, last, Stop(j, true));
      CountConcat(prev, last, Stop(j, false));
      CountConcat(prev, last, Start(j));
      CountConcat(prev, last, Step(j));
    }
  }

  /** Initialize() begins a balanced run: every child started once and
      flagged running. */
  lemma InitializedBalanced(cmds: seq<Command>, s: State)
    requires WellFormed(cmds, s)
    ensures Balanced(cmds, Initialized(cmds, s))
  {
    var r := Initialized(cmds, s);
    forall j | 0 <= j < |cmds|
      ensures Count(r.trace, Start(j)) == 1 && Count(r.trace, Step(j)) == 0
      ensures Count(r.trace, Stop(j, true)) == 0 && Count(r.trace, Stop(j, false)) == 0
    {
      StartsCount(|cmds|, Start(j));
      StartsCount(|cmds|, Step(j));
      StartsCount(|cmds|, Stop(j, true));
      StartsCount(|cmds|, Stop(j, false));
    }
  }

  /** What one Execute() does to child j: a running child is executed once
      and ended normally iff it reports finished; a child whose flag is
      cleared receives no call and keeps its counter. */
  lemma ExecutedCalls(cmds: seq<Command>, s: State, j: nat)
    requires WellFormed(cmds, s) && j < |cmds|
    ensures var r := Executed(cmds, s);
      && Count(r.trace, Start(j)) == Count(s.trace, Start(j))
      && Count(r.trace, Stop(j, true)) == Count(s.trace, Stop(j, true))
      && Count(r.trace, Step(j)) == Count(s.trace, Step(j)) + (if s.running[j] then 1 else 0)
      && Count(r.trace, Stop(j, false)) ==
           Count(s.trace, Stop(j, false)) + (if s.running[j] && !r.running[j] then 1 else 0)
      && (!s.running[j] ==> !r.running[j] && r.steps[j] == s.steps[j])
  {
    var calls := ExecuteCalls(cmds, s, |cmds|);
    ExecuteCallsCount(cmds, s, |cmds|, Start(j));
    ExecuteCallsCount(cmds, s, |cmds|, Stop(j, true));
    ExecuteCallsCount(cmds, s, |cmds|, Step(j));
    ExecuteCallsCount(cmds, s, |cmds|, Stop(j, false));
    CountConcat(s.trace, calls, Start(j));
    CountConcat(s.trace, calls, Stop(j, true));
    CountConcat(s.trace, calls, Step(j));
    CountConcat(s.trace, calls, Stop(j, false));
  }

  /** Execute() as computed child by child. */
  lemma ExecutedFromParts(cmds: seq<Command>, s: State, flags: seq<bool>, counts: seq<nat>, calls: seq<Call>)
    requires WellFormed(cmds, s) && |flags| == |cmds| && |counts| == |cmds|
    requires forall k :: 0 <= k < |cmds| ==>
      flags[k] == StillRunning(cmds, s, k)
      && counts[k] == if s.running[k] then s.steps[k] + 1 else s.steps[k]
    requires calls == ExecuteCalls(cmds, s, |cmds|)
    ensures State(flags, counts, s.trace + calls) == Executed(cmds, s)
  {
  }

  /** Execute() keeps a run balanced. */
  lemma ExecutedBalanced(cmds: seq<Command>, s: State)
    requires Balanced(cmds, s)
    ensures Balanced(cmds, Executed(cmds, s))
  {
    forall j | 0 <= j < |cmds| {
      ExecutedCalls(cmds, s, j);
    }
  }

  /** The group is finished exactly when every child has reported finished
      and been ended normally. */
  lemma FinishedIffEveryChildEnded(cmds: seq<Command>, s: State)
    requires Balanced(cmds, s)
    ensures Finished(s) <==> forall i :: 0 <= i < |cmds| ==> Count(s.trace, Stop(i, false)) == 1
    ensures Finished(s) ==> forall i :: 0 <= i < |cmds| ==> IsFinishedAfter(cmds[i], s.steps[i])
  {
  }

  /** End(interrupted) on a run that is either interrupted or finished:
      every child has been started once and ended once, and it was
      interrupted iff the group was interrupted while the child was still
      running. */
  lemma EndedStopsEachChildOnce(cmds: seq<Command>, s: State, interrupted: bool, j: nat)
    requires Balanced(cmds, s) && (interrupted || Finished(s)) && j < |cmds|
    ensures var e := Ended(cmds, s, interrupted);
      && Count(e.trace, Start(j)) == 1
      && Count(e.trace, Stop(j, false)) + Count(e.trace, Stop(j, true)) == 1
      && (Count(e.trace, Stop(j, true)) == 1 <==> interrupted && s.running[j])
  {
    if interrupted {
      var calls := InterruptCalls(s.running, |cmds|);
      InterruptCallsCount(s.running, |cmds|, j);
      CountConcat(s.trace, calls, Start(j));
      CountConcat(s.trace, calls, Stop(j, true));
      CountConcat(s.trace, calls, Stop(j, false));
    }
  }

  /** The run state after `k` further Execute() cycles. */
  function Run(cmds: seq<Command>, s: State, k: nat): (r: State)
    requires WellFormed(cmds, s)
    ensures WellFormed(cmds, r)
    decreases k
  {
    if k == 0 then s else Run(cmds, Executed(cmds, s), k - 1)
  }

  /** After Initialize() and `k` cycles, a child is still running iff it
      needs more cycles than k, and has been executed min(k, its duration)
      times; so the group is finished exactly after as many cycles as its
      longest child needs. */
  lemma {:induction false} RunFlags(cmds: seq<Command>, s: State, k: nat, j: nat)
    requires WellFormed(cmds, s) && j < |cmds|
    requires forall i :: 0 <= i < |cmds| ==> s.running[i] == (s.steps[i] < Duration(cmds[i]))
    requires forall i :: 0 <= i < |cmds| ==> s.steps[i] <= Duration(cmds[i])
    ensures var r := Run(cmds, s, k);
      && r.running[j] == (s.steps[j] + k < Duration(cmds[j]))
      && r.steps[j] == if s.steps[j] + k < Duration(cmds[j]) then s.steps[j] + k else Duration(cmds[j])
    decreases k
  {
    if k > 0 {
      var n := Executed(cmds, s);
      forall i | 0 <= i < |cmds|
        ensures n.running[i] == (n.steps[i] < Duration(cmds[i])) && n.steps[i] <= Duration(cmds[i])
      {
        var d := Duration(cmds[i]);
        if s.running[i] && s.steps[i] + 1 < d {
          assert !IsFinishedAfter(cmds[i], s.steps[i] + 1);
        }
      }
      RunFlags(cmds, n, k - 1, j);
    }
  }

  /** Every child runs concurrently from the start: after Initialize() and
      `k` cycles the group is finished iff k reaches the longest child's
      duration. */
  lemma FinishesWithLongestChild(cmds: seq<Command>, s: State, k: nat)
    requires WellFormed(cmds, s)
    ensures Finished(Run(cmds, Initialized(cmds, s), k)) <==>
      forall i :: 0 <= i < |cmds| ==> Duration(cmds[i]) <= k
  {
    var s0 := Initialized(cmds, s);
    forall j | 0 <= j < |cmds|
      ensures Run(cmds, s0, k).running[j] == (k < Duration(cmds[j]))
    {
      RunFlags(cmds, s0, k, j);
    }
  }

  class ParallelCommandGroup {
    var commands: seq<Command>
    /** The running flag of each child (the map's values in the source). */
    var running: seq<bool>
    /** Each child's Execute() count since its own Initialize(). */
    var steps: seq<nat>
    var runWhenDisabled: bool
    var requirements: set<SubsystemId>
    var isRunning: bool
    /** The calls made on the children since the group's Initialize(). */
    ghost var trace: seq<Call>

    ghost function Model(): (r: State)
      reads this
    {
      State(running, steps, trace)
    }

    ghost predicate Valid()
      reads this
    {
      && WellFormed(commands, Model())
      && requirements == Requirements(commands)
      && runWhenDisabled == AllRunWhenDisabled(commands)
      && PairwiseDisjoint(commands)
    }

    /** ParallelCommandGroup(commands): an empty group to which the commands
        are added. */
    constructor (registry: GroupRegistry, cmds: seq<Command>)
      modifies registry
      ensures Valid() && !isRunning && trace == []
      ensures var k := if Ungrouped(old(registry.grouped), cmds) then DisjointPrefix({}, cmds) else 0;
        && commands == cmds[..k]
        && registry.grouped == old(registry.grouped) + Ids(cmds[..k])
    {
      commands, running, steps := [], [], [];
      runWhenDisabled, requirements, isRunning, trace := true, {}, false, [];
      new;
      var _ := AddCommands(registry, cmds);
    }

    /** AddCommands: refused as a whole, with an error, when any command is
        already grouped. Otherwise the commands are taken in order, each
        marked grouped and added with its flag cleared, until one requires a
        subsystem the group already holds: that one is reported and it and
        the rest are not added. Adding to a running group is reported but
        still done. */
    method AddCommands(registry: GroupRegistry, cmds: seq<Command>) returns (errors: seq<GroupError>)
      requires Valid()
      modifies this, registry
      ensures Valid()
      ensures isRunning == old(isRunning) && trace == old(trace)
      ensures var ok := Ungrouped(old(registry.grouped), cmds);
        var k := if ok then DisjointPrefix(old(requirements), cmds) else 0;
        && commands == old(commands) + cmds[..k]
        && running == old(running) + Flags(k, false)
        && steps == old(steps) + Zeros(k)
        && registry.grouped == old(registry.grouped) + Ids(cmds[..k])
        && (ok ==>
              errors == (if old(isRunning) then [AddedWhileRunning] else [])
                + (if k < |cmds| then [RequirementsOverlap(cmds[k].id)] else []))
        && (!ok ==>
              |errors| == 1 && errors[0].AlreadyGrouped? && errors[0].command in old(registry.grouped))
    {
      var ok, report := registry.RequireUngroupedAll(cmds);
      if !ok {
        assert cmds[..0] == [];
        return [report.value];
      }
      var prefix := if isRunning then [AddedWhileRunning] else [];
      var overlap := AdoptDisjoint(registry, cmds);
      errors := prefix + overlap;
    }

    /** The accepting part of AddCommands: commands are added in order while
        each one's requirements are disjoint from the group's; the first one
        that overlaps is reported. */
    method AdoptDisjoint(registry: GroupRegistry, cmds: seq<Command>) returns (errors: seq<GroupError>)
      requires Valid()
      modifies this, registry
      ensures Valid()
      ensures isRunning == old(isRunning) && trace == old(trace)
      ensures var k := DisjointPrefix(old(requirements), cmds);
        && commands == old(commands) + cmds[..k]
        && running == old(running) + Flags(k, false)
        && steps == old(steps) + Zeros(k)
        && registry.grouped == old(registry.grouped) + Ids(cmds[..k])
        && errors == if k < |cmds| then [RequirementsOverlap(cmds[k].id)] else []
    {
      var i := 0;
      while i < |cmds| && cmds[i].requirements !! requirements
        invariant 0 <= i <= |cmds|
        invariant Valid()
        invariant DisjointPrefix(old(requirements), cmds) == i + DisjointPrefix(requirements, cmds[i..])
        invariant commands == old(commands) + cmds[..i]
        invariant running == old(running) + Flags(i, false)
        invariant steps == old(steps) + Zeros(i)
        invariant registry.grouped == old(registry.grouped) + Ids(cmds[..i])
        invariant isRunning == old(isRunning) && trace == old(trace)
      {
        var c := cmds[i];
        DisjointPrefixStep(requirements, cmds, i);
        Adopt(registry, c);
        SliceStep(old(commands), cmds, i);
        assert Zeros(i + 1) == Zeros(i) + [0];
        assert old(steps) + Zeros(i) + [0] == old(steps) + Zeros(i + 1);
        i := i + 1;
      }
      if i < |cmds| {
        DisjointPrefixStep(requirements, cmds, i);
        errors := [RequirementsOverlap(cmds[i].id)];
      } else {
        errors := [];
      }
    }

    /** One command of AddCommands: marked grouped and added, not running,
        with the group's requirements and RunsWhenDisabled updated. */
    method Adopt(registry: GroupRegistry, c: Command)
      requires Valid() && c.requirements !! requirements
      modifies this, registry
      ensures Valid()
      ensures requirements == old(requirements) + c.requirements
      ensures commands == old(commands) + [c] && running == old(running) + [false]
      ensures steps == old(steps) + [0]
      ensures registry.grouped == old(registry.grouped) + {c.id}
      ensures isRunning == old(isRunning) && trace == old(trace)
    {
      registry.MarkGrouped(c);
      AppendOne(commands, c);
      DisjointAppend(commands, c);
      requirements := requirements + c.requirements;
      runWhenDisabled := runWhenDisabled && c.runsWhenDisabled;
      commands := commands + [c];
      running := running + [false];
      steps := steps + [0];
    }

    method Initialize()
      requires Valid()
      modifies this
      ensures Valid() && Model() == Initialized(old(commands), old(Model())) && isRunning
      ensures commands == old(commands) && requirements == old(requirements)
      ensures runWhenDisabled == old(runWhenDisabled)
    {
      var flags, counts := running, steps;
      ghost var calls := [];
      var i := 0;
      while i < |commands|
        invariant 0 <= i <= |commands|
        invariant |flags| == |commands| && |counts| == |commands|
        invariant forall k :: 0 <= k < i ==> flags[k] && counts[k] == 0
        invariant calls == Starts(i)
      {
        calls := calls + [Start(i)];
        flags := flags[i := true];
        counts := counts[i := 0];
        i := i + 1;
      }
      running, steps, trace, isRunning := flags, counts, calls, true;
    }

    method Execute()
      requires Valid()
      modifies this
      ensures Valid() && Model() == Executed(old(commands), old(Model()))
      ensures commands == old(commands) && requirements == old(requirements)
      ensures runWhenDisabled == old(runWhenDisabled) && isRunning == old(isRunning)
    {
      ghost var s0 := Model();
      var flags, counts := running, steps;
      ghost var calls := [];
      var i := 0;
      while i < |commands|
        invariant 0 <= i <= |commands|
        invariant |flags| == |commands| && |counts| == |commands|
        invariant forall k :: 0 <= k < i ==>
          flags[k] == StillRunning(commands, s0, k)
          && counts[k] == if s0.running[k] then s0.steps[k] + 1 else s0.steps[k]
        invariant forall k :: i <= k < |commands| ==> flags[k] == s0.running[k] && counts[k] == s0.steps[k]
        invariant calls == ExecuteCalls(commands, s0, i)
      {
        if flags[i] {
          counts := counts[i := counts[i] + 1];
          if IsFinishedAfter(commands[i], counts[i]) {
            calls := calls + [Step(i), Stop(i, false)];
            flags := flags[i := false];
          } else {
            calls := calls + [Step(i)];
          }
        } else {
          assert ChildCalls(commands, s0, i) == [];
          calls := calls + [];
        }
        i := i + 1;
      }
      ExecutedFromParts(commands, s0, flags, counts, calls);
      running, steps, trace := flags, counts, trace + calls;
    }

    method End(interrupted: bool)
      requires Valid()
      modifies this
      ensures Valid() && Model() == Ended(old(commands), old(Model()), interrupted) && !isRunning
      ensures commands == old(commands) && requirements == old(requirements)
      ensures runWhenDisabled == old(runWhenDisabled)
    {
      if interrupted {
        ghost var calls := trace;
        var i := 0;
        while i < |commands|
          invariant 0 <= i <= |commands|
          invariant calls == trace + InterruptCalls(running, i)
        {
          if running[i] {
            calls := calls + [Stop(i, true)];
          }
          i := i + 1;
        }
        trace := calls;
      }
      isRunning := false;
    }

    /** True iff no child is still running. */
    method IsFinished() returns (done: bool)
      requires Valid()
      ensures done == Finished(Model())
    {
      var i := 0;
      while i < |running|
        invariant 0 <= i <= |running|
        invariant forall k :: 0 <= k < i ==> !running[k]
      {
        if running[i] {
          return false;
        }
        i := i + 1;
      }
      return true;
    }

    /** True iff every child runs when disabled (true for no children). */
    method RunsWhenDisabled() returns (b: bool)
      requires Valid()
      ensures b <==> forall i :: 0 <= i < |commands| ==> commands[i].runsWhenDisabled
    {
      b := runWhenDisabled;
    }

    /** The group requires exactly what some child requires, and no two
        children share a subsystem. */
    method GetRequirements() returns (r: set<SubsystemId>)
      requires Valid()
      ensures forall s :: s in r <==> exists i :: 0 <= i < |commands| && s in commands[i].requirements
      ensures forall i, j :: 0 <= i < j < |commands| ==> commands[i].requirements !! commands[j].requirements
    {
      r := requirements;
      forall s | true
        ensures s in r <==> exists i :: 0 <= i < |commands| && s in commands[i].requirements
      {
        RequirementsExact(commands, s);
      }
    }
  }
}
