/** The command lifecycle shared by every composition: the commands a group
    drives, the calls it makes on them, and the requirement bookkeeping that
    every group performs when commands are added. */
module Lifecycle {

  datatype Option<+T> = None | Some(value: T)

  type CommandId = nat
  type SubsystemId = nat

  /** A child command. Its behaviour is scripted: IsFinished() answers true once
      the command has been executed `finishAfter` times since its last
      Initialize(). `id` is the command's identity (the object it is in C++). */
  datatype Command = Command(
    id: CommandId,
    requirements: set<SubsystemId>,
    runsWhenDisabled: bool,
    finishAfter: nat)

  /** What the child's IsFinished() answers after `steps` calls of Execute(). */
  predicate IsFinishedAfter(c: Command, steps: nat) {
    steps >= c.finishAfter
  }

  /** The number of Execute() calls a child receives before it reports
      finished: IsFinished() is first consulted after an Execute(). */
  function Duration(c: Command): (d: nat)
    ensures d >= 1 && IsFinishedAfter(c, d)
    ensures forall k :: 1 <= k < d ==> !IsFinishedAfter(c, k)
  {
    if c.finishAfter == 0 then 1 else c.finishAfter
  }

  /** One lifecycle call a group makes on its child number `child`:
      Start is Initialize(), Step is Execute(), Stop is End(interrupted). */
  datatype Call = Start(child: nat) | Step(child: nat) | Stop(child: nat, interrupted: bool)

  /** The errors a group reports to the error sink. */
  datatype GroupError =
    | AlreadyGrouped(command: CommandId)
    | AddedWhileRunning
    | RequirementsOverlap(command: CommandId)

  /** How often `x` occurs in a trace. */
  function Count(trace: seq<Call>, x: Call): (r: nat)
  {
    if |trace| == 0 then 0
    else Count(trace[..|trace| - 1], x) + if trace[|trace| - 1] == x then 1 else 0
  }

  lemma {:induction false} CountConcat(a: seq<Call>, b: seq<Call>, x: Call)
    ensures Count(a + b, x) == Count(a, x) + Count(b, x)
    decreases |b|
  {
    if b == [] {
      assert a + b == a;
    } else {
      var b0 := b[..|b| - 1];
      assert (a + b)[..|a + b| - 1] == a + b0;
      CountConcat(a, b0, x);
    }
  }

  /** Counting over a trace extended by one call. */
  lemma CountSnoc(a: seq<Call>, y: Call, x: Call)
    ensures Count(a + [y], x) == Count(a, x) + if y == x then 1 else 0
  {
    assert (a + [y])[..|a|] == a;
  }

  /** Extending a list by the next element of another. */
  lemma SliceStep<T>(a: seq<T>, xs: seq<T>, i: nat)
    requires i < |xs|
    ensures a + xs[..i + 1] == a + xs[..i] + [xs[i]]
    ensures xs[..i + 1][..i] == xs[..i]
  {
    assert xs[..i + 1] == xs[..i] + [xs[i]];
  }

  /** The step counters of `n` children that have not been executed. */
  function Zeros(n: nat): (r: seq<nat>)
    ensures |r| == n && forall k :: 0 <= k < n ==> r[k] == 0
  {
    if n == 0 then [] else Zeros(n - 1) + [0]
  }

  /** The union of the children's requirements. */
  function Requirements(cmds: seq<Command>): (r: set<SubsystemId>)
    ensures forall i :: 0 <= i < |cmds| ==> cmds[i].requirements <= r
  {
    if cmds == [] then {}
    else
      var init := cmds[..|cmds| - 1];
      var r0 := Requirements(init);
      assert forall i :: 0 <= i < |init| ==> init[i] == cmds[i];
      r0 + cmds[|cmds| - 1].requirements
  }

  /** A group requires nothing beyond what some child requires. */
  lemma {:induction false} RequirementsExact(cmds: seq<Command>, s: SubsystemId)
    ensures s in Requirements(cmds) <==> exists i :: 0 <= i < |cmds| && s in cmds[i].requirements
  {
    if cmds != [] && s in Requirements(cmds) {
      var init := cmds[..|cmds| - 1];
      if s in Requirements(init) {
        RequirementsExact(init, s);
        var i :| 0 <= i < |init| && s in init[i].requirements;
        assert cmds[i] == init[i];
      } else {
        assert s in cmds[|cmds| - 1].requirements;
      }
    }
  }

  /** The conjunction of the children's RunsWhenDisabled() answers. */
  function AllRunWhenDisabled(cmds: seq<Command>): (b: bool)
    ensures b <==> forall i :: 0 <= i < |cmds| ==> cmds[i].runsWhenDisabled
  {
    if cmds == [] then true
    else
      var init := cmds[..|cmds| - 1];
      assert forall i :: 0 <= i < |init| ==> init[i] == cmds[i];
      AllRunWhenDisabled(init) && cmds[|cmds| - 1].runsWhenDisabled
  }

  lemma AppendOne(cmds: seq<Command>, c: Command)
    ensures Requirements(cmds + [c]) == Requirements(cmds) + c.requirements
    ensures AllRunWhenDisabled(cmds + [c]) == (AllRunWhenDisabled(cmds) && c.runsWhenDisabled)
  {
    assert (cmds + [c])[..|cmds|] == cmds;
  }

  /** No two children require the same subsystem. */
  predicate PairwiseDisjoint(cmds: seq<Command>) {
    forall i, j :: 0 <= i < j < |cmds| ==> cmds[i].requirements !! cmds[j].requirements
  }

  /** A command whose requirements are disjoint from everything a group of
      pairwise disjoint children holds can join it. */
  lemma DisjointAppend(cmds: seq<Command>, c: Command)
    requires PairwiseDisjoint(cmds) && c.requirements !! Requirements(cmds)
    ensures PairwiseDisjoint(cmds + [c])
  {
    var next := cmds + [c];
    forall i, j | 0 <= i < j < |next|
      ensures next[i].requirements !! next[j].requirements
    {
      if j == |cmds| {
        assert next[i] == cmds[i];
        assert cmds[i].requirements <= Requirements(cmds);
      }
    }
  }

  /** The identities of the given commands. */
  function Ids(cmds: seq<Command>): (r: set<CommandId>)
    ensures forall i :: 0 <= i < |cmds| ==> cmds[i].id in r
  {
    if cmds == [] then {}
    else
      var init := cmds[..|cmds| - 1];
      assert forall i :: 0 <= i < |init| ==> init[i] == cmds[i];
      Ids(init) + {cmds[|cmds| - 1].id}
  }

  /** How many of `cmds`, taken in order, a parallel group accepts when it
      already holds `held`: each command is accepted while its requirements
      are disjoint from everything held so far. */
  function DisjointPrefix(held: set<SubsystemId>, cmds: seq<Command>): (k: nat)
    ensures k <= |cmds|
    decreases |cmds|
  {
    if cmds == [] || !(cmds[0].requirements !! held) then 0
    else 1 + DisjointPrefix(held + cmds[0].requirements, cmds[1..])
  }

  /** Taking one more command: it is accepted iff disjoint from what is held. */
  lemma DisjointPrefixStep(held: set<SubsystemId>, cmds: seq<Command>, i: nat)
    requires i < |cmds|
    ensures DisjointPrefix(held, cmds[i..]) ==
      if cmds[i].requirements !! held then 1 + DisjointPrefix(held + cmds[i].requirements, cmds[i + 1..])
      else 0
  {
    assert cmds[i..][0] == cmds[i] && cmds[i..][1..] == cmds[i + 1..];
  }

  /** The children a parallel group accepts keep their requirement sets
      pairwise disjoint, and a command is refused only when it overlaps what
      the group holds at that point. */
  lemma {:induction false} DisjointPrefixKeepsDisjoint(group: seq<Command>, cmds: seq<Command>)
    requires PairwiseDisjoint(group)
    ensures PairwiseDisjoint(group + cmds[..DisjointPrefix(Requirements(group), cmds)])
    ensures var k := DisjointPrefix(Requirements(group), cmds);
      k < |cmds| ==> !(cmds[k].requirements !! Requirements(group + cmds[..k]))
    decreases |cmds|
  {
    var k := DisjointPrefix(Requirements(group), cmds);
    if cmds == [] {
      assert cmds[..k] == [];
      assert group + cmds[..k] == group;
    } else if !(cmds[0].requirements !! Requirements(group)) {
      assert k == 0;
      assert group + cmds[..k] == group;
    } else {
      var c := cmds[0];
      var next := group + [c];
      AppendOne(group, c);
      DisjointAppend(group, c);
      DisjointPrefixKeepsDisjoint(next, cmds[1..]);
      assert k == 1 + DisjointPrefix(Requirements(next), cmds[1..]);
      assert next + cmds[1..][..k - 1] == group + cmds[..k];
      if k < |cmds| {
        assert cmds[1..][k - 1] == cmds[k];
      }
    }
  }

  /** `[Start(0), ..., Start(n - 1)]`: every child started once, in order. */
  function Starts(n: nat): (r: seq<Call>)
    ensures |r| == n
  {
    if n == 0 then [] else Starts(n - 1) + [Start(n - 1)]
  }

  /** `n` consecutive Execute() calls on one child. */
  function Steps(child: nat, n: nat): (r: seq<Call>)
    ensures |r| == n
  {
    if n == 0 then [] else Steps(child, n - 1) + [Step(child)]
  }

  /** `[Step(0), ..., Step(n - 1)]`: every child executed once, in order. */
  function StepAll(n: nat): (r: seq<Call>)
    ensures |r| == n
  {
    if n == 0 then [] else StepAll(n - 1) + [Step(n - 1)]
  }

  lemma {:induction false} StartsCount(n: nat, x: Call)
    ensures Count(Starts(n), x) == if x.Start? && x.child < n then 1 else 0
  {
    if n > 0 {
      StartsCount(n - 1, x);
      CountSnoc(Starts(n - 1), Start(n - 1), x);
    }
  }

  lemma {:induction false} StepsCount(child: nat, n: nat, x: Call)
    ensures Count(Steps(child, n), x) == if x == Step(child) then n else 0
  {
    if n > 0 {
      StepsCount(child, n - 1, x);
      CountSnoc(Steps(child, n - 1), Step(child), x);
    }
  }

  lemma {:induction false} StepAllCount(n: nat, x: Call)
    ensures Count(StepAll(n), x) == if x.Step? && x.child < n then 1 else 0
  {
    if n > 0 {
      StepAllCount(n - 1, x);
      CountSnoc(StepAll(n - 1), Step(n - 1), x);
    }
  }
}
