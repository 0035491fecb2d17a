/** CommandGroupBase's ownership registry: the process-wide record of which
    commands have been allocated to a composition, and the RequireUngrouped
    gate that every composition consults before it takes commands over. */
module Ownership {
  import opened Lifecycle

  /** None of `cmds` has been allocated to a group yet. */
  predicate Ungrouped(grouped: set<CommandId>, cmds: seq<Command>) {
    forall i :: 0 <= i < |cmds| ==> cmds[i].id !in grouped
  }

  /** What happens to the registry: a RequireUngrouped check, or a command
      being marked grouped by the composition that consumes it. */
  datatype RegistryEvent = Check(cmds: seq<Command>) | Mark(cmd: Command)

  /** The registry after one event: only marking changes it, and only by adding. */
  function Apply(grouped: set<CommandId>, e: RegistryEvent): (r: set<CommandId>) {
    match e
    case Check(_) => grouped
    case Mark(c) => grouped + {c.id}
  }

  /** The registry after a history of events. */
  function Replay(grouped: set<CommandId>, history: seq<RegistryEvent>): (r: set<CommandId>)
    decreases |history|
  {
    if history == [] then grouped
    else Replay(Apply(grouped, history[0]), history[1..])
  }

  /** Grouping is permanent: once a command has been allocated to a group, no
      later history makes it ungrouped again, so every later
      RequireUngrouped that includes it fails. */
  lemma {:induction false} GroupedIsPermanent(grouped: set<CommandId>, history: seq<RegistryEvent>, later: seq<Command>, i: nat)
    requires i < |later| && later[i].id in grouped
    ensures later[i].id in Replay(grouped, history)
    ensures !Ungrouped(Replay(grouped, history), later)
    decreases |history|
  {
    if history != [] {
      GroupedIsPermanent(Apply(grouped, history[0]), history[1..], later, i);
    }
  }

  /** Checks leave the registry as it was: a history made only of
      RequireUngrouped calls changes nothing. */
  lemma {:induction false} ChecksChangeNothing(grouped: set<CommandId>, history: seq<RegistryEvent>)
    requires forall k :: 0 <= k < |history| ==> history[k].Check?
    ensures Replay(grouped, history) == grouped
    decreases |history|
  {
    if history != [] {
      ChecksChangeNothing(Apply(grouped, history[0]), history[1..]);
    }
  }

  class GroupRegistry {
    /** The identities of every command allocated to some group. */
    var grouped: set<CommandId>

    constructor ()
      ensures grouped == {}
    {
      grouped := {};
    }

    /** RequireUngrouped(Command&): true iff the command is not yet in a
        group; an error naming it is reported otherwise. Nothing changes. */
    method RequireUngrouped(command: Command) returns (ok: bool, report: Option<GroupError>)
      ensures ok <==> command.id !in grouped
      ensures report == if ok then None else Some(AlreadyGrouped(command.id))
    {
      ok, report := RequireUngroupedAll([command]);
      assert [command][0] == command;
    }

    /** RequireUngrouped over a list (the ArrayRef and initializer-list
        overloads): true iff every listed command is ungrouped; otherwise one
        error is reported, naming the first grouped command. Nothing changes. */
    method RequireUngroupedAll(commands: seq<Command>) returns (ok: bool, report: Option<GroupError>)
      ensures ok <==> Ungrouped(grouped, commands)
      ensures ok <==> report.None?
      ensures report.Some? ==>
        exists i :: 0 <= i < |commands| && commands[i].id in grouped
          && report == Some(AlreadyGrouped(commands[i].id))
          && Ungrouped(grouped, commands[..i])
    {
      ok, report := true, None;
      var i := 0;
      while i < |commands|
        invariant 0 <= i <= |commands|
        invariant ok <==> Ungrouped(grouped, commands[..i])
        invariant ok <==> report.None?
        invariant report.Some? ==>
          exists j :: 0 <= j < i && commands[j].id in grouped
            && report == Some(AlreadyGrouped(commands[j].id))
            && Ungrouped(grouped, commands[..j])
      {
        if commands[i].id in grouped && ok {
          ok, report := false, Some(AlreadyGrouped(commands[i].id));
        }
        assert commands[..i + 1] == commands[..i] + [commands[i]];
        i := i + 1;
      }
      assert commands[..i] == commands;
    }

    /** A composition takes `command` over: it is grouped from now on. */
    method MarkGrouped(command: Command)
      modifies this
      ensures grouped == Apply(old(grouped), Mark(command))
    {
      grouped := grouped + {command.id};
    }
  }
}
