/** Subsystem: the unit of mutual exclusion. Its default command, its current
    command and its registration live in the command scheduler; this module
    holds the part of the scheduler those queries need: the registered
    subsystems, the default commands, the scheduled commands and the table of
    which scheduled command claims which subsystem. */
module Subsystems {
  import opened Lifecycle
  import opened Ownership

  /** The scheduler's tables. */
  datatype Table = Table(
    registered: set<SubsystemId>,
    defaults: map<SubsystemId, Command>,
    scheduled: set<Command>,
    claims: map<SubsystemId, Command>)

  /** The claim table agrees with the scheduled commands: every requirement of
      a scheduled command is claimed by it, and every claim is held by a
      scheduled command that requires the subsystem. A default command
      requires exactly its own subsystem. */
  predicate Consistent(t: Table) {
    && (forall s :: s in t.defaults ==> t.defaults[s].requirements == {s})
    && (forall c, s :: c in t.scheduled && s in c.requirements ==> s in t.claims && t.claims[s] == c)
    && (forall s :: s in t.claims ==> t.claims[s] in t.scheduled && s in t.claims[s].requirements)
  }

  /** No two scheduled commands share a subsystem. */
  lemma MutualExclusion(t: Table, c: Command, d: Command)
    requires Consistent(t) && c in t.scheduled && d in t.scheduled && c != d
    ensures c.requirements !! d.requirements
  {
    forall s | s in c.requirements
      ensures s !in d.requirements
    {
      assert t.claims[s] == c;
    }
  }

  /** GetCurrentCommand(): the command claiming the subsystem, if any. */
  function CurrentCommand(t: Table, s: SubsystemId): (r: Option<Command>)
    ensures r.Some? <==> s in t.claims
  {
    if s in t.claims then Some(t.claims[s]) else None
  }

  /** GetCurrentCommand() answers None exactly when no scheduled command
      requires the subsystem, and otherwise the one scheduled command that
      does. */
  lemma CurrentCommandIsTheClaimant(t: Table, s: SubsystemId)
    requires Consistent(t)
    ensures CurrentCommand(t, s).None? <==> forall c :: c in t.scheduled ==> s !in c.requirements
    ensures CurrentCommand(t, s).Some? ==>
      var c := CurrentCommand(t, s).value;
      && c in t.scheduled && s in c.requirements
      && forall d :: d in t.scheduled && s in d.requirements ==> d == c
  {
    if s in t.claims {
      var c := t.claims[s];
      assert c in t.scheduled && s in c.requirements;
    }
  }

  /** RegisterSubsystem: the subsystem's Periodic() is called from now on. */
  function Registered(t: Table, s: SubsystemId): (r: Table)
    ensures s in r.registered && r.registered - {s} == t.registered - {s}
    ensures r.defaults == t.defaults && r.scheduled == t.scheduled && r.claims == t.claims
  {
    t.(registered := t.registered + {s})
  }

  /** SetDefaultCommand: refused unless the command requires exactly the
      subsystem; otherwise it becomes (or replaces) the default and the
      subsystem is registered. */
  function WithDefault(t: Table, s: SubsystemId, c: Command): (r: Table) {
    if c.requirements != {s} then t
    else t.(defaults := t.defaults[s := c], registered := t.registered + {s})
  }

  lemma WithDefaultConsistent(t: Table, s: SubsystemId, c: Command)
    requires Consistent(t)
    ensures Consistent(WithDefault(t, s, c))
    ensures var r := WithDefault(t, s, c);
      && (c.requirements == {s} ==> s in r.defaults && r.defaults[s] == c && s in r.registered)
      && (c.requirements != {s} ==> r == t)
      && r.scheduled == t.scheduled && r.claims == t.claims
  {
  }

  /** The scheduled commands that require a subsystem `c` requires. */
  function Conflicts(t: Table, c: Command): (r: set<Command>)
    ensures forall d :: d in r <==> d in t.scheduled && !(d.requirements !! c.requirements)
  {
    set d | d in t.scheduled && !(d.requirements !! c.requirements)
  }

  /** Schedule(c): a grouped command is refused, and scheduling a scheduled
      command changes nothing. Otherwise every scheduled command that shares
      a subsystem with `c` is interrupted and releases its claims, and `c`
      claims all of its requirements. */
  function Admitted(t: Table, grouped: set<CommandId>, c: Command): (r: Table) {
    if c.id in grouped || c in t.scheduled then t
    else
      var losers := Conflicts(t, c);
      var kept := map s | s in t.claims && t.claims[s] !in losers :: t.claims[s];
      t.(scheduled := t.scheduled - losers + {c},
         claims := kept + map s | s in c.requirements :: c)
  }

  /** Admission keeps the claim table consistent; the new command is
      scheduled, the commands it conflicts with are not, and every other
      command stays scheduled with its claims. */
  lemma AdmittedConsistent(t: Table, grouped: set<CommandId>, c: Command)
    requires Consistent(t)
    ensures Consistent(Admitted(t, grouped, c))
    ensures var r := Admitted(t, grouped, c);
      && (c.id in grouped ==> r == t)
      && (c.id !in grouped ==> c in r.scheduled)
      && (c.id !in grouped && c !in t.scheduled ==>
            && (forall d :: d in t.scheduled && !(d.requirements !! c.requirements) ==> d !in r.scheduled)
            && (forall d :: d in t.scheduled && d.requirements !! c.requirements ==> d in r.scheduled)
            && r.scheduled <= t.scheduled + {c})
      && r.registered == t.registered && r.defaults == t.defaults
  {
    if c.id !in grouped && c !in t.scheduled {
      var losers := Conflicts(t, c);
      var r := Admitted(t, grouped, c);
      forall d, s | d in r.scheduled && s in d.requirements
        ensures s in r.claims && r.claims[s] == d
      {
        if d != c {
          assert d in t.scheduled && d !in losers;
          assert s in t.claims && t.claims[s] == d;
          assert s !in c.requirements;
        }
      }
      forall s | s in r.claims
        ensures r.claims[s] in r.scheduled && s in r.claims[s].requirements
      {
        if s !in c.requirements {
          assert s in t.claims && t.claims[s] !in losers;
        }
      }
    }
  }

  /** Cancel(c): a scheduled command is interrupted and releases its claims;
      cancelling a command that is not scheduled changes nothing. */
  function Cancelled(t: Table, c: Command): (r: Table) {
    if c !in t.scheduled then t
    else t.(scheduled := t.scheduled - {c},
            claims := map s | s in t.claims && t.claims[s] != c :: t.claims[s])
  }

  lemma CancelledConsistent(t: Table, c: Command)
    requires Consistent(t)
    ensures Consistent(Cancelled(t, c))
    ensures var r := Cancelled(t, c);
      && r.scheduled == t.scheduled - {c}
      && (c in t.scheduled ==> forall s :: s in c.requirements ==> s !in r.claims)
      && (forall s :: s in t.claims && t.claims[s] != c ==> s in r.claims && r.claims[s] == t.claims[s])
  {
    var r := Cancelled(t, c);
    forall d, s | d in r.scheduled && s in d.requirements
      ensures s in r.claims && r.claims[s] == d
    {
      assert s in t.claims && t.claims[s] == d;
    }
    if c in t.scheduled {
      forall s | s in c.requirements
        ensures s !in r.claims
      {
        assert t.claims[s] == c;
      }
    }
  }

  /** The registered subsystems that have a default command and are not
      claimed: those whose default command Run() schedules. A default command
      that has since been taken over by a group is not scheduled on its own,
      as Schedule would refuse it. */
  function PromotionSites(t: Table, grouped: set<CommandId>): (r: set<SubsystemId>)
    ensures forall s :: s in r <==>
      s in t.registered && s in t.defaults && s !in t.claims && t.defaults[s].id !in grouped
  {
    set s | s in t.registered && s in t.defaults && s !in t.claims && t.defaults[s].id !in grouped
  }

  /** Run() after servicing Periodic(): the default command of every free
      registered subsystem is scheduled and claims it, unless it is grouped. */
  function Promoted(t: Table, grouped: set<CommandId>): (r: Table) {
    var sites := PromotionSites(t, grouped);
    t.(scheduled := t.scheduled + (set s | s in sites :: t.defaults[s]),
       claims := t.claims + map s | s in sites :: t.defaults[s])
  }

  /** Promotion keeps the table consistent and keeps every existing claim;
      afterwards every registered subsystem whose default command is not
      grouped is claimed, by its default command when it was free. No
      grouped command is newly scheduled, and a subsystem whose default is
      grouped stays as it was. */
  lemma PromotedConsistent(t: Table, grouped: set<CommandId>)
    requires Consistent(t)
    ensures Consistent(Promoted(t, grouped))
    ensures var r := Promoted(t, grouped);
      && (forall s :: s in t.claims ==> s in r.claims && r.claims[s] == t.claims[s])
      && (forall s :: s in t.registered && s in t.defaults && t.defaults[s].id !in grouped ==> s in r.claims)
      && (forall s :: s in t.registered && s in t.defaults && s !in t.claims && t.defaults[s].id !in grouped ==>
            r.claims[s] == t.defaults[s])
      && (forall s :: s in t.defaults && t.defaults[s].id in grouped ==> (s in r.claims <==> s in t.claims))
      && (forall c :: c in r.scheduled - t.scheduled ==> c.id !in grouped)
      && t.scheduled <= r.scheduled
  {
    var r := Promoted(t, grouped);
    var sites := PromotionSites(t, grouped);
    forall d, s | d in r.scheduled && s in d.requirements
      ensures s in r.claims && r.claims[s] == d
    {
      if d !in t.scheduled {
        var x :| x in sites && t.defaults[x] == d;
        assert d.requirements == {x};
      }
    }
  }

  class CommandScheduler {
    var registered: set<SubsystemId>
    var defaults: map<SubsystemId, Command>
    var scheduled: set<Command>
    var claims: map<SubsystemId, Command>

    ghost function Model(): (r: Table)
      reads this
    {
      Table(registered, defaults, scheduled, claims)
    }

    ghost predicate Valid()
      reads this
    {
      Consistent(Model())
    }

    constructor ()
      ensures Valid() && Model() == Table({}, map[], {}, map[])
    {
      registered, defaults, scheduled, claims := {}, map[], {}, map[];
    }

    method RegisterSubsystem(s: SubsystemId)
      requires Valid()
      modifies this
      ensures Valid() && Model() == Registered(old(Model()), s)
    {
      registered := registered + {s};
    }

    method SetDefaultCommand(s: SubsystemId, c: Command) returns (ok: bool)
      requires Valid()
      modifies this
      ensures Valid() && Model() == WithDefault(old(Model()), s, c)
      ensures ok <==> c.requirements == {s}
    {
      WithDefaultConsistent(Model(), s, c);
      ok := c.requirements == {s};
      if ok {
        defaults := defaults[s := c];
        registered := registered + {s};
      }
    }

    /** Schedule(c): returns whether `c` is now scheduled and the commands it
        interrupted. */
    method Schedule(registry: GroupRegistry, c: Command) returns (ok: bool, interrupted: set<Command>)
      requires Valid()
      modifies this
      ensures Valid() && Model() == Admitted(old(Model()), registry.grouped, c)
      ensures ok <==> c.id !in registry.grouped
      ensures interrupted == if ok && c !in old(scheduled) then Conflicts(old(Model()), c) else {}
    {
      AdmittedConsistent(Model(), registry.grouped, c);
      ok := c.id !in registry.grouped;
      interrupted := {};
      if ok && c !in scheduled {
        interrupted := set d | d in scheduled && !(d.requirements !! c.requirements);
        var kept := map s | s in claims && claims[s] !in interrupted :: claims[s];
        scheduled := scheduled - interrupted + {c};
        claims := kept + map s | s in c.requirements :: c;
      }
    }

    /** Cancel(c): returns whether `c` was scheduled (and so was interrupted). */
    method Cancel(c: Command) returns (wasScheduled: bool)
      requires Valid()
      modifies this
      ensures Valid() && Model() == Cancelled(old(Model()), c)
      ensures wasScheduled <==> c in old(scheduled)
    {
      CancelledConsistent(Model(), c);
      wasScheduled := c in scheduled;
      if wasScheduled {
        scheduled := scheduled - {c};
        claims := map s | s in claims && claims[s] != c :: claims[s];
      }
    }

    /** Run(): Periodic() is called once on every registered subsystem and on
        no other, in the returned order; then every free registered
        subsystem's default command is scheduled, unless it is grouped. */
    method Run(registry: GroupRegistry) returns (periodic: seq<SubsystemId>)
      requires Valid()
      modifies this
      ensures Valid() && Model() == Promoted(old(Model()), registry.grouped)
      ensures forall s :: s in periodic <==> s in registered
      ensures forall i, j :: 0 <= i < j < |periodic| ==> periodic[i] != periodic[j]
    {
      periodic := Visit(registered);
      PromotedConsistent(Model(), registry.grouped);
      var next := Promoted(Table(registered, defaults, scheduled, claims), registry.grouped);
      scheduled, claims := next.scheduled, next.claims;
    }
  }

  /** One pass over a set, visiting each element once: the order in which
      Run() calls Periodic(). */
  method Visit(subsystems: set<SubsystemId>) returns (order: seq<SubsystemId>)
    ensures forall s :: s in order <==> s in subsystems
    ensures forall i, j :: 0 <= i < j < |order| ==> order[i] != order[j]
  {
    var todo := subsystems;
    order := [];
    while todo != {}
      invariant todo <= subsystems
      invariant forall s :: s in order <==> s in subsystems - todo
      invariant forall i :: 0 <= i < |order| ==> order[i] !in todo
      invariant forall i, j :: 0 <= i < j < |order| ==> order[i] != order[j]
      decreases todo
    {
      var s :| s in todo;
      order := order + [s];
      todo := todo - {s};
    }
  }

  class Subsystem {
    const id: SubsystemId
    const scheduler: CommandScheduler

    constructor (id: SubsystemId, scheduler: CommandScheduler)
      ensures this.id == id && this.scheduler == scheduler
    {
      this.id := id;
      this.scheduler := scheduler;
    }

    /** SetDefaultCommand: forwarded to the scheduler, which also registers
        this subsystem when it accepts the command. */
    method SetDefaultCommand(c: Command) returns (ok: bool)
      requires scheduler.Valid()
      modifies scheduler
      ensures scheduler.Valid() && scheduler.Model() == WithDefault(old(scheduler.Model()), id, c)
      ensures ok <==> c.requirements == {id}
      ensures ok ==> id in scheduler.registered
    {
      ok := scheduler.SetDefaultCommand(id, c);
    }

    /** None iff no default command has been set; otherwise the default,
        which requires exactly this subsystem. */
    method GetDefaultCommand() returns (r: Option<Command>)
      requires scheduler.Valid()
      ensures r.None? <==> id !in scheduler.defaults
      ensures r.Some? ==> r.value == scheduler.defaults[id] && r.value.requirements == {id}
    {
      r := if id in scheduler.defaults then Some(scheduler.defaults[id]) else None;
    }

    /** None iff no scheduled command requires this subsystem; otherwise the
        single scheduled command that does. */
    method GetCurrentCommand() returns (r: Option<Command>)
      requires scheduler.Valid()
      ensures r.None? <==> forall c :: c in scheduler.scheduled ==> id !in c.requirements
      ensures r.Some? ==>
        && r.value in scheduler.scheduled && id in r.value.requirements
        && forall d :: d in scheduler.scheduled && id in d.requirements ==> d == r.value
    {
      CurrentCommandIsTheClaimant(scheduler.Model(), id);
      r := if id in scheduler.claims then Some(scheduler.claims[id]) else None;
    }

    /** Register(): this subsystem's Periodic() is called whenever the
        scheduler runs. */
    method Register()
      requires scheduler.Valid()
      modifies scheduler
      ensures scheduler.Valid() && scheduler.Model() == Registered(old(scheduler.Model()), id)
    {
      scheduler.RegisterSubsystem(id);
    }
  }
}
