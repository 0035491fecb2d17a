# Command composition in the frc2 command-based framework

The frc2 command-based framework structures robot code as **commands** that a
cooperative scheduler drives through a fixed lifecycle, once per cycle:
`Initialize()` once, then `Execute()` each cycle until `IsFinished()` answers
true, then `End(interrupted)`. Each command names the **subsystems** it
requires. The scheduler uses those requirements so that two commands never
drive the same hardware at once.

This project models the composition layer that builds bigger commands out of
smaller ones, and proves properties of that model:

- **Ownership registry** (`Ownership`, from `CommandGroupBase`). A process-wide
  set of the commands that have already been placed in a group. The
  `RequireUngrouped` gate refuses any command already in that set. Grouping
  is permanent.
- **Compositions**. Each one drives its children through the lifecycle and
  records, in a ghost trace, every lifecycle call it makes on a child:
  - `Sequential`: `SequentialCommandGroup`, which runs its children one after
    another by an index.
  - `Parallel`: `ParallelCommandGroup`, which runs all children at once with
    a running flag per child.
  - `Race`: `ParallelRaceGroup`, which finishes as soon as one child finishes
    and interrupts the rest.
  - `Deadline`: `ParallelDeadlineGroup`, which finishes when the deadline
    child finishes.
  - `Perpetual`: `PerpetualCommand`, which ignores the wrapped command's end
    condition.
- **Subsystem view** (`Subsystems`). A subsystem's default command, its
  current command and its registration. These are backed by the minimal part
  of the scheduler they need: registered subsystems, default commands,
  scheduled commands, and a claim table from each subsystem to the scheduled
  command that requires it.

Child commands are modelled as scripted values (`Lifecycle.Command`). Each
child has an identity, a requirement set and a `RunsWhenDisabled()` answer.
Its `IsFinished()` turns true once it has been executed `finishAfter` times
since its own `Initialize()`.

Each class holds the fields that the source declares. The methods of those
classes are proved equal to pure step functions: `Initialized`, `Executed`,
`Ended` and `Finished` in each composition module, and `Registered`,
`WithDefault`, `Admitted`, `Cancelled` and `Promoted` in `Subsystems`. The
lemmas then state what a whole run of lifecycle calls does to each child:
- how many times each child is started, executed and ended;
- whether each end is normal or an interruption;
- when the group finishes.

## Model

| member | source | states |
|---|---|---|
| Ownership.GroupRegistry.RequireUngrouped | include/frc2/command/CommandGroupBase.h:27-34 | true iff the command is not in the registry; otherwise one AlreadyGrouped error naming it; the registry is not changed |
| Ownership.GroupRegistry.RequireUngroupedAll | include/frc2/command/CommandGroupBase.h:36-52 | true iff every listed command is ungrouped; an error is reported exactly when some listed command is grouped, and it names the first such command |
| Ownership.GroupRegistry.MarkGrouped | include/frc2/command/CommandGroupBase.h:20-23 | the consumed command is added to the registry and nothing is removed |
| Ownership.GroupedIsPermanent | include/frc2/command/CommandGroupBase.h:20-23 | after any history of checks and markings, a grouped command is still grouped, so every later RequireUngrouped that includes it fails |
| Ownership.ChecksChangeNothing | include/frc2/command/CommandGroupBase.h:27-34 | any sequence of RequireUngrouped checks alone leaves the registry as it was |
| Lifecycle.RequirementsExact | include/frc2/command/SequentialCommandGroup.h:34-35 | a subsystem is in the group's requirement set iff some child requires it |
| Lifecycle.AllRunWhenDisabled | include/frc2/command/SequentialCommandGroup.h:91-98 | the group's RunsWhenDisabled flag starts true and stays true iff every child runs when disabled |
| Lifecycle.DisjointPrefixKeepsDisjoint | include/frc2/command/ParallelCommandGroup.h:34-43 | the children a parallel group accepts have pairwise disjoint requirements, and a command is refused only if it overlaps what the group already holds |
| Sequential.InitializedIsCanonical | include/frc2/command/SequentialCommandGroup.h:83-97 | Initialize() moves the index from invalid_index to 0 and starts only the first child; the run is in its canonical shape with no cycle elapsed |
| Sequential.ExecutedIsCanonical | include/frc2/command/SequentialCommandGroup.h:40-43 | Execute() keeps the shape (earlier children completed in order, the current child started and not yet finished) and accounts for exactly one cycle |
| Sequential.ChildCompletes | include/frc2/command/SequentialCommandGroup.h:31-32 | the cycle in which the current child reports finished ends it normally and starts the next child, if any, keeping the shape |
| Sequential.ProgressBound | include/frc2/command/SequentialCommandGroup.h:89 | the group is finished iff the index is past the last child iff all the cycles the children need have elapsed |
| Sequential.RunProgress | include/frc2/command/SequentialCommandGroup.h:85 | k cycles keep the index within 0..size and advance the run by k cycles |
| Sequential.SequenceRunsToCompletion | include/frc2/command/SequentialCommandGroup.h:40-48 | from Initialize(), the group finishes after exactly the sum of its children's durations, and by then each child has been started, executed and ended normally, one after another, in list order |
| Sequential.CanonicalCounts | include/frc2/command/SequentialCommandGroup.h:31-32 | in any run, each child up to the index was started once, each child before it was ended normally once, and none was interrupted |
| Sequential.OneChildAtATime | include/frc2/command/SequentialCommandGroup.h:31-32 | at most one child is active, the one at the index; a child is started only after every earlier child has ended normally |
| Sequential.InterruptStopsOnlyCurrent | include/frc2/command/SequentialCommandGroup.h:87 | End(true) interrupts only the child at the index; finished children keep their single normal end and children not yet started get no call |
| Sequential.NaturalEndStopsEveryChildOnce | include/frc2/command/SequentialCommandGroup.h:40-43 | a finished group ended normally has started and normally ended every child exactly once |
| Sequential.SequentialCommandGroup.constructor | include/frc2/command/SequentialCommandGroup.h:47-48 | the group holds the commands when all of them are ungrouped and nothing otherwise; the index is invalid_index |
| Sequential.SequentialCommandGroup.AddCommands | include/frc2/command/SequentialCommandGroup.h:94-98 | refused as a whole, with an AlreadyGrouped error, if a command is grouped; otherwise all commands are appended and marked grouped, and adding while running is reported |
| Sequential.SequentialCommandGroup.Initialize | include/frc2/command/SequentialCommandGroup.h:83 | the new state is the Initialize() step function of the old one |
| Sequential.SequentialCommandGroup.Execute | include/frc2/command/SequentialCommandGroup.h:85 | the new state is the Execute() step function: step the current child; on finish, end it normally, advance, and start the next |
| Sequential.SequentialCommandGroup.End | include/frc2/command/SequentialCommandGroup.h:87 | interrupts the current child if interrupted and it exists; the index becomes invalid_index |
| Sequential.SequentialCommandGroup.IsFinished | include/frc2/command/SequentialCommandGroup.h:89 | true iff the index equals the number of children |
| Sequential.SequentialCommandGroup.RunsWhenDisabled | include/frc2/command/SequentialCommandGroup.h:91 | true iff every child runs when disabled |
| Sequential.SequentialCommandGroup.GetRequirements | include/frc2/command/SequentialCommandGroup.h:34-35 | exactly the union of the children's requirements |
| Parallel.InitializedBalanced | include/frc2/command/ParallelCommandGroup.h:79 | Initialize() starts every child once and flags every child running |
| Parallel.ExecuteCallsCount | include/frc2/command/ParallelCommandGroup.h:81 | one Execute() executes each running child once, ends normally exactly the ones that then report finished, and makes no other call |
| Parallel.ExecutedCalls | include/frc2/command/ParallelCommandGroup.h:81 | per child: a running child is executed once and ended normally with its flag cleared iff it reports finished; a child no longer running gets nothing |
| Parallel.ExecutedBalanced | include/frc2/command/ParallelCommandGroup.h:81 | Execute() preserves Balanced: each child started once, executed once per cycle while running, ended normally exactly when its flag was cleared, never interrupted |
| Parallel.InterruptCallsCount | include/frc2/command/ParallelCommandGroup.h:37-38 | End(true) interrupts exactly the children still flagged running, once each |
| Parallel.FinishedIffEveryChildEnded | include/frc2/command/ParallelCommandGroup.h:25-26 | the group is finished iff every child has been ended normally, and then every child reports finished |
| Parallel.EndedStopsEachChildOnce | include/frc2/command/ParallelCommandGroup.h:35-38 | after End, every child has been ended exactly once, and interrupted iff the group was interrupted while the child still ran |
| Parallel.RunFlags | include/frc2/command/ParallelCommandGroup.h:35-37 | after k cycles, a child runs iff it needs more than k cycles, and it has been executed min(k, duration) times |
| Parallel.FinishesWithLongestChild | include/frc2/command/ParallelCommandGroup.h:25-26 | from Initialize(), the group is finished after k cycles iff every child's duration is at most k |
| Parallel.ParallelCommandGroup.constructor | include/frc2/command/ParallelCommandGroup.h:42-43 | the group holds the longest prefix of the commands with pairwise disjoint requirements, and none when some command is grouped |
| Parallel.ParallelCommandGroup.AddCommands | include/frc2/command/ParallelCommandGroup.h:90-94 | refused as a whole if a command is grouped; otherwise commands are added until one overlaps the group's requirements, that overlap is reported, and so is adding while running |
| Parallel.ParallelCommandGroup.Initialize | include/frc2/command/ParallelCommandGroup.h:79 | the new state is the Initialize() step function, and isRunning is set |
| Parallel.ParallelCommandGroup.Execute | include/frc2/command/ParallelCommandGroup.h:81 | the new state is the Execute() step function of the old one |
| Parallel.ParallelCommandGroup.End | include/frc2/command/ParallelCommandGroup.h:83 | the new state is the End() step function, and isRunning is cleared |
| Parallel.ParallelCommandGroup.IsFinished | include/frc2/command/ParallelCommandGroup.h:85 | true iff no child is flagged running |
| Parallel.ParallelCommandGroup.RunsWhenDisabled | include/frc2/command/ParallelCommandGroup.h:87 | true iff every child runs when disabled |
| Parallel.ParallelCommandGroup.GetRequirements | include/frc2/command/ParallelCommandGroup.h:28-29 | exactly the union of the children's requirements; no two children share a subsystem |
| Race.InitializedRacing | include/frc2/command/ParallelRaceGroup.h:68 | Initialize() starts every child, and m_finished is false |
| Race.ExecutedRacing | include/frc2/command/ParallelRaceGroup.h:70 | Execute() executes every child once per cycle, and m_finished becomes true in the first cycle in which some child reports finished and stays true |
| Race.RunIsRacing | include/frc2/command/ParallelRaceGroup.h:36-38 | after Initialize() and k cycles, every child has been started once and executed k times, simultaneously |
| Race.FinishesWithFirstChild | include/frc2/command/ParallelRaceGroup.h:25-27 | after k cycles, the group is finished iff some child's duration is at most k |
| Race.EndCallsCount | include/frc2/command/ParallelRaceGroup.h:72 | End() ends every child exactly once: normally if the child reports finished, interrupted otherwise |
| Race.EndedCount | include/frc2/command/ParallelRaceGroup.h:36-38 | over a whole run, each child is started once, executed once per cycle, and ended once, as interrupted iff it does not report finished |
| Race.EndedStopsEachChildOnce | include/frc2/command/ParallelRaceGroup.h:36-38 | when the race ends, each child that finished is ended normally and every other child is interrupted, each exactly once |
| Race.ParallelRaceGroup.constructor | include/frc2/command/ParallelRaceGroup.h:42 | the group holds the longest prefix of the commands with pairwise disjoint requirements, and none when some command is grouped |
| Race.ParallelRaceGroup.AddCommands | include/frc2/command/ParallelRaceGroup.h:79-84 | refused as a whole if a command is grouped; otherwise commands are added until one overlaps the group's requirements, with those errors reported |
| Race.ParallelRaceGroup.Initialize | include/frc2/command/ParallelRaceGroup.h:68 | the new state is the Initialize() step function, and isRunning is set |
| Race.ParallelRaceGroup.Execute | include/frc2/command/ParallelRaceGroup.h:70 | the new state is the Execute() step function of the old one |
| Race.ParallelRaceGroup.End | include/frc2/command/ParallelRaceGroup.h:72 | the new state is the End() step function, and isRunning is cleared |
| Race.ParallelRaceGroup.IsFinished | include/frc2/command/ParallelRaceGroup.h:74 | returns m_finished |
| Race.ParallelRaceGroup.RunsWhenDisabled | include/frc2/command/ParallelRaceGroup.h:76 | true iff every child runs when disabled |
| Race.ParallelRaceGroup.GetRequirements | include/frc2/command/ParallelRaceGroup.h:29-30 | exactly the union of the children's requirements; no two children share a subsystem |
| Deadline.FinishedIffDeadlineStopped | include/frc2/command/ParallelDeadlineGroup.h:25-27 | once the deadline has been executed, the group is finished iff the deadline has been ended normally; other children finishing do not matter |
| Deadline.FinishesWithDeadline | include/frc2/command/ParallelDeadlineGroup.h:36-38 | after Initialize() and k >= 1 cycles, the group is finished iff the deadline's duration is at most k, whatever the other children need |
| Deadline.EndedAfterDeadline | include/frc2/command/ParallelDeadlineGroup.h:24-27 | at the end, the deadline has been ended normally once, and every other child has been ended once, interrupted iff it was still running |
| Deadline.ParallelDeadlineGroup.constructor | include/frc2/command/ParallelDeadlineGroup.h:62-66 | the deadline is set first, as child 0, when it is ungrouped (and marked grouped); then, when none of the other commands is grouped, the longest prefix of them whose requirements overlap neither each other nor the deadline's is held and marked grouped, otherwise none is; no child is running and every step counter is 0 |
| Deadline.ParallelDeadlineGroup.SetDeadline | include/frc2/command/ParallelDeadlineGroup.h:100 | the deadline is added like any child; it becomes the deadline iff it is ungrouped and disjoint from the group's requirements; the new child is not running and its step counter is 0, the existing flags and counters are kept |
| Deadline.ParallelDeadlineGroup.AddCommands | include/frc2/command/ParallelDeadlineGroup.h:98 | as for ParallelCommandGroup: the held commands, the registry, the requirements and the running flags and counters grow by the accepted prefix, whose children are not running and have counter 0; the deadline is unchanged |
| Deadline.ParallelDeadlineGroup.Initialize | include/frc2/command/ParallelDeadlineGroup.h:87 | every child, the deadline included, is started and flagged running |
| Deadline.ParallelDeadlineGroup.Execute | include/frc2/command/ParallelDeadlineGroup.h:89 | each running child is executed; one that then reports finished is ended normally and no longer executed; the held commands and the group's running flag are kept |
| Deadline.ParallelDeadlineGroup.End | include/frc2/command/ParallelDeadlineGroup.h:91 | every child still running is interrupted |
| Deadline.ParallelDeadlineGroup.IsFinished | include/frc2/command/ParallelDeadlineGroup.h:93 | the deadline's own IsFinished() answer |
| Deadline.ParallelDeadlineGroup.RunsWhenDisabled | include/frc2/command/ParallelDeadlineGroup.h:95 | true iff every child, the deadline included, runs when disabled |
| Deadline.ParallelDeadlineGroup.GetRequirements | include/frc2/command/ParallelDeadlineGroup.h:29-30 | exactly the union of the children's requirements, the deadline's included |
| Perpetual.RunsForever | include/frc2/command/PerpetualCommand.h:23-25 | after Initialize() and k cycles, the wrapped command has been started once and executed k times; the wrapper never reports finished |
| Perpetual.ExecutedPastOwnFinish | include/frc2/command/PerpetualCommand.h:23-25 | the run state holds the wrapped command; in any cycle after the one where that command's own IsFinished() first holds, it is still executed and never ended, neither normally nor by interruption, and the wrapper does not report finished |
| Perpetual.EndedOnlyByInterruption | include/frc2/command/PerpetualCommand.h:36-38 | with End called as the scheduler calls it, the wrapped command is started once, executed every cycle, interrupted once and never ended normally |
| Perpetual.PerpetualCommand.constructor | include/frc2/command/PerpetualCommand.h:26-28 | an ungrouped command is taken over and marked grouped; a grouped one is refused |
| Perpetual.PerpetualCommand.Initialize | include/frc2/command/PerpetualCommand.h:65 | forwards Initialize() to the wrapped command |
| Perpetual.PerpetualCommand.Execute | include/frc2/command/PerpetualCommand.h:67 | forwards Execute() to the wrapped command every cycle |
| Perpetual.PerpetualCommand.End | include/frc2/command/PerpetualCommand.h:69 | forwards End(interrupted) to the wrapped command |
| Perpetual.PerpetualCommand.IsFinished | include/frc2/command/PerpetualCommand.h:33 | with no override, always false whatever the wrapped command reports |
| Perpetual.PerpetualCommand.RunsWhenDisabled | include/frc2/command/PerpetualCommand.h:33 | with no override, the base answer false |
| Perpetual.PerpetualCommand.GetRequirements | include/frc2/command/PerpetualCommand.h:30-31 | exactly the wrapped command's requirements |
| Subsystems.MutualExclusion | include/frc2/command/Subsystem.h:20-25 | in a consistent claim table, no two scheduled commands share a subsystem |
| Subsystems.CurrentCommandIsTheClaimant | include/frc2/command/Subsystem.h:74-80 | the current command is None iff no scheduled command requires the subsystem, and otherwise it is the only scheduled command that does |
| Subsystems.Registered | include/frc2/command/Subsystem.h:82-86 | registration adds the subsystem and changes nothing else |
| Subsystems.WithDefaultConsistent | include/frc2/command/Subsystem.h:50-55 | setting a default keeps the tables consistent; an accepted default is stored and registers the subsystem; a refused one changes nothing |
| Subsystems.AdmittedConsistent | include/frc2/command/Subsystem.h:20-25 | scheduling keeps the claim table consistent; a grouped command is refused; conflicting commands are no longer scheduled and the others are kept |
| Subsystems.CancelledConsistent | include/frc2/command/Subsystem.h:74-80 | cancelling keeps the table consistent, releases every claim of the cancelled command, and keeps the others |
| Subsystems.PromotedConsistent | include/frc2/command/Subsystem.h:50-53 | after a scheduler run, every registered subsystem whose default command is not grouped is claimed, by that default if it was free; existing claims are kept; no grouped command is newly scheduled, so a default taken over by a group is not run on its own |
| Subsystems.CommandScheduler.RegisterSubsystem | include/frc2/command/Subsystem.h:27-29 | the scheduler's tables become the Registered step of the old ones |
| Subsystems.CommandScheduler.SetDefaultCommand | include/frc2/command/Subsystem.h:59-64 | accepted iff the command requires exactly the subsystem; the tables become the WithDefault step |
| Subsystems.CommandScheduler.Schedule | include/frc2/command/Subsystem.h:20-25 | true iff the command is ungrouped; returns the interrupted conflicting commands; the tables become the Admitted step |
| Subsystems.CommandScheduler.Cancel | include/frc2/command/Subsystem.h:74-80 | true iff the command was scheduled; the tables become the Cancelled step |
| Subsystems.CommandScheduler.Run | include/frc2/command/Subsystem.h:41-48 | Periodic() is called once on each registered subsystem and on no other; the ungrouped default commands of free subsystems are then promoted |
| Subsystems.Visit | include/frc2/command/Subsystem.h:82-86 | visits exactly the given subsystems, each exactly once |
| Subsystems.Subsystem.SetDefaultCommand | include/frc2/command/Subsystem.h:50-63 | forwarded to the scheduler; accepted iff the command requires exactly this subsystem, and then the subsystem is registered |
| Subsystems.Subsystem.GetDefaultCommand | include/frc2/command/Subsystem.h:66-72 | None iff no default command is set, and otherwise that default |
| Subsystems.Subsystem.GetCurrentCommand | include/frc2/command/Subsystem.h:74-80 | None iff no scheduled command requires the subsystem; otherwise the single scheduled command that does |
| Subsystems.Subsystem.Register | include/frc2/command/Subsystem.h:82-86 | the scheduler's tables become the Registered step for this subsystem |

## Left out

- The headers declare the lifecycle methods without bodies. The bodies here
  follow the doc comments and the private fields. Where those leave a choice,
  the model follows the framework's usual implementation, as described in the
  lines below.
- Child commands are scripted values: `IsFinished()` turns true after a fixed
  number of `Execute()` calls. A composition nested inside another
  composition as a child is not modelled.
- Iteration order over `std::unordered_map` and `std::set`: the model visits
  children in the order they were added. The source's order is that of the
  container. Per-child properties do not depend on it, but the order of calls
  within one cycle does.
- Error reporting: errors are returned as `GroupError` values instead of being
  sent to the framework's error sink (`frc/ErrorBase.h`, `frc/WPIErrors.h`,
  which are not part of this model). The message text is not modelled.
- Ownership.GroupRegistry.RequireUngroupedAll: reports one error naming the
  first grouped command. The source only promises that an error is reported.
- C++ mechanics: the variadic and `unique_ptr` constructors, moves, and
  deleted copy constructors. A group is built from a sequence of child
  values.
- `invalid_index` is the largest `size_t`, taken as 64 bits. Groups are assumed to have fewer children than that.
- Sequential.SequentialCommandGroup.Execute: requires the index to denote a
  child when the group has children. The source would index past the end
  otherwise, which is undefined behaviour in C++.
- Race.ParallelRaceGroup.End: `End(interrupted)` ends each child with the negation of that
  child's own `IsFinished()` answer, whatever the flag says. If several
  children finish in the same cycle, all of them end normally.
- Deadline.ParallelDeadlineGroup.IsFinished: requires an accepted deadline.
  The header declares SetDeadline without saying what happens to a grouped
  command. The model chooses to refuse it the way AddCommands refuses one,
  and then records no deadline; it does not describe a group run with a
  refused deadline.
- Deadline.ParallelDeadlineGroup.End: every still-running child is
  interrupted, whatever the flag says. This covers both the deadline
  finishing and the group being interrupted.
- Perpetual.PerpetualCommand.End: forwards the wrapper's own flag to the
  wrapped command, as the framework does. Always ending the wrapped command
  as interrupted gives the same result: `Perpetual.EndedOnlyByInterruption`
  shows that a wrapper ended the way the scheduler ends it passes on only
  an interruption.
- Perpetual.PerpetualCommand.Initialize, Perpetual.PerpetualCommand.Execute,
  Perpetual.PerpetualCommand.End: require a wrapped command. When the
  constructor refuses a grouped command, the C++ `m_command` stays null and
  these methods would dereference it, which is undefined behaviour. The
  model does not describe a refused wrapper being run.
- The `CommandScheduler` implementation is not part of this model. It is
  represented only by the tables the subsystem queries read. Left unmodelled:
  - the scheduler's own lifecycle calls on scheduled commands;
  - retirement of finished commands;
  - non-interruptible commands;
  - disabled mode;
  - button bindings.
- Subsystems.CommandScheduler.Schedule: conflicting commands are cancelled
  in favour of the new one. This is how the framework treats interruptible
  commands; none of the modelled headers states it.
- Subsystems.CommandScheduler.SetDefaultCommand: a default command must
  require exactly its own subsystem. A looser rule (the subsystem being among
  its requirements) is not modelled. Under that rule, promoting a default
  could itself conflict with other commands.
- Subsystem::Periodic's body: it is empty in the base class and overridden by
  users. The model records only which subsystems it is called on and in what
  order (`Subsystems.CommandScheduler.Run`). The destructor `~Subsystem` is
  left out.
- PIDCommand, WaitCommand, WaitUntilCommand, POVButton and SubsystemBase:
  these involve floating-point control, timers, joystick hardware and
  dashboard telemetry, which are outside the composition core.
