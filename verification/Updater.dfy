/** The self-update transaction: any number of updater processes on one installation, every step of
    which may fail, with processes stopping or being cancelled anywhere, releases appearing, and other
    programs replacing the executable or restarting the service meanwhile. */
module Updater {
  import opened Text
  import opened Versions

  /** The executable, its ".previous" backup, and the contents the service was last restarted from. */
  datatype Disk = Disk(exe: Bytes, previous: Option<Bytes>, restartedFrom: Option<Bytes>)

  datatype Return =
    | Updated
    | Rejected        // any error before the executable was replaced
    | RolledBack
    | RollbackFailed
    | BackupLeft      // healthy, but the backup could not be removed
    | Killed

  datatype Pc =
    | Started
    | Locked
    | Fetched(version: string)
    | Ready(version: string)
    | Copying(version: string)
    | BackedUp(version: string)
    | Replaced
    | Restarted
    | Healthy
    | Failing
    | Restored
    | Leaving(result: Return)
    | Done(result: Return)

  /** One `zimaos-monitor update` process. */
  datatype Proc = Proc(
    current: string,        // the version compiled into the binary it was started from
    pc: Pc,
    found: Disk,            // what was on the disk when the lock was taken
    candidate: Bytes,
    source: Bytes,          // the executable that was opened for the backup
    cancelled: bool,        // the context of all its commands is done
    disturbed: bool,        // another program replaced the executable since the lock was taken
    served: bool,           // another program restarted the service since the lock was taken
    systemctlCalls: nat)
  {
    /** From the lock to the deferred close. */
    predicate Holding() { !pc.Started? && !pc.Done? }
  }

  datatype World = World(disk: Disk, lock: Option<nat>, feed: string, procs: map<nat, Proc>)

  /** What a process does next, with the outcome that the system chose. */
  datatype Action =
    | Acquire
    | LockUnavailable
    | Fetch                       // release metadata, compared with the current version
    | Obtain(candidate: Bytes)    // download, checksum, extraction and --version all succeeded
    | Abort                       // any error before the backup is touched
    | OpenBackup                  // created or truncated
    | CopySome(length: nat)       // that much of the executable has been written
    | CopyFails
    | CopyEnds
    | Rename
    | RenameFails(backupRemoved: bool)
    | RestartNew(ok: bool)
    | Cancel                      // a signal ends the context
    | DelayAborted                // the context was done before the delay was over
    | CheckHealth(ok: bool)
    | RemoveBackup(ok: bool)
    | RestoreOld(ok: bool)
    | RestartOld(ok: bool)
    | Close                       // work directory removed, lock closed
    | Kill                        // the process stops; the system releases its lock

  datatype Event =
    | Publish(version: string)
    | Spawn(pid: nat)
    | Act(pid: nat, action: Action)
    | Install(content: Bytes)     // another program, such as the installer, replaces the executable
    | Serve                       // another program, such as the installer, restarts the service

  datatype Local = Local(proc: Proc, disk: Disk)

  /** An action of the lock holder on the disk; None when it is not the holder's next action. No command
      and no request succeeds once the context is done. */
  function HolderStep(p: Proc, disk: Disk, feed: string, a: Action, versionOf: Bytes -> string): Option<Local>
  {
    match (a, p.pc)
    case (Fetch, Locked) =>
      if p.cancelled then None
      else Some(Local(p.(pc := if Newer(p.current, feed) then Fetched(feed) else Leaving(Rejected)), disk))
    case (Obtain(candidate), Fetched(v)) =>
      if p.cancelled || versionOf(candidate) != v then None
      else Some(Local(p.(pc := Ready(v), candidate := candidate), disk))
    case (Abort, pc) =>
      if pc.Locked? || pc.Fetched? || pc.Ready? then Some(Local(p.(pc := Leaving(Rejected)), disk)) else None
    case (OpenBackup, Ready(v)) =>
      Some(Local(p.(pc := Copying(v), source := disk.exe), disk.(previous := Some([]))))
    case (CopySome(n), Copying(v)) =>
      if n <= |p.source| then Some(Local(p, disk.(previous := Some(p.source[..n])))) else None
    case (CopyFails, Copying(v)) =>
      Some(Local(p.(pc := Leaving(Rejected)), disk))
    case (CopyEnds, Copying(v)) =>
      if disk.previous == Some(p.source) then Some(Local(p.(pc := BackedUp(v)), disk)) else None
    case (Rename, BackedUp(v)) =>
      Some(Local(p.(pc := Replaced), disk.(exe := p.candidate)))
    case (RenameFails(removed), BackedUp(v)) =>
      Some(Local(p.(pc := Leaving(Rejected)), if removed then disk.(previous := None) else disk))
    case (RestartNew(ok), Replaced) =>
      if ok && p.cancelled then None
      else Some(Local(p.(pc := if ok then Restarted else Failing, systemctlCalls := p.systemctlCalls + 1),
                      if ok then disk.(restartedFrom := Some(disk.exe)) else disk))
    case (DelayAborted, Restarted) =>
      if p.cancelled then Some(Local(p.(pc := Failing), disk)) else None
    case (CheckHealth(ok), Restarted) =>
      if ok && p.cancelled then None
      else Some(Local(p.(pc := if ok then Healthy else Failing, systemctlCalls := p.systemctlCalls + 1), disk))
    case (RemoveBackup(ok), Healthy) =>
      Some(Local(p.(pc := Leaving(if ok then Updated else BackupLeft)), if ok then disk.(previous := None) else disk))
    case (RestoreOld(ok), Failing) =>
      if !ok || disk.previous.None? then Some(Local(p.(pc := Leaving(RollbackFailed)), disk))
      else Some(Local(p.(pc := Restored), disk.(exe := disk.previous.value, previous := None)))
    case (RestartOld(ok), Restored) =>
      if ok && p.cancelled then None
      else
        Some(Local(p.(pc := Leaving(if ok then RolledBack else RollbackFailed), systemctlCalls := p.systemctlCalls + 1),
                   if ok then disk.(restartedFrom := Some(disk.exe)) else disk))
    case _ => None
  }

  /** The context is still to be asked; afterwards a signal changes nothing. */
  predicate Cancellable(pc: Pc) { !pc.Healthy? && !pc.Leaving? && !pc.Done? }

  /** An action of any process: taking the lock, the holder's transaction, and the deferred close. */
  function ProcStep(p: Proc, disk: Disk, lockFree: bool, feed: string, a: Action, versionOf: Bytes -> string)
    : Option<Local>
  {
    if a.Kill? then
      if p.pc.Done? then None else Some(Local(p.(pc := Done(Killed)), disk))
    else if a.Cancel? then
      if Cancellable(p.pc) then Some(Local(p.(cancelled := true), disk)) else None
    else if p.pc.Started? then
      if a.Acquire? && lockFree then Some(Local(p.(pc := Locked, found := disk), disk))
      else if a.LockUnavailable? then Some(Local(p.(pc := Done(Rejected)), disk))
      else None
    else if p.pc.Leaving? then
      if a.Close? then Some(Local(p.(pc := Done(p.pc.result)), disk)) else None
    else HolderStep(p, disk, feed, a, versionOf)
  }

  /** A process started from the executable on the disk. */
  function Fresh(disk: Disk, versionOf: Bytes -> string): Proc
  {
    Proc(versionOf(disk.exe), Started, disk, [], [], false, false, false, 0)
  }

  /** The world after one process moved: the lock follows the process that is in its transaction. */
  function Moved(w: World, pid: nat, next: Local): World
  {
    World(next.disk, LockAfter(w.lock, pid, next.proc), w.feed, w.procs[pid := next.proc])
  }

  function LockAfter(lock: Option<nat>, pid: nat, p: Proc): Option<nat>
  {
    if p.Holding() then Some(pid) else if lock == Some(pid) then None else lock
  }

  function Step(w: World, ev: Event, versionOf: Bytes -> string): Option<World>
  {
    match ev
    case Publish(v) =>
      if Tag(v).Some? && !TagBelow(v, w.feed) then Some(w.(feed := v)) else None
    case Spawn(pid) =>
      if pid in w.procs then None
      else Some(Moved(w, pid, Local(Fresh(w.disk, versionOf), w.disk)))
    case Act(pid, a) =>
      if pid !in w.procs then None
      else
        var next := ProcStep(w.procs[pid], w.disk, w.lock.None?, w.feed, a, versionOf);
        if next.None? then None else Some(Moved(w, pid, next.value))
    case Install(content) =>
      Some(World(w.disk.(exe := content), w.lock, w.feed, Noticed(w.procs, w.lock, true, false)))
    case Serve =>
      Some(World(w.disk.(restartedFrom := Some(w.disk.exe)), w.lock, w.feed, Noticed(w.procs, w.lock, false, true)))
  }

  /** A process under whose lock another program replaced the executable or restarted the service. */
  function Marked(p: Proc, disturbed: bool, served: bool): Proc
  {
    p.(disturbed := p.disturbed || disturbed, served := p.served || served)
  }

  /** The lock holder, if any, is marked. */
  function Noticed(procs: map<nat, Proc>, lock: Option<nat>, disturbed: bool, served: bool): map<nat, Proc>
  {
    if lock.Some? && lock.value in procs
    then procs[lock.value := Marked(procs[lock.value], disturbed, served)]
    else procs
  }

  function Run(w: World, trace: seq<Event>, versionOf: Bytes -> string): Option<World>
  {
    if trace == [] then Some(w)
    else
      var before := Run(w, trace[..|trace| - 1], versionOf);
      if before.None? then None else Step(before.value, trace[|trace| - 1], versionOf)
  }

  lemma EventIsRecorded(w: World, trace: seq<Event>, ev: Event, versionOf: Bytes -> string)
    ensures Run(w, trace, versionOf).Some? ==>
              Run(w, trace + [ev], versionOf) == Step(Run(w, trace, versionOf).value, ev, versionOf)
    ensures Run(w, trace, versionOf).None? ==> Run(w, trace + [ev], versionOf).None?
  {
    assert (trace + [ev])[..|trace|] == trace;
  }

  lemma {:induction false} RunAppend(w: World, first: seq<Event>, rest: seq<Event>, versionOf: Bytes -> string)
    requires Run(w, first, versionOf).Some?
    ensures Run(w, first + rest, versionOf) == Run(Run(w, first, versionOf).value, rest, versionOf)
  {
    if rest == [] {
      assert first + rest == first;
    } else {
      var front, last := rest[..|rest| - 1], rest[|rest| - 1];
      RunAppend(w, first, front, versionOf);
      assert rest == front + [last] && first + rest == (first + front) + [last];
      EventIsRecorded(w, first + front, last, versionOf);
      EventIsRecorded(Run(w, first, versionOf).value, front, last, versionOf);
    }
  }

  lemma RunOne(w: World, ev: Event, versionOf: Bytes -> string)
    ensures Run(w, [ev], versionOf) == Step(w, ev, versionOf)
  {
    assert [ev] == [] + [ev];
    EventIsRecorded(w, [], ev, versionOf);
  }

  lemma RunFrom(w: World, ev: Event, rest: seq<Event>, versionOf: Bytes -> string)
    requires Step(w, ev, versionOf).Some?
    ensures Run(w, [ev] + rest, versionOf) == Run(Step(w, ev, versionOf).value, rest, versionOf)
  {
    RunOne(w, ev, versionOf);
    RunAppend(w, [ev], rest, versionOf);
  }

  // ------------------------------------------------------------ one transaction

  /** What the service was last restarted from, unless another program restarted it meanwhile. */
  ghost predicate RestartedFrom(p: Proc, disk: Disk, exe: Option<Bytes>)
  {
    p.served || disk.restartedFrom == exe
  }

  /** Nothing but the backup has been touched, and no systemctl call made. */
  ghost predicate Untouched(p: Proc, disk: Disk)
  {
    disk.exe == p.found.exe && RestartedFrom(p, disk, p.found.restartedFrom) && p.systemctlCalls == 0
  }

  /** The candidate is on the path and the whole old executable beside it. */
  ghost predicate Swapped(p: Proc, disk: Disk)
  {
    disk.exe == p.candidate && disk.previous == Some(p.found.exe)
  }

  /** The restart of the candidate is counted; it was accepted if the health check was asked as well. */
  ghost predicate Tried(p: Proc, disk: Disk, calls: int)
  {
    || (calls == 1 && (RestartedFrom(p, disk, p.found.restartedFrom) || RestartedFrom(p, disk, Some(p.candidate))))
    || (calls == 2 && RestartedFrom(p, disk, Some(p.candidate)))
  }

  /** What the disk holds at each point of the transaction of the lock holder. */
  ghost predicate HolderInvariant(p: Proc, disk: Disk)
  {
    match p.pc
    case Started => false
    case Done(_) => false
    case Locked => Untouched(p, disk) && disk.previous == p.found.previous
    case Fetched(_) => Untouched(p, disk) && disk.previous == p.found.previous
    case Ready(_) => Untouched(p, disk) && disk.previous == p.found.previous
    case Copying(_) =>
      && Untouched(p, disk) && p.source == p.found.exe
      && disk.previous.Some? && disk.previous.value <= p.found.exe
    case BackedUp(_) => Untouched(p, disk) && disk.previous == Some(p.found.exe)
    case Replaced => Swapped(p, disk) && RestartedFrom(p, disk, p.found.restartedFrom) && p.systemctlCalls == 0
    case Restarted => Swapped(p, disk) && RestartedFrom(p, disk, Some(p.candidate)) && p.systemctlCalls == 1
    case Healthy => Swapped(p, disk) && RestartedFrom(p, disk, Some(p.candidate)) && p.systemctlCalls == 2
    case Failing => Swapped(p, disk) && Tried(p, disk, p.systemctlCalls)
    case Restored => disk.exe == p.found.exe && disk.previous == None && Tried(p, disk, p.systemctlCalls)
    case Leaving(r) => Outcome(p, disk, r)
  }

  /** What each way of returning means for the executable, the backup, the last restart and the number of
      systemctl calls. */
  ghost predicate Outcome(p: Proc, disk: Disk, r: Return)
  {
    match r
    case Updated =>
      && disk.exe == p.candidate && disk.previous == None && RestartedFrom(p, disk, Some(p.candidate))
      && p.systemctlCalls == 2
    case Rejected =>
      && Untouched(p, disk)
      && (|| disk.previous == p.found.previous
          || disk.previous == None
          || disk.previous.value <= p.found.exe)
    case RolledBack =>
      && disk.exe == p.found.exe && disk.previous == None && RestartedFrom(p, disk, Some(p.found.exe))
      && p.systemctlCalls in {2, 3} && !p.cancelled
    case RollbackFailed =>
      || (Swapped(p, disk) && Tried(p, disk, p.systemctlCalls))
      || (disk.exe == p.found.exe && disk.previous == None && Tried(p, disk, p.systemctlCalls - 1))
    case BackupLeft => Swapped(p, disk) && RestartedFrom(p, disk, Some(p.candidate)) && p.systemctlCalls == 2
    case Killed => false
  }

  /** Exactly the process between lock and close holds the lock, and the disk is as its point in the
      transaction says. */
  ghost predicate Invariant(w: World)
  {
    && (forall pid | pid in w.procs :: w.procs[pid].Holding() <==> w.lock == Some(pid))
    && (forall pid | pid in w.procs :: Sound(w.procs[pid], w.disk))
    && (w.lock.Some? ==> w.lock.value in w.procs)
  }

  /** Up to the rename the executable has not been touched. */
  predicate BeforeRename(pc: Pc)
  {
    pc.Locked? || pc.Fetched? || pc.Ready? || pc.Copying? || pc.BackedUp?
  }

  lemma EarlyStepKeepsInvariant(p: Proc, disk: Disk, feed: string, a: Action, versionOf: Bytes -> string)
    requires BeforeRename(p.pc)
    requires HolderInvariant(p, disk) && HolderStep(p, disk, feed, a, versionOf).Some?
    ensures var next := HolderStep(p, disk, feed, a, versionOf).value;
            next.proc.Holding() && HolderInvariant(next.proc, next.disk) && next.proc.found == p.found
  {
    if a.CopySome? && p.pc.Copying? {
      assert p.source[..a.length] <= p.source;
    }
  }

  lemma WatchStepKeepsInvariant(p: Proc, disk: Disk, feed: string, a: Action, versionOf: Bytes -> string)
    requires p.pc.Replaced? || p.pc.Restarted? || p.pc.Healthy?
    requires HolderInvariant(p, disk) && HolderStep(p, disk, feed, a, versionOf).Some?
    ensures var next := HolderStep(p, disk, feed, a, versionOf).value;
            next.proc.Holding() && HolderInvariant(next.proc, next.disk) && next.proc.found == p.found
  {}

  lemma RollbackStepKeepsInvariant(p: Proc, disk: Disk, feed: string, a: Action, versionOf: Bytes -> string)
    requires p.pc.Failing? || p.pc.Restored?
    requires HolderInvariant(p, disk) && HolderStep(p, disk, feed, a, versionOf).Some?
    ensures var next := HolderStep(p, disk, feed, a, versionOf).value;
            next.proc.Holding() && HolderInvariant(next.proc, next.disk) && next.proc.found == p.found
  {}

  lemma HolderStepKeepsInvariant(p: Proc, disk: Disk, feed: string, a: Action, versionOf: Bytes -> string)
    requires HolderInvariant(p, disk) && HolderStep(p, disk, feed, a, versionOf).Some?
    ensures var next := HolderStep(p, disk, feed, a, versionOf).value;
            next.proc.Holding() && HolderInvariant(next.proc, next.disk) && next.proc.found == p.found
  {
    if BeforeRename(p.pc) {
      EarlyStepKeepsInvariant(p, disk, feed, a, versionOf);
    } else if p.pc.Failing? || p.pc.Restored? {
      RollbackStepKeepsInvariant(p, disk, feed, a, versionOf);
    } else {
      WatchStepKeepsInvariant(p, disk, feed, a, versionOf);
    }
  }

  /** A done context lets a transaction end in a rejection or a failed rollback only. */
  ghost predicate ObeysContext(p: Proc)
  {
    p.cancelled ==> !p.pc.Healthy? && (p.pc.Leaving? ==> p.pc.result in {Rejected, RollbackFailed})
  }

  /** The backup is what was opened for it, whatever happened to the executable meanwhile. */
  ghost predicate KeepsBackup(p: Proc, disk: Disk)
  {
    && (p.pc.Copying? ==> disk.previous.Some? && disk.previous.value <= p.source)
    && (p.pc.BackedUp? || p.pc.Replaced? || p.pc.Restarted? || p.pc.Healthy? || p.pc.Failing? ==>
          disk.previous == Some(p.source))
  }

  /** What a process may assume of the disk before its step; of the executable only unless another
      program replaced it under the lock. */
  ghost predicate Sound(p: Proc, disk: Disk)
  {
    && (p.Holding() && !p.disturbed ==> HolderInvariant(p, disk))
    && (p.pc.Started? ==> p.systemctlCalls == 0 && !p.disturbed && !p.served)
    && ObeysContext(p) && KeepsBackup(p, disk)
  }

  lemma HolderStepObeysContext(p: Proc, disk: Disk, feed: string, a: Action, versionOf: Bytes -> string)
    requires ObeysContext(p) && HolderStep(p, disk, feed, a, versionOf).Some? && p.Holding() && !p.pc.Leaving?
    ensures var next := HolderStep(p, disk, feed, a, versionOf).value.proc;
            next.Holding() && ObeysContext(next) && next.disturbed == p.disturbed
  {}

  lemma HolderStepKeepsBackup(p: Proc, disk: Disk, feed: string, a: Action, versionOf: Bytes -> string)
    requires KeepsBackup(p, disk) && HolderStep(p, disk, feed, a, versionOf).Some?
    ensures var next := HolderStep(p, disk, feed, a, versionOf).value;
            KeepsBackup(next.proc, next.disk)
  {
    if a.CopySome? && p.pc.Copying? {
      assert p.source[..a.length] <= p.source;
    }
  }

  lemma ProcStepKeepsSound(p: Proc, disk: Disk, lockFree: bool, feed: string, a: Action, versionOf: Bytes -> string)
    requires Sound(p, disk) && ProcStep(p, disk, lockFree, feed, a, versionOf).Some?
    ensures var next := ProcStep(p, disk, lockFree, feed, a, versionOf).value;
            && Sound(next.proc, next.disk)
            && (!p.Holding() ==> next.disk == disk && (next.proc.Holding() ==> lockFree))
            && next.proc.disturbed == p.disturbed
  {
    if p.Holding() && !p.pc.Leaving? && !a.Kill? && !a.Cancel? {
      HolderStepObeysContext(p, disk, feed, a, versionOf);
      HolderStepKeepsBackup(p, disk, feed, a, versionOf);
      if !p.disturbed {
        HolderStepKeepsInvariant(p, disk, feed, a, versionOf);
      }
    }
  }

  lemma MoveKeepsInvariant(w: World, pid: nat, next: Local)
    requires Invariant(w) && Sound(next.proc, next.disk)
    requires w.lock != Some(pid) ==> next.disk == w.disk && (next.proc.Holding() ==> w.lock.None?)
    ensures Invariant(Moved(w, pid, next))
  {}

  lemma InstallKeepsInvariant(w: World, content: Bytes)
    requires Invariant(w)
    ensures Invariant(World(w.disk.(exe := content), w.lock, w.feed, Noticed(w.procs, w.lock, true, false)))
  {}

  lemma ServedStaysSound(p: Proc, disk: Disk, exe: Option<Bytes>)
    requires Sound(p, disk)
    ensures !p.Holding() ==> Sound(p, disk.(restartedFrom := exe))
    ensures p.Holding() ==> Sound(Marked(p, false, true), disk.(restartedFrom := exe))
  {}

  lemma ServeKeepsInvariant(w: World)
    requires Invariant(w)
    ensures Invariant(World(w.disk.(restartedFrom := Some(w.disk.exe)), w.lock, w.feed,
                            Noticed(w.procs, w.lock, false, true)))
  {
    var next := w.disk.(restartedFrom := Some(w.disk.exe));
    var procs := Noticed(w.procs, w.lock, false, true);
    forall pid | pid in procs ensures Sound(procs[pid], next) {
      ServedStaysSound(w.procs[pid], w.disk, next.restartedFrom);
    }
  }

  lemma StepKeepsInvariant(w: World, ev: Event, versionOf: Bytes -> string)
    requires Invariant(w) && Step(w, ev, versionOf).Some?
    ensures Invariant(Step(w, ev, versionOf).value)
  {
    match ev
    case Publish(_) =>
    case Spawn(pid) =>
      MoveKeepsInvariant(w, pid, Local(Fresh(w.disk, versionOf), w.disk));
    case Act(pid, a) =>
      var p := w.procs[pid];
      ProcStepKeepsSound(p, w.disk, w.lock.None?, w.feed, a, versionOf);
      MoveKeepsInvariant(w, pid, ProcStep(p, w.disk, w.lock.None?, w.feed, a, versionOf).value);
    case Install(content) =>
      InstallKeepsInvariant(w, content);
    case Serve =>
      ServeKeepsInvariant(w);
  }

  /** SAFETY OVER ALL RUNS. In every world that any run reaches there is at most one process in its
      transaction, and the disk is as that process's point in the transaction requires. */
  lemma {:induction false} RunKeepsInvariant(w: World, trace: seq<Event>, versionOf: Bytes -> string)
    requires Invariant(w) && Run(w, trace, versionOf).Some?
    ensures Invariant(Run(w, trace, versionOf).value)
  {
    if trace != [] {
      RunKeepsInvariant(w, trace[..|trace| - 1], versionOf);
      StepKeepsInvariant(Run(w, trace[..|trace| - 1], versionOf).value, trace[|trace| - 1], versionOf);
    }
  }

  /** Wherever a run stops, an updater inside its transaction leaves a whole binary on the path, with
      the whole old one beside it while the candidate has not proved healthy, if nobody replaced the
      executable under its lock; and it is the only one inside. */
  lemma InterruptedUpdateIsRecoverable(w: World, trace: seq<Event>, versionOf: Bytes -> string, pid: nat)
    requires Invariant(w) && Run(w, trace, versionOf).Some?
    requires pid in Run(w, trace, versionOf).value.procs && Run(w, trace, versionOf).value.procs[pid].Holding()
    ensures var now := Run(w, trace, versionOf).value;
            var p := now.procs[pid];
            && (!p.disturbed ==>
                  && (now.disk.exe == p.found.exe || now.disk.exe == p.candidate)
                  && (now.disk.exe != p.found.exe && p.pc != Leaving(Updated) ==>
                        now.disk.previous == Some(p.found.exe)))
            && (forall q | q in now.procs && q != pid :: !now.procs[q].Holding())
  {
    RunKeepsInvariant(w, trace, versionOf);
  }

  /** Return classes: an updater that has returned but not yet closed the lock. */
  lemma ReturnClassFixesState(w: World, trace: seq<Event>, versionOf: Bytes -> string, pid: nat)
    requires Invariant(w) && Run(w, trace, versionOf).Some?
    requires pid in Run(w, trace, versionOf).value.procs && Run(w, trace, versionOf).value.procs[pid].pc.Leaving?
    ensures var now := Run(w, trace, versionOf).value;
            var p := now.procs[pid];
            && (!p.disturbed ==> Outcome(p, now.disk, p.pc.result))
            && (p.cancelled ==> p.pc.result in {Rejected, RollbackFailed})
  {
    RunKeepsInvariant(w, trace, versionOf);
  }

  /** After a cancelled health delay: the rollback fails even where it puts the old binary back. */
  ghost predicate CannotRollBack(p: Proc)
  {
    p.cancelled && p.pc in {Restarted, Failing, Restored, Leaving(RollbackFailed), Done(RollbackFailed), Done(Killed)}
  }

  /** Under the lock the service keeps running the candidate, and path and backup are as the point of the
      rollback says. */
  ghost predicate Stranded(p: Proc, disk: Disk)
  {
    && RestartedFrom(p, disk, Some(p.candidate))
    && (|| Swapped(p, disk)
        || (p.pc in {Restored, Leaving(RollbackFailed)} && disk.exe == p.found.exe && disk.previous == None))
  }

  lemma StepCannotRollBack(p: Proc, disk: Disk, lockFree: bool, feed: string, a: Action, versionOf: Bytes -> string)
    requires CannotRollBack(p) && ProcStep(p, disk, lockFree, feed, a, versionOf).Some?
    ensures var next := ProcStep(p, disk, lockFree, feed, a, versionOf).value.proc;
            && CannotRollBack(next) && (next.Holding() ==> p.Holding())
            && next == p.(pc := next.pc, cancelled := true, systemctlCalls := next.systemctlCalls)
  {}

  lemma WatchedStaysStranded(p: Proc, disk: Disk, feed: string, a: Action, versionOf: Bytes -> string)
    requires p.cancelled && (p.pc.Restarted? || p.pc.Failing?) && Swapped(p, disk)
    requires RestartedFrom(p, disk, Some(p.candidate)) && HolderStep(p, disk, feed, a, versionOf).Some?
    ensures var next := HolderStep(p, disk, feed, a, versionOf).value;
            Stranded(next.proc, next.disk)
  {}

  lemma StepStaysStranded(p: Proc, disk: Disk, lockFree: bool, feed: string, a: Action, versionOf: Bytes -> string)
    requires CannotRollBack(p) && Stranded(p, disk) && ProcStep(p, disk, lockFree, feed, a, versionOf).Some?
    ensures var next := ProcStep(p, disk, lockFree, feed, a, versionOf).value;
            next.proc.Holding() ==> Stranded(next.proc, next.disk)
  {
    if (p.pc.Restarted? || p.pc.Failing?) && !a.Kill? && !a.Cancel? {
      WatchedStaysStranded(p, disk, feed, a, versionOf);
    }
  }

  /** A process moved on from another one of which the context ended in the health delay. */
  ghost predicate StrandedSince(w: World, pid: nat, first: Proc)
  {
    && pid in w.procs && CannotRollBack(w.procs[pid])
    && w.procs[pid].candidate == first.candidate && w.procs[pid].found == first.found
    && (w.procs[pid].Holding() && !w.procs[pid].disturbed ==> Stranded(w.procs[pid], w.disk))
  }

  /** A step of another process touches neither the disk of a lock holder nor its lock. */
  lemma OtherStepEffect(w: World, pid: nat, q: nat, a: Action, versionOf: Bytes -> string)
    requires Invariant(w) && pid in w.procs && q in w.procs && pid != q
    requires ProcStep(w.procs[q], w.disk, w.lock.None?, w.feed, a, versionOf).Some?
    ensures var next := ProcStep(w.procs[q], w.disk, w.lock.None?, w.feed, a, versionOf).value;
            && (w.procs[pid].Holding() ==> next.disk == w.disk)
            && (w.procs[pid].Holding() <==> Moved(w, q, next).lock == Some(pid))
  {
    ProcStepKeepsSound(w.procs[q], w.disk, w.lock.None?, w.feed, a, versionOf);
  }

  lemma StepStaysStrandedSince(w: World, ev: Event, pid: nat, first: Proc, versionOf: Bytes -> string)
    requires Invariant(w) && StrandedSince(w, pid, first) && Step(w, ev, versionOf).Some?
    ensures StrandedSince(Step(w, ev, versionOf).value, pid, first)
  {
    if ev.Act? {
      if ev.pid == pid {
        StepCannotRollBack(w.procs[pid], w.disk, w.lock.None?, w.feed, ev.action, versionOf);
        if Stranded(w.procs[pid], w.disk) {
          StepStaysStranded(w.procs[pid], w.disk, w.lock.None?, w.feed, ev.action, versionOf);
        }
      } else {
        OtherStepEffect(w, pid, ev.pid, ev.action, versionOf);
      }
    }
  }

  /** CANCELLATION. An update whose context ends while the restarted candidate is being watched never ends
      as rolled back, whatever it and others do next; and while it holds the lock undisturbed, the service
      was last restarted from the candidate unless another program restarted it. */
  lemma {:induction false} CancelledDelayStrands(w: World, trace: seq<Event>, pid: nat, versionOf: Bytes -> string)
    requires Invariant(w) && pid in w.procs && w.procs[pid].pc == Restarted && w.procs[pid].cancelled
    requires Run(w, trace, versionOf).Some?
    ensures StrandedSince(Run(w, trace, versionOf).value, pid, w.procs[pid])
  {
    if trace != [] {
      var front := trace[..|trace| - 1];
      CancelledDelayStrands(w, front, pid, versionOf);
      RunKeepsInvariant(w, front, versionOf);
      StepStaysStrandedSince(Run(w, front, versionOf).value, trace[|trace| - 1], pid, w.procs[pid], versionOf);
    }
  }

  // -------------------------------------------------------------------- versions

  /** v is the version the installation began with, or a newer one that the feed has reached. */
  ghost predicate Known(v: string, base: string, feed: string)
  {
    v == base || Reached(v, base, feed)
  }

  ghost predicate Reached(v: string, base: string, feed: string)
  {
    Parsed(v).Some? && Newer(base, v) && !TagBelow(feed, v)
  }

  /** What a process knows of versions, over any notion of known and of reached versions and of one
      version not being below another. */
  ghost predicate ProcFacts(p: Proc, versionOf: Bytes -> string, known: string -> bool, reached: string -> bool,
                            notBelow: (string, string) -> bool)
  {
    && (!p.pc.Done? ==> known(p.current))
    && (p.Holding() ==> known(versionOf(p.found.exe)))
    && (p.pc.Fetched? ==> reached(p.pc.version) && notBelow(p.pc.version, versionOf(p.found.exe)))
    && (p.pc.Ready? || p.pc.Copying? || p.pc.BackedUp? || p.pc.Replaced? || p.pc.Restarted? || p.pc.Healthy?
        || p.pc.Failing? || p.pc == Leaving(Updated) ==>
          reached(versionOf(p.candidate)) && notBelow(versionOf(p.candidate), versionOf(p.found.exe)))
  }

  ghost function KnownIn(base: string, feed: string): string -> bool { v => Known(v, base, feed) }

  ghost function ReachedIn(base: string, feed: string): string -> bool { v => Reached(v, base, feed) }

  ghost function NotBelow(): (string, string) -> bool { (v, w) => !Newer(v, w) }

  ghost predicate ProcVersions(p: Proc, base: string, feed: string, versionOf: Bytes -> string)
  {
    ProcFacts(p, versionOf, KnownIn(base, feed), ReachedIn(base, feed), NotBelow())
  }

  ghost predicate VersionInvariant(w: World, base: string, versionOf: Bytes -> string)
  {
    && Tag(w.feed).Some?
    && Known(versionOf(w.disk.exe), base, w.feed)
    && (forall pid | pid in w.procs :: ProcVersions(w.procs[pid], base, w.feed, versionOf))
    && (forall pid | pid in w.procs && w.procs[pid].Holding() :: !w.procs[pid].disturbed)
  }

  /** What the feed has reached stays reached when it moves on. */
  lemma KnownStaysKnown(v: string, base: string, feed: string, next: string)
    requires Known(v, base, feed) && Tag(feed).Some? && Tag(next).Some? && !TagBelow(next, feed)
    ensures Known(v, base, next)
    ensures Reached(v, base, feed) ==> Reached(v, base, next)
  {
    if Reached(v, base, feed) {
      ParsedIsTag(v);
      NotBelowTransitive(Tag(v).value, Tag(feed).value, Tag(next).value);
    }
  }

  lemma NotBelowTransitive(a: Triple, b: Triple, c: Triple)
    requires |a.parts| == |b.parts| == |c.parts| == 3
    requires !Below(b, a) && !Below(c, b)
    ensures !Below(c, a)
  {
    BelowByCases(b, a);
    BelowByCases(c, b);
    BelowByCases(c, a);
  }

  /** A release newer than a known version is above the base, and the feed is above every known one. */
  lemma FetchedIsReached(current: string, feed: string, base: string, onDisk: string)
    requires Known(current, base, feed) && Known(onDisk, base, feed) && Newer(current, feed)
    ensures Reached(feed, base, feed) && !Newer(feed, onDisk)
  {
    NewerIsStrictPartialOrder(base, current, feed);
    NewerIsStrictPartialOrder(feed, feed, feed);
    NewerIsStrictPartialOrder(base, feed, feed);
    ParsedIsTag(feed);
    BelowIsStrictOrder(Tag(feed).value, Tag(feed).value, Tag(feed).value);
    if onDisk != base {
      ParsedIsTag(onDisk);
    }
  }

  lemma HolderStepKeepsFacts(p: Proc, disk: Disk, feed: string, a: Action, versionOf: Bytes -> string,
                             known: string -> bool, reached: string -> bool, notBelow: (string, string) -> bool)
    requires HolderInvariant(p, disk) && HolderStep(p, disk, feed, a, versionOf).Some?
    requires known(versionOf(disk.exe)) && ProcFacts(p, versionOf, known, reached, notBelow)
    requires forall v | reached(v) :: known(v)
    requires a.Fetch? && Newer(p.current, feed) ==> reached(feed) && notBelow(feed, versionOf(p.found.exe))
    ensures var next := HolderStep(p, disk, feed, a, versionOf).value;
            known(versionOf(next.disk.exe)) && ProcFacts(next.proc, versionOf, known, reached, notBelow)
  {}

  lemma HolderStepKeepsVersions(p: Proc, disk: Disk, feed: string, a: Action, base: string, versionOf: Bytes -> string)
    requires HolderInvariant(p, disk) && HolderStep(p, disk, feed, a, versionOf).Some?
    requires Tag(feed).Some? && Known(versionOf(disk.exe), base, feed) && ProcVersions(p, base, feed, versionOf)
    ensures var next := HolderStep(p, disk, feed, a, versionOf).value;
            Known(versionOf(next.disk.exe), base, feed) && ProcVersions(next.proc, base, feed, versionOf)
  {
    if a.Fetch? && Newer(p.current, feed) {
      FetchedIsReached(p.current, feed, base, versionOf(p.found.exe));
    }
    HolderStepKeepsFacts(p, disk, feed, a, versionOf, KnownIn(base, feed), ReachedIn(base, feed), NotBelow());
  }

  lemma ProcStepKeepsVersions(p: Proc, disk: Disk, lockFree: bool, feed: string, a: Action, base: string,
                              versionOf: Bytes -> string)
    requires Sound(p, disk) && ProcStep(p, disk, lockFree, feed, a, versionOf).Some?
    requires p.Holding() ==> !p.disturbed
    requires Tag(feed).Some? && Known(versionOf(disk.exe), base, feed) && ProcVersions(p, base, feed, versionOf)
    ensures var next := ProcStep(p, disk, lockFree, feed, a, versionOf).value;
            Known(versionOf(next.disk.exe), base, feed) && ProcVersions(next.proc, base, feed, versionOf)
  {
    if p.Holding() && !p.pc.Leaving? && !a.Kill? && !a.Cancel? {
      HolderStepKeepsVersions(p, disk, feed, a, base, versionOf);
    } else {
      BoundaryStepKeepsVersions(p, disk, lockFree, feed, a, base, versionOf);
    }
  }

  lemma BoundaryStepKeepsVersions(p: Proc, disk: Disk, lockFree: bool, feed: string, a: Action, base: string,
                                  versionOf: Bytes -> string)
    requires a.Kill? || a.Cancel? || p.pc.Started? || p.pc.Leaving?
    requires ProcStep(p, disk, lockFree, feed, a, versionOf).Some?
    requires Known(versionOf(disk.exe), base, feed) && ProcVersions(p, base, feed, versionOf)
    ensures var next := ProcStep(p, disk, lockFree, feed, a, versionOf).value;
            next.disk == disk && ProcVersions(next.proc, base, feed, versionOf)
  {}

  /** The executable is replaced only from a complete backup, by the verified candidate. */
  lemma RenameNeedsBackup(p: Proc, disk: Disk, lockFree: bool, feed: string, versionOf: Bytes -> string)
    requires ProcStep(p, disk, lockFree, feed, Rename, versionOf).Some?
    ensures p.pc.BackedUp? && p.Holding()
    ensures ProcStep(p, disk, lockFree, feed, Rename, versionOf).value.disk.exe == p.candidate
  {}

  lemma MoveKeepsVersions(w: World, pid: nat, next: Local, base: string, versionOf: Bytes -> string)
    requires VersionInvariant(w, base, versionOf)
    requires Known(versionOf(next.disk.exe), base, w.feed) && ProcVersions(next.proc, base, w.feed, versionOf)
    requires next.proc.Holding() ==> !next.proc.disturbed
    ensures VersionInvariant(Moved(w, pid, next), base, versionOf)
  {}

  lemma StepKeepsVersions(w: World, ev: Event, base: string, versionOf: Bytes -> string)
    requires Invariant(w) && VersionInvariant(w, base, versionOf) && Step(w, ev, versionOf).Some? && !ev.Install?
    ensures VersionInvariant(Step(w, ev, versionOf).value, base, versionOf)
  {
    match ev
    case Publish(v) =>
      PublishKeepsVersions(w, v, base, versionOf);
    case Spawn(pid) =>
      MoveKeepsVersions(w, pid, Local(Fresh(w.disk, versionOf), w.disk), base, versionOf);
    case Act(pid, a) =>
      ActKeepsVersions(w, pid, a, base, versionOf);
    case Serve =>
      ServeKeepsVersions(w, base, versionOf);
  }

  lemma ServeKeepsVersions(w: World, base: string, versionOf: Bytes -> string)
    requires VersionInvariant(w, base, versionOf)
    ensures VersionInvariant(Step(w, Serve, versionOf).value, base, versionOf)
  {}

  lemma ActKeepsVersions(w: World, pid: nat, a: Action, base: string, versionOf: Bytes -> string)
    requires Invariant(w) && VersionInvariant(w, base, versionOf) && pid in w.procs
    requires ProcStep(w.procs[pid], w.disk, w.lock.None?, w.feed, a, versionOf).Some?
    ensures var next := ProcStep(w.procs[pid], w.disk, w.lock.None?, w.feed, a, versionOf).value;
            VersionInvariant(Moved(w, pid, next), base, versionOf)
  {
    var p := w.procs[pid];
    var next := ProcStep(p, w.disk, w.lock.None?, w.feed, a, versionOf).value;
    ProcStepKeepsSound(p, w.disk, w.lock.None?, w.feed, a, versionOf);
    NewHolderIsUndisturbed(p, w.disk, w.lock.None?, w.feed, a, versionOf);
    ProcStepKeepsVersions(p, w.disk, w.lock.None?, w.feed, a, base, versionOf);
    MoveKeepsVersions(w, pid, next, base, versionOf);
  }

  lemma NewHolderIsUndisturbed(p: Proc, disk: Disk, lockFree: bool, feed: string, a: Action, versionOf: Bytes -> string)
    requires Sound(p, disk) && ProcStep(p, disk, lockFree, feed, a, versionOf).Some? && (p.Holding() ==> !p.disturbed)
    ensures var next := ProcStep(p, disk, lockFree, feed, a, versionOf).value.proc;
            next.Holding() ==> !next.disturbed
  {
    ProcStepKeepsSound(p, disk, lockFree, feed, a, versionOf);
  }

  lemma PublishKeepsVersions(w: World, v: string, base: string, versionOf: Bytes -> string)
    requires VersionInvariant(w, base, versionOf) && Tag(v).Some? && !TagBelow(v, w.feed)
    ensures VersionInvariant(w.(feed := v), base, versionOf)
  {
    KnownStaysKnown(versionOf(w.disk.exe), base, w.feed, v);
    forall pid | pid in w.procs ensures ProcVersions(w.procs[pid], base, v, versionOf) {
      ProcVersionsStay(w.procs[pid], base, w.feed, v, versionOf);
    }
  }

  lemma ProcVersionsStay(p: Proc, base: string, feed: string, next: string, versionOf: Bytes -> string)
    requires ProcVersions(p, base, feed, versionOf)
    requires Tag(feed).Some? && Tag(next).Some? && !TagBelow(next, feed)
    ensures ProcVersions(p, base, next, versionOf)
  {
    if !p.pc.Done? {
      KnownStaysKnown(p.current, base, feed, next);
    }
    if p.Holding() {
      KnownStaysKnown(versionOf(p.found.exe), base, feed, next);
    }
    if Known(versionOf(p.candidate), base, feed) {
      KnownStaysKnown(versionOf(p.candidate), base, feed, next);
    }
    if p.pc.Fetched? {
      KnownStaysKnown(p.pc.version, base, feed, next);
    }
  }

  /** No updater is running. */
  ghost predicate AllDone(w: World)
  {
    forall pid | pid in w.procs :: w.procs[pid].pc.Done?
  }

  /** A world in which no updater is running. */
  ghost predicate Initial(w: World)
  {
    w.lock.None? && AllDone(w) && Tag(w.feed).Some?
  }

  /** Other programs replace the executable only while no updater is running. */
  ghost predicate InstallsApart(w: World, trace: seq<Event>, versionOf: Bytes -> string)
  {
    trace == [] ||
    (var front := trace[..|trace| - 1];
     && InstallsApart(w, front, versionOf)
     && (trace[|trace| - 1].Install? ==> Run(w, front, versionOf).Some? && AllDone(Run(w, front, versionOf).value)))
  }

  lemma RestVersions(w: World, versionOf: Bytes -> string)
    requires Initial(w)
    ensures Invariant(w) && VersionInvariant(w, versionOf(w.disk.exe), versionOf)
  {}

  /** `base` is the version of the last binary that another program put on the path. */
  lemma {:induction false} RunKeepsVersions(w: World, trace: seq<Event>, versionOf: Bytes -> string)
    returns (base: string)
    requires Initial(w) && Run(w, trace, versionOf).Some? && InstallsApart(w, trace, versionOf)
    ensures Invariant(Run(w, trace, versionOf).value)
    ensures VersionInvariant(Run(w, trace, versionOf).value, base, versionOf)
  {
    if trace == [] {
      base := versionOf(w.disk.exe);
      RestVersions(w, versionOf);
    } else {
      var front, ev := trace[..|trace| - 1], trace[|trace| - 1];
      base := RunKeepsVersions(w, front, versionOf);
      var before := Run(w, front, versionOf).value;
      StepKeepsInvariant(before, ev, versionOf);
      if ev.Install? {
        base := InstallRests(before, ev.content, versionOf);
      } else {
        StepKeepsVersions(before, ev, base, versionOf);
      }
    }
  }

  lemma InstallRests(w: World, content: Bytes, versionOf: Bytes -> string) returns (base: string)
    requires Invariant(w) && AllDone(w) && Tag(w.feed).Some?
    ensures VersionInvariant(Step(w, Install(content), versionOf).value, base, versionOf)
  {
    base := versionOf(content);
    assert w.lock.None?;
    RestVersions(Step(w, Install(content), versionOf).value, versionOf);
  }

  /** NO DOWNGRADE. Whatever ran before - updates, rollbacks, kills, updaters started long ago from an
      earlier binary, restarts of the service by others, installs while no updater was running - an updater
      that replaces the executable does not lower the version on disk. */
  lemma ReplacingNeverLowers(w: World, trace: seq<Event>, pid: nat, versionOf: Bytes -> string)
    requires Initial(w) && Run(w, trace, versionOf).Some? && InstallsApart(w, trace, versionOf)
    requires Step(Run(w, trace, versionOf).value, Act(pid, Rename), versionOf).Some?
    ensures var now := Run(w, trace, versionOf).value;
            var next := Step(now, Act(pid, Rename), versionOf).value;
            && now.disk.previous == Some(now.disk.exe)
            && !Newer(versionOf(next.disk.exe), versionOf(now.disk.exe))
  {
    var base := RunKeepsVersions(w, trace, versionOf);
    var now := Run(w, trace, versionOf).value;
    RenameNeedsBackup(now.procs[pid], now.disk, now.lock.None?, now.feed, versionOf);
    assert Sound(now.procs[pid], now.disk) && ProcVersions(now.procs[pid], base, now.feed, versionOf);
  }

  lemma SuccessNeverLowers(w: World, trace: seq<Event>, pid: nat, versionOf: Bytes -> string)
    requires Initial(w) && Run(w, trace, versionOf).Some? && InstallsApart(w, trace, versionOf)
    requires pid in Run(w, trace, versionOf).value.procs
    requires Run(w, trace, versionOf).value.procs[pid].pc == Leaving(Updated)
    ensures var now := Run(w, trace, versionOf).value;
            && now.disk.exe == now.procs[pid].candidate
            && !Newer(versionOf(now.disk.exe), versionOf(now.procs[pid].found.exe))
  {
    var base := RunKeepsVersions(w, trace, versionOf);
    var now := Run(w, trace, versionOf).value;
    assert Sound(now.procs[pid], now.disk) && ProcVersions(now.procs[pid], base, now.feed, versionOf);
  }

  // ------------------------------------------------- installs over a live updater

  /** The action puts another file on the path. */
  predicate WritesPath(p: Proc, disk: Disk, a: Action)
  {
    (a.Rename? && p.pc.BackedUp?) || (a == RestoreOld(true) && p.pc.Failing? && disk.previous.Some?)
  }

  ghost predicate HasBinary(version: string, versionOf: Bytes -> string)
  {
    exists b :: versionOf(b) == version
  }

  /** The feed shows, or may come to show, a release for this updater. */
  ghost predicate ReleaseAhead(current: string, feed: string, versionOf: Bytes -> string)
  {
    exists v :: Tag(v).Some? && !TagBelow(v, feed) && Newer(current, v) && HasBinary(v, versionOf)
  }

  /** Whether the updater can still put a file on the path, by its point in the transaction, its context
      and the releases that there may be. Who holds the lock does not matter. */
  ghost predicate MayWrite(p: Proc, feed: string, versionOf: Bytes -> string)
  {
    match p.pc
    case Started => !p.cancelled && ReleaseAhead(p.current, feed, versionOf)
    case Locked => !p.cancelled && ReleaseAhead(p.current, feed, versionOf)
    case Fetched(v) => !p.cancelled && HasBinary(v, versionOf)
    case Ready(_) => true
    case Copying(_) => true
    case BackedUp(_) => true
    case Replaced => true
    case Restarted => true
    case Failing => true
    case _ => false
  }

  lemma ShownReleaseIsAhead(current: string, feed: string, versionOf: Bytes -> string)
    requires Newer(current, feed) && HasBinary(feed, versionOf)
    ensures ReleaseAhead(current, feed, versionOf)
  {
    ParsedIsTag(feed);
    BelowIsStrictOrder(Tag(feed).value, Tag(feed).value, Tag(feed).value);
  }

  lemma LaterReleaseIsAhead(current: string, feed: string, next: string, versionOf: Bytes -> string)
    requires Tag(next).Some? && !TagBelow(next, feed) && ReleaseAhead(current, next, versionOf)
    ensures ReleaseAhead(current, feed, versionOf)
  {
    var v :| Tag(v).Some? && !TagBelow(v, next) && Newer(current, v) && HasBinary(v, versionOf);
    if Tag(feed).Some? {
      NotBelowTransitive(Tag(feed).value, Tag(next).value, Tag(v).value);
    }
  }

  // ---------------------------------------------------------- only where it may

  lemma OwnStepBackwards(p: Proc, disk: Disk, lockFree: bool, feed: string, a: Action, versionOf: Bytes -> string)
    requires ProcStep(p, disk, lockFree, feed, a, versionOf).Some?
    requires MayWrite(ProcStep(p, disk, lockFree, feed, a, versionOf).value.proc, feed, versionOf)
    ensures MayWrite(p, feed, versionOf)
  {
    if a.Fetch? && p.pc.Locked? {
      ShownReleaseIsAhead(p.current, feed, versionOf);
    }
  }

  lemma StepBackwards(w: World, ev: Event, pid: nat, versionOf: Bytes -> string)
    requires pid in w.procs && Step(w, ev, versionOf).Some?
    ensures var next := Step(w, ev, versionOf).value;
            && pid in next.procs
            && (MayWrite(next.procs[pid], next.feed, versionOf) ==> MayWrite(w.procs[pid], w.feed, versionOf))
  {
    var p, next := w.procs[pid], Step(w, ev, versionOf).value;
    if MayWrite(next.procs[pid], next.feed, versionOf) {
      if ev.Publish? && (p.pc.Started? || p.pc.Locked?) {
        LaterReleaseIsAhead(p.current, w.feed, ev.version, versionOf);
      } else if ev.Act? && ev.pid == pid {
        OwnStepBackwards(p, w.disk, w.lock.None?, w.feed, ev.action, versionOf);
      }
    }
  }

  lemma {:induction false} RunBackwards(w: World, trace: seq<Event>, pid: nat, versionOf: Bytes -> string)
    requires pid in w.procs && Run(w, trace, versionOf).Some?
    ensures var last := Run(w, trace, versionOf).value;
            && pid in last.procs
            && (MayWrite(last.procs[pid], last.feed, versionOf) ==> MayWrite(w.procs[pid], w.feed, versionOf))
  {
    if trace != [] {
      var front := trace[..|trace| - 1];
      RunBackwards(w, front, pid, versionOf);
      StepBackwards(Run(w, front, versionOf).value, trace[|trace| - 1], pid, versionOf);
    }
  }

  // ------------------------------------------------------------- and there it can

  /** The release that the feed shows is one for this updater. */
  ghost predicate Offered(p: Proc, feed: string, versionOf: Bytes -> string)
  {
    Newer(p.current, feed) && HasBinary(feed, versionOf)
  }

  /** The own next action on the way to writing the path. */
  ghost function Towards(p: Proc, disk: Disk, versionOf: Bytes -> string): Action
  {
    match p.pc
    case Started => Acquire
    case Locked => Fetch
    case Fetched(v) => if HasBinary(v, versionOf) then (var b :| versionOf(b) == v; Obtain(b)) else Abort
    case Ready(_) => OpenBackup
    case Copying(_) => if disk.previous == Some(p.source) then CopyEnds else CopySome(|p.source|)
    case Replaced => RestartNew(false)
    case Restarted => CheckHealth(false)
    case _ => Kill
  }

  ghost function OwnDistance(p: Proc, disk: Disk): nat
  {
    match p.pc
    case Started => 9
    case Locked => 8
    case Fetched(_) => 7
    case Ready(_) => 6
    case Copying(_) => if disk.previous == Some(p.source) then 4 else 5
    case Replaced => 2
    case Restarted => 1
    case _ => 0
  }

  /** A release has to appear first; the holder of the lock has to go first. */
  ghost function Distance(w: World, p: Proc, versionOf: Bytes -> string): nat
  {
    OwnDistance(p, w.disk)
    + (if (p.pc.Started? || p.pc.Locked?) && !Offered(p, w.feed, versionOf) then 1 else 0)
    + (if p.pc.Started? && w.lock.Some? then 1 else 0)
  }

  lemma TowardsBackup(p: Proc, disk: Disk, lockFree: bool, feed: string, versionOf: Bytes -> string)
    requires p.pc.Started? || p.pc.Locked? || p.pc.Fetched? || p.pc.Ready?
    requires MayWrite(p, feed, versionOf)
    requires p.pc.Started? || p.pc.Locked? ==> Offered(p, feed, versionOf)
    requires p.pc.Started? ==> lockFree
    ensures var step := ProcStep(p, disk, lockFree, feed, Towards(p, disk, versionOf), versionOf);
            && step.Some? && MayWrite(step.value.proc, feed, versionOf) && step.value.disk.exe == disk.exe
            && OwnDistance(step.value.proc, step.value.disk) < OwnDistance(p, disk)
            && Keeps(p, step.value.proc, versionOf) && !step.value.proc.pc.Started?
  {}

  lemma TowardsWriting(p: Proc, disk: Disk, lockFree: bool, feed: string, versionOf: Bytes -> string)
    requires p.pc.Copying? || p.pc.Replaced? || p.pc.Restarted?
    ensures var step := ProcStep(p, disk, lockFree, feed, Towards(p, disk, versionOf), versionOf);
            && step.Some? && MayWrite(step.value.proc, feed, versionOf) && step.value.disk.exe == disk.exe
            && OwnDistance(step.value.proc, step.value.disk) < OwnDistance(p, disk)
            && Keeps(p, step.value.proc, versionOf)
            && !step.value.proc.pc.Started? && !step.value.proc.pc.Locked?
  {
    if p.pc.Copying? {
      assert p.source[..|p.source|] == p.source;
    }
  }

  /** What an updater on its way to writing the path keeps: its context and its marks, and the aim at a
      newer version. */
  ghost predicate Keeps(p: Proc, next: Proc, versionOf: Bytes -> string)
  {
    && next.current == p.current && next.cancelled == p.cancelled
    && next.disturbed == p.disturbed && next.served == p.served
    && (p.pc.Started? || BeforeRename(p.pc) ==> next.pc.Started? || BeforeRename(next.pc))
    && (AimsHigher(p, versionOf) ==> AimsHigher(next, versionOf))
  }

  ghost predicate AimsHigher(p: Proc, versionOf: Bytes -> string)
  {
    match p.pc
    case Fetched(v) => Newer(p.current, v)
    case Ready(_) => Newer(p.current, versionOf(p.candidate))
    case Copying(_) => Newer(p.current, versionOf(p.candidate))
    case BackedUp(_) => Newer(p.current, versionOf(p.candidate))
    case _ => true
  }

  /** An event brought the updater nearer to writing the path, and left the executable alone. */
  ghost predicate Nearer(w: World, ev: Event, pid: nat, versionOf: Bytes -> string)
  {
    var next := Step(w, ev, versionOf);
    && next.Some? && !ev.Install? && pid in w.procs && pid in next.value.procs && next.value.disk.exe == w.disk.exe
    && MayWrite(next.value.procs[pid], next.value.feed, versionOf)
    && Keeps(w.procs[pid], next.value.procs[pid], versionOf)
    && Distance(next.value, next.value.procs[pid], versionOf) < Distance(w, w.procs[pid], versionOf)
  }

  lemma OwnStepIsNearer(w: World, pid: nat, versionOf: Bytes -> string)
    requires pid in w.procs && MayWrite(w.procs[pid], w.feed, versionOf)
    requires !w.procs[pid].pc.BackedUp? && !w.procs[pid].pc.Failing?
    requires w.procs[pid].pc.Started? || w.procs[pid].pc.Locked? ==> Offered(w.procs[pid], w.feed, versionOf)
    requires w.procs[pid].pc.Started? ==> w.lock.None?
    ensures Nearer(w, Act(pid, Towards(w.procs[pid], w.disk, versionOf)), pid, versionOf)
  {
    var p := w.procs[pid];
    if p.pc.Copying? || p.pc.Replaced? || p.pc.Restarted? {
      TowardsWriting(p, w.disk, w.lock.None?, w.feed, versionOf);
    } else {
      TowardsBackup(p, w.disk, w.lock.None?, w.feed, versionOf);
    }
  }

  /** The holder may be killed, which frees the lock. */
  lemma FreedLockIsNearer(w: World, pid: nat, versionOf: Bytes -> string)
    requires Invariant(w) && pid in w.procs && w.procs[pid].pc.Started? && w.lock.Some?
    requires MayWrite(w.procs[pid], w.feed, versionOf)
    ensures Nearer(w, Act(w.lock.value, Kill), pid, versionOf)
  {}

  lemma ReleaseIsNearer(w: World, pid: nat, versionOf: Bytes -> string) returns (v: string)
    requires pid in w.procs && (w.procs[pid].pc.Started? || w.procs[pid].pc.Locked?)
    requires MayWrite(w.procs[pid], w.feed, versionOf) && !Offered(w.procs[pid], w.feed, versionOf)
    ensures Nearer(w, Publish(v), pid, versionOf)
  {
    var p := w.procs[pid];
    v :| Tag(v).Some? && !TagBelow(v, w.feed) && Newer(p.current, v) && HasBinary(v, versionOf);
    ShownReleaseIsAhead(p.current, v, versionOf);
  }

  lemma NearerEvent(w: World, pid: nat, versionOf: Bytes -> string) returns (ev: Event)
    requires Invariant(w) && pid in w.procs && MayWrite(w.procs[pid], w.feed, versionOf)
    requires !w.procs[pid].pc.BackedUp? && !w.procs[pid].pc.Failing?
    ensures Nearer(w, ev, pid, versionOf)
  {
    var p := w.procs[pid];
    if p.pc.Started? && w.lock.Some? {
      FreedLockIsNearer(w, pid, versionOf);
      ev := Act(w.lock.value, Kill);
    } else if (p.pc.Started? || p.pc.Locked?) && !Offered(p, w.feed, versionOf) {
      var v := ReleaseIsNearer(w, pid, versionOf);
      ev := Publish(v);
    } else {
      OwnStepIsNearer(w, pid, versionOf);
      ev := Act(pid, Towards(p, w.disk, versionOf));
    }
  }

  lemma WritesNow(w: World, pid: nat, versionOf: Bytes -> string) returns (a: Action)
    requires Invariant(w) && pid in w.procs && (w.procs[pid].pc.BackedUp? || w.procs[pid].pc.Failing?)
    ensures Writes(w, [], pid, a, versionOf)
  {
    assert Sound(w.procs[pid], w.disk);
    a := if w.procs[pid].pc.BackedUp? then Rename else RestoreOld(true);
  }

  lemma {:induction false} MayReachesWriting(w: World, pid: nat, versionOf: Bytes -> string)
    returns (trace: seq<Event>, a: Action)
    requires Invariant(w) && pid in w.procs && MayWrite(w.procs[pid], w.feed, versionOf)
    ensures Writes(w, trace, pid, a, versionOf) && Run(w, trace, versionOf).value.disk.exe == w.disk.exe
    ensures Keeps(w.procs[pid], Run(w, trace, versionOf).value.procs[pid], versionOf)
    ensures forall ev: Event | ev in trace :: !ev.Install?
    decreases Distance(w, w.procs[pid], versionOf)
  {
    if w.procs[pid].pc.BackedUp? || w.procs[pid].pc.Failing? {
      trace := [];
      a := WritesNow(w, pid, versionOf);
    } else {
      var ev := NearerEvent(w, pid, versionOf);
      StepKeepsInvariant(w, ev, versionOf);
      var rest;
      rest, a := MayReachesWriting(Step(w, ev, versionOf).value, pid, versionOf);
      RunFrom(w, ev, rest, versionOf);
      trace := [ev] + rest;
    }
  }

  /** These events lead to a world in which the next action of the updater puts a file on the path. */
  ghost predicate Writes(w: World, trace: seq<Event>, pid: nat, a: Action, versionOf: Bytes -> string)
  {
    var last := Run(w, trace, versionOf);
    && last.Some? && pid in last.value.procs && WritesPath(last.value.procs[pid], last.value.disk, a)
    && Step(last.value, Act(pid, a), versionOf).Some?
  }

  /** In some run the updater will put a file on the path. */
  ghost predicate CanStillWrite(w: World, pid: nat, versionOf: Bytes -> string)
  {
    exists trace, a :: Writes(w, trace, pid, a, versionOf)
  }

  /** In some run it will do so while the path still holds what it holds now. */
  ghost predicate CanOverwrite(w: World, pid: nat, versionOf: Bytes -> string)
  {
    exists trace: seq<Event>, a: Action ::
      && Writes(w, trace, pid, a, versionOf) && Run(w, trace, versionOf).value.disk.exe == w.disk.exe
      && forall ev: Event | ev in trace :: !ev.Install?
  }

  lemma WritingNeedsMay(w: World, pid: nat, versionOf: Bytes -> string)
    requires pid in w.procs && CanStillWrite(w, pid, versionOf)
    ensures MayWrite(w.procs[pid], w.feed, versionOf)
  {
    var trace, a :| Writes(w, trace, pid, a, versionOf);
    RunBackwards(w, trace, pid, versionOf);
  }

  /** WHERE AN INSTALL MAY FALL. What another program puts on the path while an updater is running can be
      overwritten by that updater, in some run of all updaters and the feed, exactly when the updater has
      a release ahead of it in a live context, or a verified candidate that it has neither given up, nor
      found healthy, nor rolled back. Otherwise it writes nothing, whatever others do. */
  lemma InstallOverwrittenExactly(w: World, pid: nat, content: Bytes, versionOf: Bytes -> string)
    requires Invariant(w) && pid in w.procs
    ensures var installed := Step(w, Install(content), versionOf).value;
            && (CanOverwrite(installed, pid, versionOf) <==> MayWrite(w.procs[pid], w.feed, versionOf))
            && (CanStillWrite(installed, pid, versionOf) <==> MayWrite(w.procs[pid], w.feed, versionOf))
  {
    var installed := Step(w, Install(content), versionOf).value;
    StepKeepsInvariant(w, Install(content), versionOf);
    if MayWrite(w.procs[pid], w.feed, versionOf) {
      var trace, a := MayReachesWriting(installed, pid, versionOf);
    }
    if CanStillWrite(installed, pid, versionOf) {
      WritingNeedsMay(installed, pid, versionOf);
    }
  }

  /** An install between backup and rename is lost: neither the path nor the backup holds it. */
  lemma InstallBeforeRenameIsLost(w: World, pid: nat, content: Bytes, versionOf: Bytes -> string)
    requires Invariant(w) && pid in w.procs && w.procs[pid].pc.BackedUp?
    ensures var installed := Step(w, Install(content), versionOf).value;
            var renamed := Step(installed, Act(pid, Rename), versionOf);
            && installed.disk.exe == content && renamed.Some?
            && renamed.value.disk.exe == w.procs[pid].candidate && renamed.value.disk.previous == w.disk.previous
            && renamed.value.procs[pid].disturbed
  {}

  // ---------------------------------------------------- where a rollback can end

  /** Whether the updater can still return as rolled back: it can come to replace the executable or is
      restoring it, and its context is not done. */
  ghost predicate MayRollBack(p: Proc, feed: string, versionOf: Bytes -> string)
  {
    p.pc == Leaving(RolledBack) || (!p.cancelled && (p.pc.Restored? || MayWrite(p, feed, versionOf)))
  }

  /** In some run the updater returns as rolled back. */
  ghost predicate CanRollBack(w: World, pid: nat, versionOf: Bytes -> string)
  {
    exists trace :: ReturnsIn(w, trace, pid, RolledBack, versionOf)
  }

  ghost predicate ReturnsIn(w: World, trace: seq<Event>, pid: nat, r: Return, versionOf: Bytes -> string)
  {
    var last := Run(w, trace, versionOf);
    last.Some? && pid in last.value.procs && last.value.procs[pid].pc == Leaving(r)
  }

  lemma RollBackBackwards(p: Proc, disk: Disk, feed: string, a: Action, versionOf: Bytes -> string)
    requires HolderStep(p, disk, feed, a, versionOf).Some?
    requires HolderStep(p, disk, feed, a, versionOf).value.proc.pc in {Restored, Leaving(RolledBack)}
    ensures p.pc in {Failing, Restored}
    ensures HolderStep(p, disk, feed, a, versionOf).value.proc.pc == Leaving(RolledBack) ==> !p.cancelled
  {}

  lemma ContextStaysDone(p: Proc, disk: Disk, lockFree: bool, feed: string, a: Action, versionOf: Bytes -> string)
    requires ProcStep(p, disk, lockFree, feed, a, versionOf).Some?
    ensures p.cancelled ==> ProcStep(p, disk, lockFree, feed, a, versionOf).value.proc.cancelled
  {}

  lemma OwnRollBackwards(p: Proc, disk: Disk, lockFree: bool, feed: string, a: Action, versionOf: Bytes -> string)
    requires ProcStep(p, disk, lockFree, feed, a, versionOf).Some?
    requires MayRollBack(ProcStep(p, disk, lockFree, feed, a, versionOf).value.proc, feed, versionOf)
    ensures MayRollBack(p, feed, versionOf)
  {
    var next := ProcStep(p, disk, lockFree, feed, a, versionOf).value.proc;
    ContextStaysDone(p, disk, lockFree, feed, a, versionOf);
    if next.pc in {Restored, Leaving(RolledBack)} {
      if !a.Cancel? {
        RollBackBackwards(p, disk, feed, a, versionOf);
      }
    } else {
      OwnStepBackwards(p, disk, lockFree, feed, a, versionOf);
    }
  }

  lemma StepRollBackwards(w: World, ev: Event, pid: nat, versionOf: Bytes -> string)
    requires pid in w.procs && Step(w, ev, versionOf).Some?
    ensures var next := Step(w, ev, versionOf).value;
            && pid in next.procs
            && (MayRollBack(next.procs[pid], next.feed, versionOf) ==> MayRollBack(w.procs[pid], w.feed, versionOf))
  {
    var next := Step(w, ev, versionOf).value;
    if MayRollBack(next.procs[pid], next.feed, versionOf) {
      if ev.Act? && ev.pid == pid {
        OwnRollBackwards(w.procs[pid], w.disk, w.lock.None?, w.feed, ev.action, versionOf);
      } else {
        StepBackwards(w, ev, pid, versionOf);
      }
    }
  }

  lemma {:induction false} RunRollBackwards(w: World, trace: seq<Event>, pid: nat, versionOf: Bytes -> string)
    requires pid in w.procs && Run(w, trace, versionOf).Some?
    ensures var last := Run(w, trace, versionOf).value;
            && pid in last.procs
            && (MayRollBack(last.procs[pid], last.feed, versionOf) ==> MayRollBack(w.procs[pid], w.feed, versionOf))
  {
    if trace != [] {
      var front := trace[..|trace| - 1];
      RunRollBackwards(w, front, pid, versionOf);
      StepRollBackwards(Run(w, front, versionOf).value, trace[|trace| - 1], pid, versionOf);
    }
  }

  /** These events lead to a world in which the process holds the lock in this state, over this disk. */
  ghost predicate Reaches(w: World, trace: seq<Event>, pid: nat, now: Local, versionOf: Bytes -> string)
  {
    var last := Run(w, trace, versionOf);
    && last.Some? && pid in last.value.procs && last.value.procs[pid] == now.proc && last.value.disk == now.disk
    && last.value.lock == Some(pid) && now.proc.Holding()
  }

  lemma ReachesNext(w: World, trace: seq<Event>, pid: nat, now: Local, a: Action, next: Local,
                    versionOf: Bytes -> string)
    returns (longer: seq<Event>)
    requires Reaches(w, trace, pid, now, versionOf) && next.proc.Holding()
    requires forall feed :: ProcStep(now.proc, now.disk, false, feed, a, versionOf) == Some(next)
    ensures Reaches(w, longer, pid, next, versionOf)
  {
    EventIsRecorded(w, trace, Act(pid, a), versionOf);
    longer := trace + [Act(pid, a)];
  }

  lemma RenameReached(w: World, trace: seq<Event>, pid: nat, now: Local, versionOf: Bytes -> string)
    returns (longer: seq<Event>, next: Local)
    requires Reaches(w, trace, pid, now, versionOf) && now.proc.pc.BackedUp?
    ensures Reaches(w, longer, pid, next, versionOf)
    ensures next == Local(now.proc.(pc := Replaced), now.disk.(exe := now.proc.candidate))
  {
    next := Local(now.proc.(pc := Replaced), now.disk.(exe := now.proc.candidate));
    longer := ReachesNext(w, trace, pid, now, Rename, next, versionOf);
  }

  lemma RestartReached(w: World, trace: seq<Event>, pid: nat, now: Local, ok: bool, versionOf: Bytes -> string)
    returns (longer: seq<Event>, next: Local)
    requires Reaches(w, trace, pid, now, versionOf) && now.proc.pc.Replaced? && (ok ==> !now.proc.cancelled)
    ensures Reaches(w, longer, pid, next, versionOf)
    ensures next.proc.pc == (if ok then Restarted else Failing)
    ensures next.proc.candidate == now.proc.candidate && next.proc.cancelled == now.proc.cancelled
    ensures next.disk == if ok then now.disk.(restartedFrom := Some(now.disk.exe)) else now.disk
  {
    next := Local(now.proc.(pc := if ok then Restarted else Failing, systemctlCalls := now.proc.systemctlCalls + 1),
                  if ok then now.disk.(restartedFrom := Some(now.disk.exe)) else now.disk);
    longer := ReachesNext(w, trace, pid, now, RestartNew(ok), next, versionOf);
  }

  lemma CancelReached(w: World, trace: seq<Event>, pid: nat, now: Local, versionOf: Bytes -> string)
    returns (longer: seq<Event>, next: Local)
    requires Reaches(w, trace, pid, now, versionOf) && now.proc.pc.Restarted?
    ensures Reaches(w, longer, pid, next, versionOf) && next == now.(proc := now.proc.(cancelled := true))
  {
    next := now.(proc := now.proc.(cancelled := true));
    longer := ReachesNext(w, trace, pid, now, Cancel, next, versionOf);
  }

  lemma AbortReached(w: World, trace: seq<Event>, pid: nat, now: Local, versionOf: Bytes -> string)
    returns (longer: seq<Event>, next: Local)
    requires Reaches(w, trace, pid, now, versionOf) && now.proc.pc.Restarted? && now.proc.cancelled
    ensures Reaches(w, longer, pid, next, versionOf) && next == now.(proc := now.proc.(pc := Failing))
  {
    next := now.(proc := now.proc.(pc := Failing));
    longer := ReachesNext(w, trace, pid, now, DelayAborted, next, versionOf);
  }

  lemma RestoreReached(w: World, trace: seq<Event>, pid: nat, now: Local, versionOf: Bytes -> string)
    returns (longer: seq<Event>, next: Local)
    requires Reaches(w, trace, pid, now, versionOf) && now.proc.pc.Failing? && now.disk.previous.Some?
    ensures Reaches(w, longer, pid, next, versionOf)
    ensures next.proc == now.proc.(pc := Restored)
    ensures next.disk == Disk(now.disk.previous.value, None, now.disk.restartedFrom)
  {
    next := Local(now.proc.(pc := Restored), Disk(now.disk.previous.value, None, now.disk.restartedFrom));
    longer := ReachesNext(w, trace, pid, now, RestoreOld(true), next, versionOf);
  }

  lemma RestartOldReached(w: World, trace: seq<Event>, pid: nat, now: Local, ok: bool, versionOf: Bytes -> string)
    returns (longer: seq<Event>, next: Local)
    requires Reaches(w, trace, pid, now, versionOf) && now.proc.pc.Restored? && (ok ==> !now.proc.cancelled)
    ensures Reaches(w, longer, pid, next, versionOf)
    ensures next.proc.pc == Leaving(if ok then RolledBack else RollbackFailed)
    ensures next.proc.candidate == now.proc.candidate && next.proc.cancelled == now.proc.cancelled
    ensures !ok ==> next.disk == now.disk
  {
    var pc := Leaving(if ok then RolledBack else RollbackFailed);
    next := Local(now.proc.(pc := pc, systemctlCalls := now.proc.systemctlCalls + 1),
                  if ok then now.disk.(restartedFrom := Some(now.disk.exe)) else now.disk);
    longer := ReachesNext(w, trace, pid, now, RestartOld(ok), next, versionOf);
  }

  /** From the backup on: the restart of the candidate fails and the old binary comes back. */
  lemma BackedUpRollsBack(w: World, trace: seq<Event>, pid: nat, now: Local, versionOf: Bytes -> string)
    returns (whole: seq<Event>)
    requires Reaches(w, trace, pid, now, versionOf)
    requires now.proc.pc.BackedUp? && now.disk.previous.Some? && !now.proc.cancelled
    ensures ReturnsIn(w, whole, pid, RolledBack, versionOf)
  {
    var t, replaced := RenameReached(w, trace, pid, now, versionOf);
    var u, failing := RestartReached(w, t, pid, replaced, false, versionOf);
    whole := FailingRollsBack(w, u, pid, failing, versionOf);
  }

  lemma FailingRollsBack(w: World, trace: seq<Event>, pid: nat, now: Local, versionOf: Bytes -> string)
    returns (whole: seq<Event>)
    requires Reaches(w, trace, pid, now, versionOf)
    requires now.proc.pc.Failing? && now.disk.previous.Some? && !now.proc.cancelled
    ensures ReturnsIn(w, whole, pid, RolledBack, versionOf)
  {
    var t, restored := RestoreReached(w, trace, pid, now, versionOf);
    var last;
    whole, last := RestartOldReached(w, t, pid, restored, true, versionOf);
  }

  lemma HolderIsReached(w: World, trace: seq<Event>, pid: nat, versionOf: Bytes -> string)
    requires Invariant(w) && Run(w, trace, versionOf).Some?
    requires pid in Run(w, trace, versionOf).value.procs && Run(w, trace, versionOf).value.procs[pid].Holding()
    ensures var last := Run(w, trace, versionOf).value;
            && Reaches(w, trace, pid, Local(last.procs[pid], last.disk), versionOf)
            && KeepsBackup(last.procs[pid], last.disk)
  {
    RunKeepsInvariant(w, trace, versionOf);
    assert Sound(Run(w, trace, versionOf).value.procs[pid], Run(w, trace, versionOf).value.disk);
  }

  lemma MayReachesRollback(w: World, pid: nat, versionOf: Bytes -> string) returns (trace: seq<Event>)
    requires Invariant(w) && pid in w.procs && MayRollBack(w.procs[pid], w.feed, versionOf)
    ensures ReturnsIn(w, trace, pid, RolledBack, versionOf)
  {
    trace := [];
    if w.procs[pid].pc.Restored? {
      HolderIsReached(w, [], pid, versionOf);
      var last;
      trace, last := RestartOldReached(w, [], pid, Local(w.procs[pid], w.disk), true, versionOf);
    } else if w.procs[pid].pc != Leaving(RolledBack) {
      var a;
      trace, a := MayReachesWriting(w, pid, versionOf);
      HolderIsReached(w, trace, pid, versionOf);
      var last := Run(w, trace, versionOf).value;
      if a.Rename? {
        trace := BackedUpRollsBack(w, trace, pid, Local(last.procs[pid], last.disk), versionOf);
      } else {
        trace := FailingRollsBack(w, trace, pid, Local(last.procs[pid], last.disk), versionOf);
      }
    }
  }

  /** WHERE A ROLLBACK CAN END. Some run returns as rolled back exactly when the updater has done so, or
      its context lives and it can still come to replace the executable, is watching the candidate, or is
      rolling back. */
  lemma RolledBackExactly(w: World, pid: nat, versionOf: Bytes -> string)
    requires Invariant(w) && pid in w.procs
    ensures CanRollBack(w, pid, versionOf) <==> MayRollBack(w.procs[pid], w.feed, versionOf)
    ensures w.procs[pid].pc in {Restarted, Failing, Restored} ==>
              (CanRollBack(w, pid, versionOf) <==> !w.procs[pid].cancelled)
  {
    if MayRollBack(w.procs[pid], w.feed, versionOf) {
      var trace := MayReachesRollback(w, pid, versionOf);
    }
    if CanRollBack(w, pid, versionOf) {
      var trace :| ReturnsIn(w, trace, pid, RolledBack, versionOf);
      RunRollBackwards(w, trace, pid, versionOf);
    }
  }

  /** From the backup on: the context ends in the health delay, the old binary comes back, and the service
      is not restarted from it. */
  lemma BackedUpStrands(w: World, trace: seq<Event>, pid: nat, now: Local, versionOf: Bytes -> string)
    returns (whole: seq<Event>, last: Local)
    requires Reaches(w, trace, pid, now, versionOf)
    requires now.proc.pc.BackedUp? && now.disk.previous == Some(now.proc.source) && !now.proc.cancelled
    ensures Reaches(w, whole, pid, last, versionOf) && last.proc.pc == Leaving(RollbackFailed) && last.proc.cancelled
    ensures last.proc.candidate == now.proc.candidate
    ensures last.disk == Disk(now.proc.source, None, Some(now.proc.candidate))
  {
    var t, replaced := RenameReached(w, trace, pid, now, versionOf);
    var u, restarted := RestartReached(w, t, pid, replaced, true, versionOf);
    whole, last := WatchedStrands(w, u, pid, restarted, versionOf);
  }

  lemma WatchedStrands(w: World, trace: seq<Event>, pid: nat, now: Local, versionOf: Bytes -> string)
    returns (whole: seq<Event>, last: Local)
    requires Reaches(w, trace, pid, now, versionOf) && now.proc.pc.Restarted? && now.disk.previous.Some?
    ensures Reaches(w, whole, pid, last, versionOf) && last.proc.pc == Leaving(RollbackFailed) && last.proc.cancelled
    ensures last.proc.candidate == now.proc.candidate
    ensures last.disk == Disk(now.disk.previous.value, None, now.disk.restartedFrom)
  {
    var t, cancelled := CancelReached(w, trace, pid, now, versionOf);
    var u, failing := AbortReached(w, t, pid, cancelled, versionOf);
    var v, restored := RestoreReached(w, u, pid, failing, versionOf);
    whole, last := RestartOldReached(w, v, pid, restored, false, versionOf);
  }

  /** A FAILED ROLLBACK IS REACHED. Wherever an updater may start with a release ahead of it, some run
      ends with the old binary back on the path, no backup, and the service last restarted from the newer
      candidate. */
  lemma StrandedIsReached(w: World, pid: nat, versionOf: Bytes -> string)
    returns (trace: seq<Event>, last: World)
    requires Initial(w) && pid !in w.procs && ReleaseAhead(versionOf(w.disk.exe), w.feed, versionOf)
    ensures Run(w, trace, versionOf) == Some(last) && pid in last.procs
    ensures last.procs[pid].pc == Leaving(RollbackFailed) && CannotRollBack(last.procs[pid])
    ensures last.disk == Disk(w.disk.exe, None, Some(last.procs[pid].candidate))
    ensures Newer(versionOf(w.disk.exe), versionOf(last.procs[pid].candidate))
  {
    RestVersions(w, versionOf);
    var spawned := Step(w, Spawn(pid), versionOf).value;
    StepKeepsInvariant(w, Spawn(pid), versionOf);
    RunOne(w, Spawn(pid), versionOf);
    var middle, a := MayReachesWriting(spawned, pid, versionOf);
    RunAppend(w, [Spawn(pid)], middle, versionOf);
    var now := Run(w, [Spawn(pid)] + middle, versionOf).value;
    HolderIsReached(w, [Spawn(pid)] + middle, pid, versionOf);
    BackupOfUndisturbed(w, [Spawn(pid)] + middle, pid, versionOf);
    var end;
    trace, end := BackedUpStrands(w, [Spawn(pid)] + middle, pid, Local(now.procs[pid], now.disk), versionOf);
    last := Run(w, trace, versionOf).value;
  }

  lemma BackupOfUndisturbed(w: World, trace: seq<Event>, pid: nat, versionOf: Bytes -> string)
    requires Invariant(w) && Run(w, trace, versionOf).Some? && pid in Run(w, trace, versionOf).value.procs
    requires var p := Run(w, trace, versionOf).value.procs[pid]; p.pc.BackedUp? && !p.disturbed
    ensures var last := Run(w, trace, versionOf).value;
            last.procs[pid].source == last.disk.exe
  {
    RunKeepsInvariant(w, trace, versionOf);
    var last := Run(w, trace, versionOf).value;
    assert Sound(last.procs[pid], last.disk);
  }
}
