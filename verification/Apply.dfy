/** Apply as the program runs it, while other updaters, the release feed, installers, restarts of the
    service and signals do what they like. Every step is recorded as an event of the world of module
    Updater, so what is proved there of all runs holds wherever the program is stopped. */
module Apply {
  import opened Text
  import opened Versions
  import opened Updater
  import Artifact

  // -------------------------------------------------------------- own steps

  lemma RestartStep(p: Proc, disk: Disk, lockFree: bool, feed: string, versionOf: Bytes -> string, ok: bool)
    requires p.pc.Replaced? && (ok ==> !p.cancelled)
    ensures ProcStep(p, disk, lockFree, feed, RestartNew(ok), versionOf)
         == Some(Local(p.(pc := if ok then Restarted else Failing, systemctlCalls := p.systemctlCalls + 1),
                       if ok then disk.(restartedFrom := Some(disk.exe)) else disk))
  {}

  lemma CheckStep(p: Proc, disk: Disk, lockFree: bool, feed: string, versionOf: Bytes -> string, ok: bool)
    requires p.pc.Restarted? && (ok ==> !p.cancelled)
    ensures ProcStep(p, disk, lockFree, feed, CheckHealth(ok), versionOf)
         == Some(Local(p.(pc := if ok then Healthy else Failing, systemctlCalls := p.systemctlCalls + 1), disk))
  {}

  lemma AbortedDelayStep(p: Proc, disk: Disk, lockFree: bool, feed: string, versionOf: Bytes -> string)
    requires p.pc.Restarted? && p.cancelled
    ensures ProcStep(p, disk, lockFree, feed, DelayAborted, versionOf) == Some(Local(p.(pc := Failing), disk))
  {}

  lemma RestoreStep(p: Proc, disk: Disk, lockFree: bool, feed: string, versionOf: Bytes -> string, ok: bool)
    requires p.pc.Failing? && (ok ==> disk.previous.Some?)
    ensures ProcStep(p, disk, lockFree, feed, RestoreOld(ok), versionOf)
         == if ok then Some(Local(p.(pc := Restored), disk.(exe := disk.previous.value, previous := None)))
            else Some(Local(p.(pc := Leaving(RollbackFailed)), disk))
  {}

  lemma RestartOldStep(p: Proc, disk: Disk, lockFree: bool, feed: string, versionOf: Bytes -> string, ok: bool)
    requires p.pc.Restored? && (ok ==> !p.cancelled)
    ensures ProcStep(p, disk, lockFree, feed, RestartOld(ok), versionOf)
         == Some(Local(p.(pc := Leaving(if ok then RolledBack else RollbackFailed),
                          systemctlCalls := p.systemctlCalls + 1),
                       if ok then disk.(restartedFrom := Some(disk.exe)) else disk))
  {}

  lemma RemoveStep(p: Proc, disk: Disk, lockFree: bool, feed: string, versionOf: Bytes -> string, ok: bool)
    requires p.pc.Healthy?
    ensures ProcStep(p, disk, lockFree, feed, RemoveBackup(ok), versionOf)
         == Some(Local(p.(pc := Leaving(if ok then Updated else BackupLeft)),
                       if ok then disk.(previous := None) else disk))
  {}

  lemma RenameStep(p: Proc, disk: Disk, lockFree: bool, feed: string, versionOf: Bytes -> string)
    requires p.pc.BackedUp?
    ensures ProcStep(p, disk, lockFree, feed, Rename, versionOf)
         == Some(Local(p.(pc := Replaced), disk.(exe := p.candidate)))
  {}

  lemma RenameFailsStep(p: Proc, disk: Disk, lockFree: bool, feed: string, versionOf: Bytes -> string, removed: bool)
    requires p.pc.BackedUp?
    ensures ProcStep(p, disk, lockFree, feed, RenameFails(removed), versionOf)
         == Some(Local(p.(pc := Leaving(Rejected)), if removed then disk.(previous := None) else disk))
  {}

  lemma FetchStep(p: Proc, disk: Disk, lockFree: bool, feed: string, versionOf: Bytes -> string)
    requires p.pc.Locked? && !p.cancelled
    ensures ProcStep(p, disk, lockFree, feed, Fetch, versionOf)
         == Some(Local(p.(pc := if Newer(p.current, feed) then Fetched(feed) else Leaving(Rejected)), disk))
  {}

  lemma ObtainStep(p: Proc, disk: Disk, lockFree: bool, feed: string, versionOf: Bytes -> string, candidate: Bytes)
    requires p.pc.Fetched? && !p.cancelled && versionOf(candidate) == p.pc.version
    ensures ProcStep(p, disk, lockFree, feed, Obtain(candidate), versionOf)
         == Some(Local(p.(pc := Ready(p.pc.version), candidate := candidate), disk))
  {}

  lemma AbortStep(p: Proc, disk: Disk, lockFree: bool, feed: string, versionOf: Bytes -> string)
    requires p.pc.Locked? || p.pc.Fetched? || p.pc.Ready?
    ensures ProcStep(p, disk, lockFree, feed, Abort, versionOf) == Some(Local(p.(pc := Leaving(Rejected)), disk))
  {}

  lemma OpenStep(p: Proc, disk: Disk, lockFree: bool, feed: string, versionOf: Bytes -> string)
    requires p.pc.Ready?
    ensures ProcStep(p, disk, lockFree, feed, OpenBackup, versionOf)
         == Some(Local(p.(pc := Copying(p.pc.version), source := disk.exe), disk.(previous := Some([]))))
  {}

  lemma CopyStep(p: Proc, disk: Disk, lockFree: bool, feed: string, versionOf: Bytes -> string, n: nat)
    requires p.pc.Copying? && n <= |p.source|
    ensures ProcStep(p, disk, lockFree, feed, CopySome(n), versionOf)
         == Some(Local(p, disk.(previous := Some(p.source[..n]))))
  {}

  lemma CopyEndStep(p: Proc, disk: Disk, lockFree: bool, feed: string, versionOf: Bytes -> string, ok: bool)
    requires p.pc.Copying? && (ok ==> disk.previous == Some(p.source))
    ensures ProcStep(p, disk, lockFree, feed, if ok then CopyEnds else CopyFails, versionOf)
         == Some(Local(p.(pc := if ok then BackedUp(p.pc.version) else Leaving(Rejected)), disk))
  {}

  lemma LockStep(p: Proc, disk: Disk, lockFree: bool, feed: string, versionOf: Bytes -> string, ok: bool)
    requires p.pc.Started? && (ok ==> lockFree)
    ensures ProcStep(p, disk, lockFree, feed, if ok then Acquire else LockUnavailable, versionOf)
         == Some(Local(if ok then p.(pc := Locked, found := disk) else p.(pc := Done(Rejected)), disk))
  {}

  lemma CloseStep(p: Proc, disk: Disk, lockFree: bool, feed: string, versionOf: Bytes -> string)
    requires p.pc.Leaving?
    ensures ProcStep(p, disk, lockFree, feed, Close, versionOf) == Some(Local(p.(pc := Done(p.pc.result)), disk))
  {}

  lemma CancelStep(p: Proc, disk: Disk, lockFree: bool, feed: string, versionOf: Bytes -> string)
    requires Cancellable(p.pc)
    ensures ProcStep(p, disk, lockFree, feed, Cancel, versionOf) == Some(Local(p.(cancelled := true), disk))
  {}

  // ---------------------------------------------------------------- program

  /** The commands of an update: systemctl restart, and systemctl is-active. */
  datatype Command = Restart | IsActive

  type Log = seq<(Command, bool)>

  /** No operation since the first n has failed. */
  ghost predicate AllSince(attempts: seq<bool>, n: nat)
  {
    forall i | n <= i < |attempts| :: attempts[i]
  }

  lemma AllSinceSplits(before: seq<bool>, after: seq<bool>, n: nat)
    requires before <= after && n <= |before|
    ensures AllSince(after, n) <==> AllSince(before, n) && AllSince(after, |before|)
  {
    if AllSince(after, n) {
      forall i | n <= i < |before| ensures before[i] {
        assert after[i];
      }
    }
  }

  /** The release that the feed's answer showed, if any, what network and system answered about it, and
      whether the operations in the work directory succeeded. */
  datatype Evidence = Evidence(release: Option<Artifact.Release>, outside: Artifact.Answers, local: bool)

  /** The release is newer than the running version. */
  ghost predicate Announced(e: Evidence, current: string)
  {
    e.release.Some? && Newer(current, e.release.value.version)
  }

  /** There was such a release, with a genuine candidate, and the work directory could be used. */
  ghost predicate Available(e: Evidence, current: string)
  {
    Announced(e, current) && e.local && exists candidate :: Artifact.Genuine(e.release.value, e.outside, candidate)
  }

  /** The candidate is the genuine one, by the version it was started with. */
  ghost predicate Chosen(e: Evidence, current: string, versionOf: Bytes -> string, candidate: Bytes)
  {
    && Announced(e, current) && e.local && Artifact.Genuine(e.release.value, e.outside, candidate)
    && versionOf(candidate) == e.release.value.version
  }

  /** What each return says about the commands so far and how they ended, about the operations on local
      files, and about the context. */
  ghost predicate Answered(result: Return, calls: Log, clean: bool, cancelled: bool)
  {
    match result
    case Rejected => calls == []
    case Updated => calls == Accepted() && clean
    case BackupLeft => calls == Accepted() && !clean
    case RolledBack => clean && exists first | Unhealthy(first, cancelled) :: calls == first + [(Restart, true)]
    case RollbackFailed =>
      if clean then exists first | Unhealthy(first, cancelled) :: calls == first + [(Restart, false)]
      else Unhealthy(calls, cancelled)
    case Killed => false
  }

  ghost function Accepted(): Log { [(Restart, true), (IsActive, true)] }

  /** The candidate could not be restarted, or the context ended in the delay, or it was not active. */
  ghost predicate Unhealthy(calls: Log, cancelled: bool)
  {
    || calls == [(Restart, false)]
    || (calls == [(Restart, true)] && cancelled)
    || calls == [(Restart, true), (IsActive, false)]
  }

  class Host {
    const pid: nat
    const current: string
    const versionOf: Bytes -> string
    var exe: Bytes
    var previous: Option<Bytes>
    var restartedFrom: Option<Bytes>
    /** Who holds the lock file. */
    var lock: Option<nat>
    var feed: string
    var others: map<nat, Proc>
    /** The context is done. */
    var cancelled: bool
    /** The commands so far, each with its success. */
    var calls: Log
    /** How the operations on local files have ended. */
    var attempts: seq<bool>
    var evidence: Evidence
    ghost var own: Proc
    ghost const start: World
    /** Everything that has happened; every prefix of it leads to a state the program can be stopped in. */
    ghost var trace: seq<Event>

    ghost function TheDisk(): Disk
      reads `exe, `previous, `restartedFrom
    {
      Disk(exe, previous, restartedFrom)
    }

    ghost function TheWorld(): World
      reads `exe, `previous, `restartedFrom, `lock, `feed, `others, `own
    {
      World(TheDisk(), lock, feed, others[pid := own])
    }

    ghost predicate Valid()
      reads `exe, `previous, `restartedFrom, `lock, `feed, `others, `own, `cancelled, `trace
    {
      && Run(start, trace, versionOf) == Some(TheWorld()) && Invariant(start)
      && own.current == current && (Cancellable(own.pc) ==> own.cancelled == cancelled)
      && (own.Holding() <==> lock == Some(pid))
    }

    constructor (pid: nat, disk: Disk, lock: Option<nat>, feed: string, others: map<nat, Proc>,
                 versionOf: Bytes -> string)
      requires pid !in others && Invariant(World(disk, lock, feed, others))
      ensures Valid() && own == Fresh(disk, versionOf) && trace == []
      ensures this.pid == pid && this.versionOf == versionOf && current == versionOf(disk.exe)
      ensures calls == [] && attempts == []
      ensures TheDisk() == disk && this.lock == lock && this.feed == feed && this.others == others
    {
      exe, previous, restartedFrom := disk.exe, disk.previous, disk.restartedFrom;
      this.pid, this.lock, this.feed, this.others, this.versionOf := pid, lock, feed, others, versionOf;
      current, cancelled := versionOf(disk.exe), false;
      calls, attempts, evidence := [], [], *;
      var p := Fresh(disk, versionOf);
      own, trace := p, [];
      start := World(disk, lock, feed, others[pid := p]);
    }

    // -------------------------------------------------------- recorded events

    /** Records that this process took a step: the fields now hold what the step made of `before`. */
    ghost method Took(a: Action, before: World, next: Local)
      requires Run(start, trace, versionOf) == Some(before) && Invariant(start)
      requires before.procs == others[pid := own] && before.feed == feed && own.current == current
      requires ProcStep(own, before.disk, before.lock.None?, feed, a, versionOf) == Some(next)
      requires next.disk == TheDisk() && lock == Moved(before, pid, next).lock && next.proc.current == current
      requires Cancellable(next.proc.pc) ==> next.proc.cancelled == cancelled
      requires next.proc.Holding() <==> lock == Some(pid)
      modifies `own, `trace
      ensures Valid() && own == next.proc && trace == old(trace) + [Act(pid, a)]
    {
      EventIsRecorded(start, trace, Act(pid, a), versionOf);
      assert others[pid := own][pid := next.proc] == others[pid := next.proc];
      own, trace := next.proc, trace + [Act(pid, a)];
    }

    /** Records an event of somebody else: with it the trace leads to what the fields now hold. */
    ghost method Happened(longer: seq<Event>, disturbed: bool, served: bool)
      requires Invariant(start) && (own.Holding() <==> lock == Some(pid)) && trace <= longer
      requires own.current == current && (Cancellable(own.pc) ==> own.cancelled == cancelled)
      requires Run(start, longer, versionOf)
            == Some(World(TheDisk(), lock, feed, others[pid := Marked(own, disturbed, served)]))
      modifies `own, `trace
      ensures Valid() && own == Marked(old(own), disturbed, served) && trace == longer
    {
      own, trace := Marked(own, disturbed, served), longer;
    }

    lemma InvariantNow()
      requires Valid()
      ensures Invariant(TheWorld())
    {
      RunKeepsInvariant(start, trace, versionOf);
    }

    /** Any number of events of others. Under the lock they can only replace the executable, and then the
        process is disturbed, or restart the service, and then it is served. */
    method OthersMove()
      requires Valid()
      modifies `exe, `previous, `restartedFrom, `lock, `feed, `others, `own, `trace
      ensures Valid() && old(trace) <= trace
      ensures own == Marked(old(own), own.disturbed, own.served)
      ensures own.Holding() ==> previous == old(previous) && (own.served || restartedFrom == old(restartedFrom))
      ensures own.Holding() && !own.disturbed ==> exe == old(exe)
      ensures !own.Holding() ==> own == old(own)
    {
      var n: int := *;
      while n > 0
        invariant Valid() && old(trace) <= trace
        invariant own == Marked(old(own), own.disturbed, own.served)
        invariant own.Holding() ==> previous == old(previous) && (own.served || restartedFrom == old(restartedFrom))
        invariant own.Holding() && !own.disturbed ==> exe == old(exe)
        invariant !own.Holding() ==> own == old(own)
        decreases n
      {
        var ev: Event := *;
        OtherEvent(ev);
        n := n - 1;
      }
    }

    method OtherEvent(ev: Event)
      requires Valid()
      modifies `exe, `previous, `restartedFrom, `lock, `feed, `others, `own, `trace
      ensures Valid() && old(trace) <= trace
      ensures own == Marked(old(own), own.disturbed, own.served)
      ensures own.Holding() ==> previous == old(previous) && (own.served || restartedFrom == old(restartedFrom))
      ensures own.Holding() && !own.disturbed ==> exe == old(exe)
      ensures !own.Holding() ==> own == old(own)
    {
      match ev {
        case Publish(version) => FeedMoves(version);
        case Spawn(q) => OtherStarts(q);
        case Act(q, a) => OtherActs(q, a);
        case Install(content) => Installed(content);
        case Serve => Served();
      }
    }

    method FeedMoves(version: string)
      requires Valid()
      modifies `feed, `own, `trace
      ensures Valid() && old(trace) <= trace && own == old(own)
    {
      if Tag(version).Some? && !TagBelow(version, feed) {
        ghost var longer := PublishEvent(start, trace, TheWorld(), others, pid, own, version, versionOf);
        feed := version;
        Happened(longer, false, false);
      }
    }

    method OtherStarts(q: nat)
      requires Valid()
      modifies `others, `own, `trace
      ensures Valid() && old(trace) <= trace && own == old(own)
    {
      if q != pid && q !in others {
        ghost var longer := SpawnEvent(start, trace, pid, own, others, q, versionOf, TheWorld());
        var exeNow := Disk(exe, previous, restartedFrom);
        others := others[q := Fresh(exeNow, versionOf)];
        Happened(longer, false, false);
      }
    }

    method OtherActs(q: nat, a: Action)
      requires Valid()
      modifies `exe, `previous, `restartedFrom, `lock, `others, `own, `trace
      ensures Valid() && old(trace) <= trace && own == old(own)
      ensures own.Holding() ==> TheDisk() == old(TheDisk())
    {
      if q == pid || q !in others {
        return;
      }
      var next := ProcStep(others[q], Disk(exe, previous, restartedFrom), lock.None?, feed, a, versionOf);
      if next.Some? {
        OtherMoves(q, a, next.value);
      }
    }

    method OtherMoves(q: nat, ghost a: Action, next: Local)
      requires Valid() && q in others && q != pid
      requires ProcStep(others[q], TheDisk(), lock.None?, feed, a, versionOf) == Some(next)
      modifies `exe, `previous, `restartedFrom, `lock, `others, `own, `trace
      ensures Valid() && old(trace) <= trace && own == old(own)
      ensures own.Holding() ==> TheDisk() == old(TheDisk())
    {
      ghost var longer := OtherActEvent(start, trace, TheWorld(), others, pid, own, q, a, next, versionOf);
      exe, previous, restartedFrom := next.disk.exe, next.disk.previous, next.disk.restartedFrom;
      lock := LockAfter(lock, q, next.proc);
      others := others[q := next.proc];
      Happened(longer, false, false);
    }

    method Installed(content: Bytes)
      requires Valid()
      modifies `exe, `others, `own, `trace
      ensures Valid() && old(trace) <= trace
      ensures own == Marked(old(own), old(own).Holding(), false)
    {
      ghost var longer := InstallEvent(start, trace, TheWorld(), others, pid, own, content, versionOf);
      exe := content;
      others := NoticedOthers(others, lock, pid, true, false);
      Happened(longer, own.Holding(), false);
    }

    method Served()
      requires Valid()
      modifies `restartedFrom, `others, `own, `trace
      ensures Valid() && old(trace) <= trace
      ensures own == Marked(old(own), false, old(own).Holding())
    {
      ghost var longer := ServeEvent(start, trace, TheWorld(), others, pid, own, versionOf);
      restartedFrom := Some(exe);
      others := NoticedOthers(others, lock, pid, false, true);
      Happened(longer, false, own.Holding());
    }

    /** A signal may end the context at any moment at which it is still asked. */
    method Pause()
      requires Valid() && Cancellable(own.pc)
      modifies `exe, `previous, `restartedFrom, `lock, `feed, `others, `cancelled, `own, `trace
      ensures Valid() && old(trace) <= trace
      ensures own == Marked(old(own), own.disturbed, own.served).(cancelled := cancelled)
      ensures !own.Holding() ==> own.disturbed == old(own).disturbed && own.served == old(own).served
      ensures old(cancelled) ==> cancelled
      ensures own.Holding() ==> previous == old(previous) && (own.served || restartedFrom == old(restartedFrom))
      ensures own.Holding() && !own.disturbed ==> exe == old(exe)
    {
      OthersMove();
      var signal: bool := *;
      if signal {
        ghost var before := TheWorld();
        cancelled := true;
        CancelStep(own, before.disk, before.lock.None?, feed, versionOf);
        MovedInPlace(before, pid, Local(own.(cancelled := true), before.disk));
        Took(Cancel, before, Local(own.(cancelled := true), before.disk));
      }
    }

    // ---------------------------------------------------------------- outcomes

    /** Runs systemctl; a command does not succeed once the context is done. */
    method RunCommand(command: Command) returns (ok: bool)
      modifies `calls
      ensures calls == old(calls) + [(command, ok)] && (cancelled ==> !ok)
    {
      ok := *;
      ok := ok && !cancelled;
      calls := calls + [(command, ok)];
    }

    /** One operation on local files, which may fail. */
    method Attempt() returns (ok: bool)
      modifies `attempts
      ensures attempts == old(attempts) + [ok] && attempts[|attempts| - 1] == ok
    {
      ok := *;
      attempts := attempts + [ok];
    }

    // -------------------------------------------------------------- the update

    /** The whole update. While it held the lock undisturbed, its return class fixed what is on the disk;
        after a signal it is a rejection or a failed rollback. The commands and the local operations
        explain every return, and only a candidate that a newer release vouches for replaces anything. */
    method Apply() returns (result: Return, ghost held: bool, ghost holder: Option<nat>, ghost ran: Log)
      requires Valid() && own.pc.Started?
      modifies `exe, `previous, `restartedFrom, `lock, `feed, `others, `cancelled, `own, `trace, `calls, `attempts,
               `evidence
      ensures Valid() && old(trace) <= trace && own.pc == Done(result)
      ensures calls == old(calls) + ran && old(attempts) < attempts
      ensures held <==> holder.None? && attempts[|old(attempts)|]
      ensures if held then Act(pid, Acquire) in trace else result == Rejected && ran == []
      ensures held && !own.disturbed ==> Outcome(own, TheDisk(), result)
      ensures held && own.cancelled ==> result in {Rejected, RollbackFailed}
      ensures held ==> Explained(result, ran, AllSince(attempts, |old(attempts)|), own.cancelled, own.candidate,
                                 evidence, current, versionOf)
    {
      result, ran := Rejected, [];
      var locked;
      locked, holder := Begin();
      held := locked;
      if locked {
        ghost var begun := attempts;
        result, ran := Update();
        AllSinceSplits(begun, attempts, |old(attempts)|);
      }
    }

    /** The attempt to take the lock. */
    method Begin() returns (ok: bool, ghost holder: Option<nat>)
      requires Valid() && own.pc.Started?
      modifies `exe, `previous, `restartedFrom, `lock, `feed, `others, `cancelled, `own, `trace, `attempts
      ensures Valid() && old(trace) <= trace
      ensures |attempts| == |old(attempts)| + 1 && old(attempts) < attempts
      ensures ok <==> holder.None? && attempts[|old(attempts)|]
      ensures if ok then own.pc == Locked && Act(pid, Acquire) in trace && AllSince(attempts, |old(attempts)|)
              else own.pc == Done(Rejected)
    {
      Pause();
      holder := lock;
      ok := AcquireLock();
    }

    /** What happens under the lock, and its release. */
    method Update() returns (result: Return, ghost ran: Log)
      requires Valid() && own.pc == Locked
      modifies `exe, `previous, `restartedFrom, `lock, `feed, `others, `cancelled, `own, `trace, `calls, `attempts,
               `evidence
      ensures Valid() && old(trace) <= trace && own.pc == Done(result)
      ensures !own.disturbed ==> Outcome(own, TheDisk(), result)
      ensures own.cancelled ==> result in {Rejected, RollbackFailed}
      ensures calls == old(calls) + ran && old(attempts) <= attempts
      ensures Explained(result, ran, AllSince(attempts, |old(attempts)|), own.cancelled, own.candidate,
                        evidence, current, versionOf)
    {
      result, ran := Transaction();
      Leave(result);
    }

    method Leave(result: Return)
      requires Valid() && own.pc == Leaving(result)
      modifies `lock, `own, `trace
      ensures Valid() && old(trace) <= trace && own == old(own).(pc := Done(result))
      ensures !own.disturbed ==> Outcome(own, TheDisk(), result)
      ensures own.cancelled ==> result in {Rejected, RollbackFailed}
    {
      LeavingOutcome(result);
      CloseLock(result);
    }

    lemma LeavingOutcome(result: Return)
      requires Valid() && own.pc == Leaving(result)
      ensures !own.disturbed ==> Outcome(own, TheDisk(), result)
      ensures own.cancelled ==> result in {Rejected, RollbackFailed}
    {
      InvariantNow();
      assert TheWorld().procs[pid] == own;
    }

    lemma StartedIsFresh()
      requires Valid() && own.pc.Started?
      ensures own.systemctlCalls == 0
    {
      InvariantNow();
      assert TheWorld().procs[pid] == own;
    }

    method AcquireLock() returns (ok: bool)
      requires Valid() && own.pc.Started?
      modifies `lock, `own, `trace, `attempts
      ensures |attempts| == |old(attempts)| + 1 && old(attempts) < attempts
      ensures ok <==> old(lock).None? && attempts[|old(attempts)|]
      ensures own.cancelled == old(own).cancelled
      ensures Valid() && old(trace) <= trace && own.systemctlCalls == 0
      ensures if ok then own == old(own).(pc := Locked, found := TheDisk()) && Act(pid, Acquire) in trace
              else own.pc == Done(Rejected)
    {
      StartedIsFresh();
      var available := Attempt();
      ok := lock.None? && available;
      ghost var before := TheWorld();
      if ok {
        lock := Some(pid);
      }
      LockStep(own, before.disk, before.lock.None?, feed, versionOf, ok);
      Took(if ok then Acquire else LockUnavailable, before,
           Local(if ok then own.(pc := Locked, found := before.disk) else own.(pc := Done(Rejected)), before.disk));
      assert trace[|trace| - 1] in trace;
    }

    method CloseLock(result: Return)
      requires Valid() && own.pc == Leaving(result)
      modifies `lock, `own, `trace
      ensures Valid() && old(trace) <= trace && own == old(own).(pc := Done(result))
      ensures Outcome(own, TheDisk(), result) <==> Outcome(old(own), TheDisk(), result)
    {
      OutcomeIgnoresPc(own, TheDisk(), result, Done(result));
      ghost var before := TheWorld();
      lock := None;
      CloseStep(own, before.disk, before.lock.None?, feed, versionOf);
      Took(Close, before, Local(own.(pc := Done(result)), before.disk));
    }

    /** Records a step of the lock holder that leaves the lock with it. */
    ghost method Advance(a: Action, before: World, next: Local)
      requires Run(start, trace, versionOf) == Some(before) && Invariant(start)
      requires before.procs == others[pid := own] && before.feed == feed && before.lock == lock == Some(pid)
      requires own.Holding() && next.proc.Holding() && own.current == current == next.proc.current
      requires ProcStep(own, before.disk, before.lock.None?, feed, a, versionOf) == Some(next)
      requires next.disk == TheDisk() && (Cancellable(next.proc.pc) ==> next.proc.cancelled == cancelled)
      modifies `own, `trace
      ensures Valid() && own == next.proc && trace == old(trace) + [Act(pid, a)]
    {
      MovedInPlace(before, pid, next);
      Took(a, before, next);
    }

    /** Everything between taking the lock and closing it. */
    method Transaction() returns (result: Return, ghost ran: Log)
      requires Valid() && own.pc == Locked
      modifies `exe, `previous, `restartedFrom, `lock, `feed, `others, `cancelled, `own, `trace, `calls, `attempts,
               `evidence
      ensures Valid() && old(trace) <= trace && own.pc == Leaving(result)
      ensures calls == old(calls) + ran && old(attempts) <= attempts
      ensures Explained(result, ran, AllSince(attempts, |old(attempts)|), own.cancelled, own.candidate,
                        evidence, current, versionOf)
    {
      var ok := Replace();
      if !ok {
        return Rejected, [];
      }
      ghost var replaced := attempts;
      result, ran := ActivateChosen();
      AllSinceSplits(replaced, attempts, |old(attempts)|);
    }

    /** Everything after the rename of a verified candidate. */
    method ActivateChosen() returns (result: Return, ghost ran: Log)
      requires Valid() && own.pc.Replaced? && Chosen(evidence, current, versionOf, own.candidate)
      modifies `exe, `previous, `restartedFrom, `lock, `feed, `others, `cancelled, `own, `trace, `calls, `attempts
      ensures Valid() && old(trace) <= trace && own.pc == Leaving(result)
      ensures calls == old(calls) + ran && old(attempts) <= attempts
      ensures Explained(result, ran, AllSince(attempts, |old(attempts)|), own.cancelled, own.candidate, evidence,
                        current, versionOf)
    {
      result, ran := Activate();
      ActivationExplained(result, ran, AllSince(attempts, |old(attempts)|), own.cancelled, own.candidate, evidence,
                          current, versionOf);
    }

    /** Everything up to the rename. */
    method Replace() returns (ok: bool)
      requires Valid() && own.pc == Locked
      modifies `exe, `previous, `restartedFrom, `lock, `feed, `others, `cancelled, `own, `trace, `attempts, `evidence
      ensures Valid() && old(trace) <= trace && own.pc == if ok then Replaced else Leaving(Rejected)
      ensures old(attempts) <= attempts
      ensures ok ==> Chosen(evidence, current, versionOf, own.candidate) && AllSince(attempts, |old(attempts)|)
      ensures !ok ==> Explained(Rejected, [], AllSince(attempts, |old(attempts)|), own.cancelled, own.candidate,
                                evidence, current, versionOf)
    {
      var candidate;
      ok, candidate := Prepare();
      if !ok {
        RejectionExplained(AllSince(attempts, |old(attempts)|), own.cancelled, own.candidate, evidence, current,
                           versionOf);
        return;
      }
      ok := Swap(candidate);
      if !ok {
        RejectionExplained(false, own.cancelled, own.candidate, evidence, current, versionOf);
      }
    }

    /** The backup and the rename. */
    method Swap(candidate: Bytes) returns (ok: bool)
      requires Valid() && own.pc.Ready? && own.candidate == candidate
      modifies `exe, `previous, `restartedFrom, `lock, `feed, `others, `cancelled, `own, `trace, `attempts
      ensures Valid() && old(trace) <= trace && own.candidate == candidate
      ensures own.pc == if ok then Replaced else Leaving(Rejected)
      ensures old(attempts) <= attempts && (ok <==> AllSince(attempts, |old(attempts)|))
    {
      ok := CopyFile();
      if !ok {
        return;
      }
      ghost var copied := attempts;
      ok := ReplaceBinary(candidate);
      AllSinceSplits(copied, attempts, |old(attempts)|);
    }

    /** Restart and health check; rolled back when they fail. */
    method Activate() returns (result: Return, ghost ran: Log)
      requires Valid() && own.pc.Replaced?
      modifies `exe, `previous, `restartedFrom, `lock, `feed, `others, `cancelled, `own, `trace, `calls, `attempts
      ensures Valid() && old(trace) <= trace && own.candidate == old(own).candidate
      ensures own.pc == Leaving(result) && result != Rejected
      ensures calls == old(calls) + ran && old(attempts) <= attempts
      ensures Answered(result, ran, AllSince(attempts, |old(attempts)|), own.cancelled)
    {
      var ok;
      ok, ran := RestartAndCheck();
      if ok {
        result := RemoveBackup();
        assert attempts[|old(attempts)|] == (result == Updated);
        return;
      }
      ghost var last;
      result, last := RollBackAfter(ran);
      Appended(old(calls), ran, last);
      ran := ran + last;
    }

    /** The rollback after commands that showed the candidate unhealthy. */
    method RollBackAfter(ghost first: Log) returns (result: Return, ghost ran: Log)
      requires Valid() && own.pc.Failing? && Unhealthy(first, own.cancelled)
      modifies `exe, `previous, `restartedFrom, `lock, `feed, `others, `cancelled, `own, `trace, `calls, `attempts
      ensures Valid() && old(trace) <= trace && own.candidate == old(own).candidate
      ensures own.pc == Leaving(result) && result != Rejected
      ensures calls == old(calls) + ran && old(attempts) <= attempts
      ensures Answered(result, first + ran, AllSince(attempts, |old(attempts)|), own.cancelled)
    {
      result, ran := Rollback();
      RollbackAnswers(result, first, ran, AllSince(attempts, |old(attempts)|), own.cancelled);
    }

    /** Release metadata, version comparison, and the candidate that the release vouches for. */
    method Prepare() returns (ok: bool, candidate: Bytes)
      requires Valid() && own.pc == Locked
      modifies `exe, `previous, `restartedFrom, `lock, `feed, `others, `cancelled, `own, `trace, `evidence
      ensures Valid() && old(trace) <= trace
      ensures if ok then own.pc.Ready? && own.candidate == candidate && Chosen(evidence, current, versionOf, candidate)
              else own.pc == Leaving(Rejected) && (own.cancelled || !Available(evidence, current))
    {
      candidate := [];
      var answer;
      ok, answer := FetchRelease();
      if ok {
        ok, candidate := PrepareFrom(evidence.release.value);
      }
    }

    method PrepareFrom(release: Artifact.Release) returns (ok: bool, candidate: Bytes)
      requires Valid() && own.pc == Fetched(release.version)
      requires Announced(evidence, current) && evidence.release == Some(release)
      modifies `exe, `previous, `restartedFrom, `lock, `feed, `others, `cancelled, `own, `trace, `evidence
      ensures Valid() && old(trace) <= trace
      ensures if ok then own.pc.Ready? && own.candidate == candidate && Chosen(evidence, current, versionOf, candidate)
              else own.pc == Leaving(Rejected) && (own.cancelled || !Available(evidence, current))
    {
      Pause();
      ok, candidate := ObtainCandidate(release);
      if !ok || cancelled {
        GiveUp();
        return false, candidate;
      }
      Accept(candidate, release.version);
    }

    method Accept(candidate: Bytes, version: string)
      requires Valid() && own.pc == Fetched(version) && !own.cancelled && versionOf(candidate) == version
      modifies `own, `trace
      ensures Valid() && old(trace) <= trace && own.pc == Ready(version) && own.candidate == candidate
    {
      ObtainStep(own, TheDisk(), lock.None?, feed, versionOf, candidate);
      Advance(Obtain(candidate), TheWorld(), Local(own.(pc := Ready(version), candidate := candidate), TheDisk()));
    }

    /** Download, checksum, extraction and version command in a fresh directory, whatever network and
        system answer; a binary that prints a version prints its own. */
    method ObtainCandidate(release: Artifact.Release) returns (ok: bool, candidate: Bytes)
      modifies `evidence
      ensures evidence == old(evidence).(outside := evidence.outside, local := evidence.local)
      ensures forall b | evidence.outside.version(b).Some? ::
                TrimSpace(evidence.outside.version(b).value) == versionOf(b)
      ensures ok <==> evidence.local && exists c :: Artifact.Genuine(release, evidence.outside, c)
      ensures ok ==> Artifact.Genuine(release, evidence.outside, candidate) && versionOf(candidate) == release.version
    {
      var outside: Artifact.Answers := *;
      outside := outside.(version := Printed(outside.version, versionOf));
      var directory := new Artifact.WorkDirectory();
      ok := directory.ObtainCandidate(release, outside);
      candidate := if ok then directory.candidate.value else [];
      evidence := evidence.(outside := outside, local := false !in directory.attempts);
    }

    method GiveUp()
      requires Valid() && (own.pc.Locked? || own.pc.Fetched? || own.pc.Ready?)
      modifies `own, `trace
      ensures Valid() && old(trace) <= trace && own == old(own).(pc := Leaving(Rejected))
    {
      AbortStep(own, TheDisk(), lock.None?, feed, versionOf);
      Advance(Abort, TheWorld(), Local(own.(pc := Leaving(Rejected)), TheDisk()));
    }

    /** A release is taken from the answer exactly when the request succeeds and shows a stable one. */
    method FetchRelease() returns (ok: bool, answer: Option<Artifact.Answer>)
      requires Valid() && own.pc == Locked
      modifies `exe, `previous, `restartedFrom, `lock, `feed, `others, `cancelled, `own, `trace, `evidence
      ensures Valid() && old(trace) <= trace
      ensures evidence.release.Some?
         <==> && answer.Some? && answer.value.status == 200 && answer.value.feed.Some?
              && !answer.value.feed.value.draft && !answer.value.feed.value.prerelease
              && FindStable(answer.value.feed.value.tag).Some?
      ensures evidence.release.Some? ==> Artifact.Shows(answer.value.feed.value, evidence.release.value)
      ensures if ok then Announced(evidence, current) && own.pc == Fetched(evidence.release.value.version)
              else own.pc == Leaving(Rejected) && (own.cancelled || !Announced(evidence, current))
    {
      Pause();
      answer := AskFeed();
      var latest := Artifact.FetchLatest(answer);
      evidence := evidence.(release := latest);
      if latest.None? || cancelled {
        GiveUp();
        return false, answer;
      }
      ok := IsNewer(current, latest.value.version);
      EndFetch(latest.value.version, ok);
    }

    method EndFetch(version: string, ok: bool)
      requires Valid() && own.pc == Locked && !own.cancelled && version == feed && (ok <==> Newer(current, feed))
      modifies `own, `trace
      ensures Valid() && old(trace) <= trace && own.pc == if ok then Fetched(version) else Leaving(Rejected)
      ensures own.cancelled == old(own).cancelled
    {
      FetchStep(own, TheDisk(), lock.None?, feed, versionOf);
      Advance(Fetch, TheWorld(), Local(own.(pc := if ok then Fetched(version) else Leaving(Rejected)), TheDisk()));
    }

    /** The feed may fail to answer, or show its release with any assets. */
    method AskFeed() returns (answer: Option<Artifact.Answer>)
      ensures answer.Some? && answer.value.feed.Some? ==> answer.value.feed.value.tag == feed
    {
      answer := *;
      if answer.Some? && answer.value.feed.Some? {
        var shown := answer.value.feed.value.(tag := feed);
        answer := Some(answer.value.(feed := Some(shown)));
      }
    }

    ghost predicate SameUpdate(before: Proc)
      reads `own
    {
      own.found == before.found && own.candidate == before.candidate
    }

    /** copyFile: open, truncate, write piecewise, sync and close; any of it may fail. */
    method CopyFile() returns (ok: bool)
      requires Valid() && own.pc.Ready?
      modifies `exe, `previous, `restartedFrom, `lock, `feed, `others, `cancelled, `own, `trace, `attempts
      ensures Valid() && old(trace) <= trace && SameUpdate(old(own))
      ensures if ok then own.pc.BackedUp? && previous == Some(own.source) else own.pc == Leaving(Rejected)
      ensures old(attempts) <= attempts && (ok <==> AllSince(attempts, |old(attempts)|))
    {
      var source;
      ok, source := CreateBackup();
      if !ok {
        return;
      }
      ghost var created := attempts;
      ok := FillBackup(source);
      ghost var filled := attempts;
      ok := SyncBackup(ok);
      AllSinceSplits(filled, attempts, |created|);
      AllSinceSplits(created, attempts, |old(attempts)|);
    }

    /** Sync and close, unless a write has failed. */
    method SyncBackup(written: bool) returns (ok: bool)
      requires Valid() && own.pc.Copying? && (written ==> previous == Some(own.source))
      modifies `exe, `previous, `restartedFrom, `lock, `feed, `others, `cancelled, `own, `trace, `attempts
      ensures Valid() && old(trace) <= trace && SameUpdate(old(own))
      ensures if ok then own.pc.BackedUp? && previous == Some(own.source) else own.pc == Leaving(Rejected)
      ensures old(attempts) <= attempts && (ok <==> written && AllSince(attempts, |old(attempts)|))
    {
      Pause();
      ok := written;
      if ok {
        ok := Attempt();
      }
      EndBackup(ok);
    }

    /** Writes in pieces until all is written or a write fails. */
    method FillBackup(source: Bytes) returns (ok: bool)
      requires Valid() && own.pc.Copying? && own.source == source && previous == Some([])
      modifies `exe, `previous, `restartedFrom, `lock, `feed, `others, `cancelled, `own, `trace, `attempts
      ensures Valid() && old(trace) <= trace && SameUpdate(old(own)) && own.pc.Copying? && own.source == source
      ensures ok ==> previous == Some(source)
      ensures old(attempts) <= attempts && (ok <==> AllSince(attempts, |old(attempts)|))
    {
      var written: nat := 0;
      assert source[..written] == [];
      while written < |source|
        invariant Valid() && own.pc.Copying? && own.source == source && written <= |source|
        invariant previous == Some(source[..written])
        invariant old(trace) <= trace && SameUpdate(old(own))
        invariant old(attempts) <= attempts && AllSince(attempts, |old(attempts)|)
        decreases |source| - written
      {
        Pause();
        ok := Attempt();
        if !ok {
          return;
        }
        var n: int := *;
        written := if 0 < n <= |source| - written then written + n else |source|;
        WriteBackup(source, written);
      }
      assert source[..written] == source;
      ok := true;
    }

    method CreateBackup() returns (ok: bool, source: Bytes)
      requires Valid() && own.pc.Ready?
      modifies `exe, `previous, `restartedFrom, `lock, `feed, `others, `cancelled, `own, `trace, `attempts
      ensures Valid() && old(trace) <= trace && SameUpdate(old(own))
      ensures if ok then own.pc.Copying? && own.source == source && previous == Some([])
              else own.pc == Leaving(Rejected)
      ensures old(attempts) <= attempts && (ok <==> AllSince(attempts, |old(attempts)|))
    {
      Pause();
      source := exe;
      ok := Attempt();
      if !ok {
        GiveUp();
        return;
      }
      EndOpen(source);
    }

    method EndOpen(source: Bytes)
      requires Valid() && own.pc.Ready? && exe == source
      modifies `previous, `own, `trace
      ensures Valid() && old(trace) <= trace && SameUpdate(old(own)) && own.pc.Copying? && own.source == source
      ensures previous == Some([])
    {
      ghost var before := TheWorld();
      OpenStep(own, before.disk, lock.None?, feed, versionOf);
      previous := Some([]);
      Advance(OpenBackup, before, Local(own.(pc := Copying(own.pc.version), source := source), TheDisk()));
    }

    method WriteBackup(source: Bytes, written: nat)
      requires Valid() && own.pc.Copying? && own.source == source && written <= |source|
      modifies `previous, `own, `trace
      ensures Valid() && old(trace) <= trace && own == old(own) && previous == Some(source[..written])
    {
      ghost var before := TheWorld();
      CopyStep(own, before.disk, lock.None?, feed, versionOf, written);
      previous := Some(source[..written]);
      Advance(CopySome(written), before, Local(own, TheDisk()));
    }

    method EndBackup(ok: bool)
      requires Valid() && own.pc.Copying? && (ok ==> previous == Some(own.source))
      modifies `own, `trace
      ensures Valid() && old(trace) <= trace && SameUpdate(old(own)) && own.source == old(own).source
      ensures if ok then own.pc.BackedUp? else own.pc == Leaving(Rejected)
    {
      CopyEndStep(own, TheDisk(), lock.None?, feed, versionOf, ok);
      Advance(if ok then CopyEnds else CopyFails, TheWorld(),
              Local(own.(pc := if ok then BackedUp(own.pc.version) else Leaving(Rejected)), TheDisk()));
    }

    method ReplaceBinary(candidate: Bytes) returns (ok: bool)
      requires Valid() && own.pc.BackedUp? && own.candidate == candidate
      modifies `exe, `previous, `restartedFrom, `lock, `feed, `others, `cancelled, `own, `trace, `attempts
      ensures Valid() && old(trace) <= trace && SameUpdate(old(own))
      ensures own.pc == if ok then Replaced else Leaving(Rejected)
      ensures ok ==> exe == candidate
      ensures old(attempts) <= attempts && (ok <==> AllSince(attempts, |old(attempts)|))
    {
      Pause();
      ok := Attempt();
      if ok {
        EndRename(candidate);
      } else {
        var removed := Attempt();
        assert !attempts[|old(attempts)|];
        EndFailedRename(removed);
      }
    }

    method EndRename(candidate: Bytes)
      requires Valid() && own.pc.BackedUp? && own.candidate == candidate
      modifies `exe, `own, `trace
      ensures Valid() && old(trace) <= trace && SameUpdate(old(own)) && own.pc == Replaced && exe == candidate
    {
      ghost var before := TheWorld();
      RenameStep(own, before.disk, lock.None?, feed, versionOf);
      exe := candidate;
      Advance(Rename, before, Local(own.(pc := Replaced), TheDisk()));
    }

    method EndFailedRename(removed: bool)
      requires Valid() && own.pc.BackedUp?
      modifies `previous, `own, `trace
      ensures Valid() && old(trace) <= trace && SameUpdate(old(own)) && own.pc == Leaving(Rejected)
      ensures previous == if removed then None else old(previous)
    {
      ghost var before := TheWorld();
      RenameFailsStep(own, before.disk, lock.None?, feed, versionOf, removed);
      previous := if removed then None else previous;
      Advance(RenameFails(removed), before, Local(own.(pc := Leaving(Rejected)), TheDisk()));
    }

    method RestartAndCheck() returns (ok: bool, ghost ran: Log)
      requires Valid() && own.pc.Replaced?
      modifies `exe, `previous, `restartedFrom, `lock, `feed, `others, `cancelled, `own, `trace, `calls
      ensures Valid() && old(trace) <= trace && SameUpdate(old(own))
      ensures own.pc == if ok then Healthy else Failing
      ensures ok ==> !own.cancelled
      ensures calls == old(calls) + ran && if ok then ran == Accepted() else Unhealthy(ran, own.cancelled)
    {
      ok := RestartCandidate();
      ran := [(Restart, ok)];
      if !ok {
        return;
      }
      ghost var asked;
      ok, asked := CheckActive();
      Appended(old(calls), ran, asked);
      ran := ran + asked;
    }

    method RestartCandidate() returns (ok: bool)
      requires Valid() && own.pc.Replaced?
      modifies `exe, `previous, `restartedFrom, `lock, `feed, `others, `cancelled, `own, `trace, `calls
      ensures Valid() && old(trace) <= trace && SameUpdate(old(own))
      ensures own.pc == if ok then Restarted else Failing
      ensures ok ==> !own.cancelled && restartedFrom == Some(exe)
      ensures calls == old(calls) + [(Restart, ok)]
    {
      Pause();
      ok := RunCommand(Restart);
      EndRestart(ok);
    }

    method EndRestart(ok: bool)
      requires Valid() && own.pc.Replaced? && (ok ==> !cancelled)
      modifies `restartedFrom, `own, `trace
      ensures Valid() && old(trace) <= trace && SameUpdate(old(own)) && own.cancelled == old(own).cancelled
      ensures own.pc == if ok then Restarted else Failing
      ensures restartedFrom == if ok then Some(exe) else old(restartedFrom)
    {
      ghost var before := TheWorld();
      ghost var pc := if ok then Restarted else Failing;
      RestartStep(own, before.disk, lock.None?, feed, versionOf, ok);
      if ok {
        restartedFrom := Some(exe);
      }
      Advance(RestartNew(ok), before, Local(own.(pc := pc, systemctlCalls := own.systemctlCalls + 1), TheDisk()));
    }

    /** The delay, which the context may cut short, and the health command, which it may refuse. */
    method CheckActive() returns (ok: bool, ghost asked: Log)
      requires Valid() && own.pc.Restarted?
      modifies `exe, `previous, `restartedFrom, `lock, `feed, `others, `cancelled, `own, `trace, `calls
      ensures Valid() && old(trace) <= trace && SameUpdate(old(own))
      ensures own.pc == if ok then Healthy else Failing
      ensures ok ==> !own.cancelled
      ensures calls == old(calls) + asked
      ensures asked == [(IsActive, ok)] || (asked == [] && !ok && own.cancelled)
    {
      Pause();
      var timer: bool := *;
      if cancelled && !timer {
        AbortDelay();
        return false, [];
      }
      ok := RunCommand(IsActive);
      asked := [(IsActive, ok)];
      EndCheck(ok);
    }

    method AbortDelay()
      requires Valid() && own.pc.Restarted? && cancelled
      modifies `own, `trace
      ensures Valid() && old(trace) <= trace && own == old(own).(pc := Failing)
    {
      AbortedDelayStep(own, TheDisk(), lock.None?, feed, versionOf);
      Advance(DelayAborted, TheWorld(), Local(own.(pc := Failing), TheDisk()));
    }

    method EndCheck(ok: bool)
      requires Valid() && own.pc.Restarted? && (ok ==> !cancelled)
      modifies `own, `trace
      ensures Valid() && old(trace) <= trace && SameUpdate(old(own)) && own.cancelled == old(own).cancelled
      ensures own.pc == if ok then Healthy else Failing
    {
      ghost var pc := if ok then Healthy else Failing;
      CheckStep(own, TheDisk(), lock.None?, feed, versionOf, ok);
      Advance(CheckHealth(ok), TheWorld(),
              Local(own.(pc := pc, systemctlCalls := own.systemctlCalls + 1), TheDisk()));
    }

    /** Rolled back only in a context that is not done: the restart goes through the same context. */
    method Rollback() returns (result: Return, ghost ran: Log)
      requires Valid() && own.pc.Failing?
      modifies `exe, `previous, `restartedFrom, `lock, `feed, `others, `cancelled, `own, `trace, `calls, `attempts
      ensures Valid() && old(trace) <= trace && SameUpdate(old(own))
      ensures own.pc == Leaving(result) && (result == RolledBack || result == RollbackFailed)
      ensures old(cancelled) || own.cancelled ==> result == RollbackFailed
      ensures old(own).cancelled ==> own.cancelled
      ensures calls == old(calls) + ran && old(attempts) <= attempts
      ensures if AllSince(attempts, |old(attempts)|) then ran == [(Restart, result == RolledBack)]
              else ran == [] && result == RollbackFailed
      ensures result == RolledBack ==> previous == None && restartedFrom == Some(exe)
      ensures result == RolledBack && !own.disturbed ==> Some(exe) == old(previous)
    {
      var ok := RestorePrevious();
      assert attempts[|old(attempts)|] == ok;
      if !ok {
        return RollbackFailed, [];
      }
      result := RestartPrevious();
      ran := [(Restart, result == RolledBack)];
    }

    method RestorePrevious() returns (ok: bool)
      requires Valid() && own.pc.Failing?
      modifies `exe, `previous, `restartedFrom, `lock, `feed, `others, `cancelled, `own, `trace, `attempts
      ensures attempts == old(attempts) + [ok]
      ensures Valid() && old(trace) <= trace && SameUpdate(old(own)) && (old(cancelled) ==> own.cancelled)
      ensures own.pc == if ok then Restored else Leaving(RollbackFailed)
      ensures ok ==> Some(exe) == old(previous) && previous == None
    {
      Pause();
      BackupIsThere();
      ok := Attempt();
      EndRestore(ok);
    }

    lemma BackupIsThere()
      requires Valid() && own.pc.Failing?
      ensures previous.Some?
    {
      InvariantNow();
      assert TheWorld().procs[pid] == own && KeepsBackup(own, TheDisk());
    }

    method EndRestore(ok: bool)
      requires Valid() && own.pc.Failing? && (ok ==> previous.Some?)
      modifies `exe, `previous, `own, `trace
      ensures Valid() && old(trace) <= trace && SameUpdate(old(own)) && own.cancelled == old(own).cancelled
      ensures own.pc == if ok then Restored else Leaving(RollbackFailed)
      ensures if ok then Some(exe) == old(previous) && previous == None
              else exe == old(exe) && previous == old(previous)
    {
      ghost var before := TheWorld();
      RestoreStep(own, before.disk, lock.None?, feed, versionOf, ok);
      if ok {
        exe, previous := previous.value, None;
      }
      Advance(RestoreOld(ok), before, Local(own.(pc := if ok then Restored else Leaving(RollbackFailed)), TheDisk()));
    }

    method RestartPrevious() returns (result: Return)
      requires Valid() && own.pc.Restored?
      modifies `exe, `previous, `restartedFrom, `lock, `feed, `others, `cancelled, `own, `trace, `calls
      ensures Valid() && old(trace) <= trace && SameUpdate(old(own))
      ensures own.pc == Leaving(result) && (result == RolledBack || result == RollbackFailed)
      ensures old(cancelled) || own.cancelled ==> result == RollbackFailed
      ensures previous == old(previous) && (result == RolledBack ==> restartedFrom == Some(exe))
      ensures !own.disturbed ==> exe == old(exe)
      ensures calls == old(calls) + [(Restart, result == RolledBack)] && (old(own).cancelled ==> own.cancelled)
    {
      Pause();
      var ok := RunCommand(Restart);
      EndRestartOld(ok);
      return if ok then RolledBack else RollbackFailed;
    }

    method EndRestartOld(ok: bool)
      requires Valid() && own.pc.Restored? && (ok ==> !cancelled)
      modifies `restartedFrom, `own, `trace
      ensures Valid() && old(trace) <= trace && SameUpdate(old(own)) && own.cancelled == old(own).cancelled
      ensures own.disturbed == old(own).disturbed
      ensures own.pc == Leaving(if ok then RolledBack else RollbackFailed)
      ensures restartedFrom == if ok then Some(exe) else old(restartedFrom)
    {
      ghost var before := TheWorld();
      ghost var pc := Leaving(if ok then RolledBack else RollbackFailed);
      RestartOldStep(own, before.disk, lock.None?, feed, versionOf, ok);
      if ok {
        restartedFrom := Some(exe);
      }
      Advance(RestartOld(ok), before, Local(own.(pc := pc, systemctlCalls := own.systemctlCalls + 1), TheDisk()));
    }

    method RemoveBackup() returns (result: Return)
      requires Valid() && own.pc.Healthy?
      modifies `exe, `previous, `restartedFrom, `lock, `feed, `others, `own, `trace, `attempts
      ensures Valid() && old(trace) <= trace && SameUpdate(old(own))
      ensures own.pc == Leaving(result) && (result == Updated || result == BackupLeft)
      ensures result == Updated ==> previous == None
      ensures attempts == old(attempts) + [result == Updated] && own.cancelled == old(own).cancelled
    {
      OthersMove();
      var ok := Attempt();
      ghost var before := TheWorld();
      RemoveStep(own, before.disk, lock.None?, feed, versionOf, ok);
      previous := if ok then None else previous;
      result := if ok then Updated else BackupLeft;
      Advance(Action.RemoveBackup(ok), before, Local(own.(pc := Leaving(result)), TheDisk()));
    }
  }

  /** The version command of a binary fails, or prints the binary's version between white space. */
  function Printed(output: Bytes -> Option<string>, versionOf: Bytes -> string): Bytes -> Option<string>
  {
    b => if output(b).Some? && TrimSpace(output(b).value) == versionOf(b) then output(b) else None
  }

  /** Commands, local operations, context and evidence explain the return: nothing is replaced without a
      verified candidate, and nothing is rejected without a reason. */
  ghost predicate Explained(result: Return, calls: Log, clean: bool, cancelled: bool, candidate: Bytes, e: Evidence,
                            current: string, versionOf: Bytes -> string)
  {
    && Answered(result, calls, clean, cancelled)
    && if result == Rejected then cancelled || !clean || !Available(e, current)
       else Chosen(e, current, versionOf, candidate)
  }

  lemma RejectionExplained(clean: bool, cancelled: bool, candidate: Bytes, e: Evidence, current: string,
                           versionOf: Bytes -> string)
    requires cancelled || !clean || !Available(e, current)
    ensures Explained(Rejected, [], clean, cancelled, candidate, e, current, versionOf)
  {}

  lemma ActivationExplained(result: Return, calls: Log, clean: bool, cancelled: bool, candidate: Bytes, e: Evidence,
                            current: string, versionOf: Bytes -> string)
    requires result != Rejected && Answered(result, calls, clean, cancelled)
    requires Chosen(e, current, versionOf, candidate)
    ensures Explained(result, calls, clean, cancelled, candidate, e, current, versionOf)
  {}

  lemma Appended(before: Log, a: Log, b: Log)
    ensures before + a + b == before + (a + b)
  {}

  lemma RollbackAnswers(result: Return, first: Log, last: Log, clean: bool, cancelled: bool)
    requires Unhealthy(first, cancelled) && result in {RolledBack, RollbackFailed}
    requires if clean then last == [(Restart, result == RolledBack)] else last == [] && result == RollbackFailed
    ensures Answered(result, first + last, clean, cancelled)
  {}

  lemma OutcomeIgnoresPc(p: Proc, disk: Disk, r: Return, pc: Pc)
    ensures Outcome(p.(pc := pc), disk, r) <==> Outcome(p, disk, r)
  {}

  lemma MovedInPlace(w: World, pid: nat, next: Local)
    requires next.proc.Holding() <==> w.lock == Some(pid)
    ensures Moved(w, pid, next) == World(next.disk, w.lock, w.feed, w.procs[pid := next.proc])
  {}

  lemma OtherActEvent(start: World, trace: seq<Event>, w: World, others: map<nat, Proc>, pid: nat, own: Proc,
                      q: nat, a: Action, next: Local, versionOf: Bytes -> string) returns (longer: seq<Event>)
    requires Invariant(start) && Run(start, trace, versionOf) == Some(w)
    requires w.procs == others[pid := own] && q in others && q != pid
    requires ProcStep(others[q], w.disk, w.lock.None?, w.feed, a, versionOf) == Some(next)
    ensures trace <= longer && longer[|trace|..] == [Act(q, a)]
    ensures var after := LockAfter(w.lock, q, next.proc);
            && Run(start, longer, versionOf)
                 == Some(World(next.disk, after, w.feed, others[q := next.proc][pid := Marked(own, false, false)]))
            && (own.Holding() ==> next.disk == w.disk) && (own.Holding() <==> after == Some(pid))
  {
    assert w.procs[q] == others[q] && w.procs[pid] == own;
    RunKeepsInvariant(start, trace, versionOf);
    OtherStepEffect(w, pid, q, a, versionOf);
    UpdatesCommute(others, pid, own, q, next.proc);
    EventIsRecorded(start, trace, Act(q, a), versionOf);
    longer := trace + [Act(q, a)];
  }

  function NoticedOthers(others: map<nat, Proc>, lock: Option<nat>, pid: nat, disturbed: bool, served: bool)
    : map<nat, Proc>
  {
    if lock == Some(pid) then others else Noticed(others, lock, disturbed, served)
  }

  lemma NoticedApart(others: map<nat, Proc>, lock: Option<nat>, pid: nat, own: Proc, disturbed: bool, served: bool)
    ensures var mine := if lock == Some(pid) then Marked(own, disturbed, served) else own;
            Noticed(others[pid := own], lock, disturbed, served)
              == NoticedOthers(others, lock, pid, disturbed, served)[pid := mine]
  {}

  lemma PublishEvent(start: World, trace: seq<Event>, w: World, others: map<nat, Proc>, pid: nat, own: Proc,
                     version: string, versionOf: Bytes -> string) returns (longer: seq<Event>)
    requires Run(start, trace, versionOf) == Some(w) && w.procs == others[pid := own]
    requires Tag(version).Some? && !TagBelow(version, w.feed)
    ensures trace <= longer && longer[|trace|..] == [Publish(version)]
    ensures Run(start, longer, versionOf)
         == Some(World(w.disk, w.lock, version, others[pid := Marked(own, false, false)]))
  {
    EventIsRecorded(start, trace, Publish(version), versionOf);
    longer := trace + [Publish(version)];
  }

  lemma InstallEvent(start: World, trace: seq<Event>, w: World, others: map<nat, Proc>, pid: nat, own: Proc,
                     content: Bytes, versionOf: Bytes -> string) returns (longer: seq<Event>)
    requires Run(start, trace, versionOf) == Some(w) && w.procs == others[pid := own]
    requires own.Holding() <==> w.lock == Some(pid)
    ensures trace <= longer && longer[|trace|..] == [Install(content)]
    ensures Run(start, longer, versionOf)
         == Some(World(w.disk.(exe := content), w.lock, w.feed,
                       NoticedOthers(others, w.lock, pid, true, false)[pid := Marked(own, own.Holding(), false)]))
  {
    NoticedApart(others, w.lock, pid, own, true, false);
    EventIsRecorded(start, trace, Install(content), versionOf);
    longer := trace + [Install(content)];
  }

  lemma ServeEvent(start: World, trace: seq<Event>, w: World, others: map<nat, Proc>, pid: nat, own: Proc,
                   versionOf: Bytes -> string) returns (longer: seq<Event>)
    requires Run(start, trace, versionOf) == Some(w) && w.procs == others[pid := own]
    requires own.Holding() <==> w.lock == Some(pid)
    ensures trace <= longer && longer[|trace|..] == [Serve]
    ensures Run(start, longer, versionOf)
         == Some(World(w.disk.(restartedFrom := Some(w.disk.exe)), w.lock, w.feed,
                       NoticedOthers(others, w.lock, pid, false, true)[pid := Marked(own, false, own.Holding())]))
  {
    NoticedApart(others, w.lock, pid, own, false, true);
    EventIsRecorded(start, trace, Serve, versionOf);
    longer := trace + [Serve];
  }

  lemma LockHolderExists(start: World, trace: seq<Event>, w: World, q: nat, versionOf: Bytes -> string)
    requires Invariant(start) && Run(start, trace, versionOf) == Some(w) && q !in w.procs
    ensures w.lock != Some(q)
  {
    RunKeepsInvariant(start, trace, versionOf);
  }

  lemma SpawnStep(w: World, q: nat, versionOf: Bytes -> string)
    requires q !in w.procs && w.lock != Some(q)
    ensures Step(w, Spawn(q), versionOf) == Some(w.(procs := w.procs[q := Fresh(w.disk, versionOf)]))
  {}

  lemma UpdatesCommute(others: map<nat, Proc>, p: nat, own: Proc, q: nat, other: Proc)
    requires p != q
    ensures others[p := own][q := other] == others[q := other][p := own]
  {}

  lemma SpawnEvent(start: World, trace: seq<Event>, pid: nat, own: Proc, others: map<nat, Proc>, q: nat,
                   versionOf: Bytes -> string, w: World) returns (longer: seq<Event>)
    requires Invariant(start) && Run(start, trace, versionOf) == Some(w)
    requires w.procs == others[pid := own] && q !in others && q != pid
    ensures trace <= longer && longer[|trace|..] == [Spawn(q)]
    ensures Run(start, longer, versionOf)
         == Some(World(w.disk, w.lock, w.feed,
                       others[q := Fresh(w.disk, versionOf)][pid := Marked(own, false, false)]))
  {
    LockHolderExists(start, trace, w, q, versionOf);
    SpawnStep(w, q, versionOf);
    EventIsRecorded(start, trace, Spawn(q), versionOf);
    UpdatesCommute(others, pid, own, q, Fresh(w.disk, versionOf));
    longer := trace + [Spawn(q)];
  }

  /** Stopping after any number of events leaves a world in which the invariant holds. */
  lemma {:induction false} EveryPrefixIsSound(start: World, trace: seq<Event>, n: nat, versionOf: Bytes -> string)
    requires Invariant(start) && n <= |trace| && Run(start, trace, versionOf).Some?
    ensures Run(start, trace[..n], versionOf).Some? && Invariant(Run(start, trace[..n], versionOf).value)
    decreases |trace|
  {
    if n == |trace| {
      assert trace[..n] == trace;
      RunKeepsInvariant(start, trace, versionOf);
    } else {
      var front := trace[..|trace| - 1];
      EveryPrefixIsSound(start, front, n, versionOf);
      assert front[..n] == trace[..n];
    }
  }
}
