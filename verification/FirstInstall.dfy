/** Any number of concurrent first installations, and any program that creates the configuration
    meanwhile: the first one to link wins and nothing is ever overwritten. */
module FirstInstall {
  import opened Text

  datatype Pc =
    | Begin
    | FirstChecked          // the configuration did not exist
    | Staging               // install is writing the staged copy
    | Staged                // the staged copy is complete
    | SecondChecked         // it still did not exist
    | Committed             // ln succeeded
    | Ended

  datatype Proc = Proc(candidate: Bytes, pc: Pc, staged: Option<Bytes>, committed: bool)

  datatype World = World(config: Option<Bytes>, procs: map<nat, Proc>)

  datatype Action =
    | Check                        // first or second existence test
    | WriteSome(part: Bytes)
    | WriteEnds
    | Link(ok: bool)
    | RemoveStaged                 // after the commit or after a refusal
    | Stop                         // a command fails or a signal arrives

  datatype Event =
    | CreateConfig(content: Bytes) // another program, only when the path is free
    | Spawn(pid: nat, candidate: Bytes)
    | Act(pid: nat, action: Action)

  datatype Local = Local(proc: Proc, config: Option<Bytes>)

  function ProcStep(p: Proc, config: Option<Bytes>, a: Action): Option<Local>
  {
    match (a, p.pc)
    case (Check, Begin) => Some(Local(p.(pc := if config.None? then FirstChecked else Ended), config))
    case (WriteSome(part), FirstChecked) => Some(Local(p.(pc := Staging, staged := Some(part)), config))
    case (WriteSome(part), Staging) => Some(Local(p.(staged := Some(part)), config))
    case (WriteEnds, Staging) =>
      if p.staged == Some(p.candidate) then Some(Local(p.(pc := Staged), config)) else None
    case (Check, Staged) => Some(Local(p.(pc := if config.None? then SecondChecked else Ended), config))
    case (Link(ok), SecondChecked) =>
      // ln refuses an existing target, and may fail for other reasons
      if ok && config.None? then Some(Local(p.(pc := Committed, committed := true), p.staged))
      else Some(Local(p.(pc := Ended), config))
    case (RemoveStaged, Committed) => Some(Local(p.(pc := Ended, staged := None), config))
    case (RemoveStaged, Ended) => Some(Local(p.(staged := None), config))
    case (Stop, _) => Some(Local(p.(pc := Ended), config))
    case _ => None
  }

  function Step(w: World, ev: Event): Option<World>
  {
    match ev
    case CreateConfig(content) => if w.config.None? then Some(w.(config := Some(content))) else None
    case Spawn(pid, candidate) =>
      if pid in w.procs then None else Some(w.(procs := w.procs[pid := Proc(candidate, Begin, None, false)]))
    case Act(pid, a) =>
      if pid !in w.procs then None
      else
        var next := ProcStep(w.procs[pid], w.config, a);
        if next.None? then None else Some(World(next.value.config, w.procs[pid := next.value.proc]))
  }

  function Run(w: World, trace: seq<Event>): Option<World>
    decreases |trace|
  {
    if trace == [] then Some(w)
    else
      var next := Step(w, trace[0]);
      if next.None? then None else Run(next.value, trace[1..])
  }

  lemma {:induction false} RunNext(w: World, trace: seq<Event>, ev: Event)
    requires Run(w, trace).Some?
    ensures Run(w, trace + [ev]) == Step(Run(w, trace).value, ev)
    decreases |trace|
  {
    if trace == [] {
      assert trace + [ev] == [ev] && [ev][1..] == [];
    } else {
      RunNext(Step(w, trace[0]).value, trace[1..], ev);
      assert (trace + [ev])[1..] == trace[1..] + [ev];
    }
  }

  ghost predicate Invariant(w: World)
  {
    && (forall pid | pid in w.procs :: HasCopy(w.procs[pid]))
    && (forall pid | pid in w.procs && w.procs[pid].committed :: w.config == Some(w.procs[pid].candidate))
    && (forall p, q | p in w.procs && q in w.procs && w.procs[p].committed && w.procs[q].committed :: p == q)
  }

  ghost predicate HasCopy(p: Proc)
  {
    p.pc.Staged? || p.pc.SecondChecked? ==> p.staged == Some(p.candidate)
  }

  /** A process touches the configuration only by committing, from free to its whole candidate. */
  lemma ProcStepEffect(p: Proc, config: Option<Bytes>, a: Action)
    requires HasCopy(p) && ProcStep(p, config, a).Some?
    ensures var next := ProcStep(p, config, a).value;
            && HasCopy(next.proc) && next.proc.candidate == p.candidate
            && ((next.proc.committed == p.committed && next.config == config)
                || (config.None? && next.proc.committed && next.config == Some(p.candidate)))
  {}

  lemma StepKeepsInvariant(w: World, ev: Event)
    requires Invariant(w) && Step(w, ev).Some?
    ensures Invariant(Step(w, ev).value)
  {
    if ev.Act? {
      ProcStepEffect(w.procs[ev.pid], w.config, ev.action);
    }
  }

  /** NO OVERWRITE. Once the configuration exists it never changes, whoever created it. */
  lemma {:induction false} ConfigurationIsNeverOverwritten(w: World, trace: seq<Event>)
    requires w.config.Some? && Run(w, trace).Some?
    ensures Run(w, trace).value.config == w.config
    decreases |trace|
  {
    if trace != [] {
      ConfigurationIsNeverOverwritten(Step(w, trace[0]).value, trace[1..]);
    }
  }

  lemma {:induction false} RunKeepsInvariant(w: World, trace: seq<Event>)
    requires Invariant(w) && Run(w, trace).Some?
    ensures Invariant(Run(w, trace).value)
    decreases |trace|
  {
    if trace != [] {
      StepKeepsInvariant(w, trace[0]);
      RunKeepsInvariant(Step(w, trace[0]).value, trace[1..]);
    }
  }

  /** AT MOST ONE COMMIT. In every interleaving of any number of first installations at most one
      commits, and then the configuration is that installer's whole candidate. */
  lemma AtMostOneCommit(trace: seq<Event>, config: Option<Bytes>)
    requires Run(World(config, map[]), trace).Some?
    ensures var final := Run(World(config, map[]), trace).value;
            && (forall pid | pid in final.procs && final.procs[pid].committed ::
                  final.config == Some(final.procs[pid].candidate))
            && (forall p, q | p in final.procs && q in final.procs ::
                  final.procs[p].committed && final.procs[q].committed ==> p == q)
    ensures config.Some? ==>
              var final := Run(World(config, map[]), trace).value;
              final.config == config
  {
    RunKeepsInvariant(World(config, map[]), trace);
    if config.Some? {
      ConfigurationIsNeverOverwritten(World(config, map[]), trace);
    }
  }

  /** A configuration that existed from the start stops every commit. */
  lemma {:induction false} ExistingConfigurationStopsCommits(w: World, trace: seq<Event>)
    requires w.config.Some? && Run(w, trace).Some?
    requires forall pid | pid in w.procs :: !w.procs[pid].committed
    ensures forall pid | pid in Run(w, trace).value.procs :: !Run(w, trace).value.procs[pid].committed
    decreases |trace|
  {
    if trace != [] {
      ExistingConfigurationStopsCommits(Step(w, trace[0]).value, trace[1..]);
    }
  }
}
