/** The startup of one installation while any others run: however the steps interleave, a faultless
    startup leaves its node as exactly as it would alone. */
module FleetStartup {
  import opened Text
  import opened Topics
  import opened Entities
  import opened Discovery
  import opened Startup
  import opened Fleet

  /** The step, if it is the installation's own, belongs to one startup and meets no fault: the scan
      has seen every record under the filter when it is planned from, and every write arrives. */
  ghost predicate FaultlessStep(f: Fleet, a: Action, id: string)
    requires id in f.members && SafeLevel(id)
  {
    a.By(id) ==>
      match a.event
      case Begin(purgeStale) => purgeStale
      case PlanPurge => f.members[id].phase == Collecting(Under(f.store, id))
      case Purge(_, delivered, _) => delivered
      case Publish(delivered, ok) => delivered && ok
      case Collect(_) => true
      case EndPurge => true
      case CollectFails => false
      case Finish => false
      case Restart(_, _, _) => false
  }

  ghost predicate Faultless(f: Fleet, trace: seq<Action>, codec: Codec, id: string)
    requires SafeLevel(id)
    decreases |trace|
  {
    trace == [] ||
    (&& id in f.members && FaultlessStep(f, trace[0], id) && Step(f, trace[0], codec).Some?
     && Faultless(Step(f, trace[0], codec).value, trace[1..], codec, id))
  }

  function Announcing(ps: seq<Publication>, codec: Codec): (ws: seq<Write>)
    ensures |ws| == |ps|
  {
    seq(|ps|, i requires 0 <= i < |ps| => Write(ps[i].topic, codec.encode(ps[i].entity), true, true, true))
  }

  /** How far a startup of device `id` for the publications `ps` that found `before` has come. */
  ghost predicate StageOf(phase: Phase, id: string, ps: seq<Publication>, before: Store, now: Store, codec: Codec)
    requires SafeLevel(id)
  {
    var stale := StaleTopics(Under(before, id), TopicsOf(ps), id, codec);
    match phase
    case Idle => now == before
    case Collecting(_) => now == before
    case Purging(rest) => rest <= stale && now == before - (stale - rest)
    case Publishing(rest) =>
      && |rest| <= |ps| && rest == ps[|ps| - |rest|..]
      && now == Replay(before - stale, Announcing(ps[..|ps| - |rest|], codec))
  }

  ghost predicate Stage(m: Member, before: Store, now: Store, codec: Codec)
    requires SafeLevel(m.ID())
  {
    StageOf(m.phase, m.ID(), m.All(), before, now, codec)
  }

  lemma UnderIsOwn(store: Store, id: string)
    requires SafeLevel(id)
    ensures Under(Own(store, id), id) == Under(store, id)
  {
    forall t | t in store && Matches(FilterOf(id), t) ensures NodeLevel(t) == Some(id) {
      MatchedIsOwn(id, t);
    }
  }

  lemma AnnouncingNext(before: Store, ps: seq<Publication>, k: nat, codec: Codec)
    requires k < |ps|
    ensures Replay(before, Announcing(ps[..k + 1], codec))
         == Deliver(Replay(before, Announcing(ps[..k], codec)),
                    Write(ps[k].topic, codec.encode(ps[k].entity), true, true, true))
  {
    var w := Write(ps[k].topic, codec.encode(ps[k].entity), true, true, true);
    assert Announcing(ps[..k + 1], codec) == Announcing(ps[..k], codec) + [w];
    ReplayNext(before, Announcing(ps[..k], codec), w);
  }

  lemma PublishStage(m: Member, now: Store, ev: Event, codec: Codec, before: Store)
    requires SafeLevel(m.ID()) && Stage(m, before, now, codec)
    requires ev == Publish(true, true) && LocalStep(m, now, ev, codec).Some?
    ensures Stage(LocalStep(m, now, ev, codec).value.member, before, LocalStep(m, now, ev, codec).value.store, codec)
  {
    var ps := m.All();
    var k := |ps| - |m.phase.rest|;
    assert m.phase.rest[0] == ps[k] && m.phase.rest[1..] == ps[k + 1..];
    AnnouncingNext(before - StaleTopics(Under(before, m.ID()), TopicsOf(ps), m.ID(), codec), ps, k, codec);
  }

  lemma OtherStage(m: Member, now: Store, ev: Event, codec: Codec, before: Store)
    requires SafeLevel(m.ID()) && Stage(m, before, now, codec) && LocalStep(m, now, ev, codec).Some?
    requires ev == Begin(true) || ev.Collect? || ev.EndPurge? || (ev.Purge? && ev.delivered)
             || (ev.PlanPurge? && m.phase == Collecting(Under(now, m.ID())))
    ensures Stage(LocalStep(m, now, ev, codec).value.member, before, LocalStep(m, now, ev, codec).value.store, codec)
  {
    var ps := m.All();
    assert ps[0..] == ps && ps[..0] == [];
    if ev.Purge? {
      PurgeNext(before, StaleTopics(Under(before, m.ID()), TopicsOf(ps), m.ID(), codec), m.phase.stale, ev.topic);
    } else if ev.EndPurge? {
      var stale := StaleTopics(Under(before, m.ID()), TopicsOf(ps), m.ID(), codec);
      assert stale - {} == stale;
    }
  }

  lemma PurgeNext(before: Store, stale: set<string>, rest: set<string>, topic: string)
    requires rest <= stale && topic in rest
    ensures (before - (stale - rest)) - {topic} == before - (stale - (rest - {topic}))
  {}

  /** An own step moves the startup on. */
  lemma OwnStepStage(f: Fleet, a: Action, codec: Codec, id: string, before: Store)
    requires WellFormedFleet(f) && id in f.members && SafeLevel(id) && a.By(id)
    requires Step(f, a, codec).Some? && FaultlessStep(f, a, id)
    requires Stage(f.members[id], before, Own(f.store, id), codec)
    ensures var next := Step(f, a, codec).value;
            && id in next.members && next.members[id].ID() == id && next.members[id].All() == f.members[id].All()
            && Stage(next.members[id], before, Own(next.store, id), codec)
  {
    var m := f.members[id];
    StepSeesOwnNode(m, f.store, a.event, codec, id);
    UnderIsOwn(f.store, id);
    if a.event.Publish? {
      PublishStage(m, Own(f.store, id), a.event, codec, before);
    } else {
      OtherStage(m, Own(f.store, id), a.event, codec, before);
    }
  }

  lemma {:induction false} StartupStage(f: Fleet, trace: seq<Action>, codec: Codec, id: string, before: Store)
    requires WellFormedFleet(f) && id in f.members && SafeLevel(id)
    requires Run(f, trace, codec).Some? && Faultless(f, trace, codec, id)
    requires Stage(f.members[id], before, Own(f.store, id), codec)
    ensures var g := Run(f, trace, codec).value;
            && id in g.members && g.members[id].ID() == id && g.members[id].All() == f.members[id].All()
            && Stage(g.members[id], before, Own(g.store, id), codec)
    decreases |trace|
  {
    if trace != [] {
      var a := trace[0];
      var next := Step(f, a, codec).value;
      StepProjects(f, a, codec, id);
      if a.By(id) {
        OwnStepStage(f, a, codec, id, before);
      } else {
        assert Solo(next, id).store == Solo(f, id).store && next.members[id] == f.members[id];
      }
      StartupStage(next, trace[1..], codec, id, before);
    }
  }

  lemma AnnouncedStore(start: Store, ps: seq<Publication>, codec: Codec)
    requires NonEmptyEncoding(codec)
    ensures var final := Replay(start, Announcing(ps, codec));
            && final.Keys == start.Keys + TopicsOf(ps)
            && (forall t | t in start && t !in TopicsOf(ps) :: final[t] == start[t])
            && (forall t | t in TopicsOf(ps) :: Announces(final, t, ps, codec))
  {
    var ws := Announcing(ps, codec);
    AnnouncedTopics(ws, ps, codec);
    AnnounceEffect(start, ws);
    var final := Replay(start, ws);
    forall t | t in TopicsOf(ps) ensures Announces(final, t, ps, codec) {
      var w :| w in ws && w.topic == t && final[t] == w.payload;
      var p :| p in ps && p.topic == w.topic && codec.encode(p.entity) == w.payload;
    }
  }

  /** After the last announcement the node is refreshed. */
  lemma LastStage(id: string, ps: seq<Publication>, before: Store, now: Store, codec: Codec)
    requires SafeLevel(id) && NonEmptyEncoding(codec)
    requires StageOf(Publishing([]), id, ps, before, now, codec)
    ensures Refreshed(before, now, id, ps, codec)
  {
    assert ps[..|ps| - 0] == ps;
    AnnouncedStore(before - StaleTopics(Under(before, id), TopicsOf(ps), id, codec), ps, codec);
  }

  /** EXACTNESS IN COMPANY. However the steps of other installations and other clients fall between its
      own, whatever they lose or fail, an installation that has gone through a faultless startup to its
      last announcement has left its node as the exactness theorem says. */
  lemma StartupInCompanyIsExact(f: Fleet, trace: seq<Action>, codec: Codec, id: string)
    requires WellFormedFleet(f) && ValidStore(f.store) && NonEmptyEncoding(codec)
    requires id in f.members && f.members[id].phase.Idle? && SafeLevel(id) && FlatNames(f.members[id].disks)
    requires Run(f, trace, codec).Some? && Faultless(f, trace, codec, id)
    requires id in Run(f, trace, codec).value.members
    requires Run(f, trace, codec).value.members[id].phase == Publishing([])
    ensures Exact(Own(f.store, id), Own(Run(f, trace, codec).value.store, id), id, f.members[id].All(), codec)
  {
    var before := Own(f.store, id);
    var g := Run(f, trace, codec).value;
    var m := f.members[id];
    StartupStage(f, trace, codec, id, before);
    LastStage(id, m.All(), before, Own(g.store, id), codec);
    DesiredUnderFilter(m.settings, m.disks, m.numCores);
    RefreshedIsExact(before, Own(g.store, id), id, m.All(), codec);
  }
}
