/** Any number of installations on one broker, their scan, purge and publish steps interleaved in any
    order, with lost messages, failed scans and restarts at any point. */
module Fleet {
  import opened Text
  import opened Topics
  import opened Entities
  import opened Discovery

  /** Where an installation is in its discovery run. */
  datatype Phase =
    | Idle
    | Collecting(collected: Store)
    | Purging(stale: set<string>)
    | Publishing(rest: seq<Publication>)

  datatype Member = Member(settings: Settings, disks: seq<Disk>, numCores: nat, phase: Phase)
  {
    function All(): seq<Publication> { Publications(settings, disks, numCores) }

    function ID(): string { settings.device.id }
  }

  /** The installations are named by their device IDs, which makes the IDs pairwise distinct. */
  datatype Fleet = Fleet(store: Store, members: map<string, Member>)

  datatype Event =
    | Begin(purgeStale: bool)
    | Collect(topic: string)
    | CollectFails
    | PlanPurge
    | Purge(topic: string, delivered: bool, ok: bool)
    | EndPurge
    | Publish(delivered: bool, ok: bool)
    | Finish
    | Restart(settings: Settings, disks: seq<Disk>, numCores: nat)  // of the same device

  datatype Local = Local(member: Member, store: Store)

  /** One step of one installation against the broker; None when the step is not possible. */
  function LocalStep(m: Member, store: Store, ev: Event, codec: Codec): Option<Local>
  {
    match (ev, m.phase)
    case (Begin(purgeStale), Idle) =>
      Some(Local(m.(phase := if purgeStale && DiscoveryTopicFilter(m.ID()).Some?
                             then Collecting(map[]) else Publishing(m.All())), store))
    case (Collect(topic), Collecting(collected)) =>
      if topic in store && DiscoveryTopicFilter(m.ID()).Some? && Matches(DiscoveryTopicFilter(m.ID()).value, topic)
      then Some(Local(m.(phase := Collecting(collected[topic := store[topic]])), store))
      else None
    case (CollectFails, Collecting(_)) =>
      Some(Local(m.(phase := Publishing(m.All())), store))
    case (PlanPurge, Collecting(collected)) =>
      Some(Local(m.(phase := Purging(StaleTopics(collected, TopicsOf(m.All()), m.ID(), codec))), store))
    case (Purge(topic, delivered, ok), Purging(stale)) =>
      if topic in stale
      then Some(Local(m.(phase := Purging(stale - {topic})), Deliver(store, Write(topic, "", true, delivered, ok))))
      else None
    case (EndPurge, Purging(stale)) =>
      if stale == {} then Some(Local(m.(phase := Publishing(m.All())), store)) else None
    case (Publish(delivered, ok), Publishing(rest)) =>
      if rest == [] then None
      else Some(Local(m.(phase := if ok then Publishing(rest[1..]) else Idle),
                      Deliver(store, Write(rest[0].topic, codec.encode(rest[0].entity), true, delivered, ok))))
    case (Finish, Publishing(rest)) =>
      if rest == [] then Some(Local(m.(phase := Idle), store)) else None
    case (Restart(settings, disks, numCores), _) =>
      if settings.device.id == m.ID() then Some(Local(Member(settings, disks, numCores, Idle), store)) else None
    case _ => None
  }

  /** A step of an installation, or a message of any other client outside the installations' nodes. */
  datatype Action = Action(who: string, event: Event) | Foreign(write: Write)
  {
    predicate By(id: string) { Action? && who == id }
  }

  predicate InSomeNode(f: Fleet, topic: string)
  {
    NodeLevel(topic).Some? && NodeLevel(topic).value in f.members
  }

  function Step(f: Fleet, a: Action, codec: Codec): Option<Fleet>
  {
    match a
    case Foreign(w) =>
      if InSomeNode(f, w.topic) then None else Some(f.(store := Deliver(f.store, w)))
    case Action(who, event) =>
      if who !in f.members then None
      else
        var next := LocalStep(f.members[who], f.store, event, codec);
        if next.None? then None
        else Some(Fleet(next.value.store, f.members[who := next.value.member]))
  }

  function Run(f: Fleet, trace: seq<Action>, codec: Codec): Option<Fleet>
    decreases |trace|
  {
    if trace == [] then Some(f)
    else
      var next := Step(f, trace[0], codec);
      if next.None? then None else Run(next.value, trace[1..], codec)
  }

  /** The records in the node of one device. */
  function Own(store: Store, id: string): Store
  {
    map t | t in store && NodeLevel(t) == Some(id) :: store[t]
  }

  /** What a member holds back for later concerns its own node only. */
  ghost predicate WellFormed(m: Member, id: string)
  {
    && m.ID() == id && '/' !in id
    && match m.phase
       case Idle => true
       case Collecting(collected) =>
         SafeLevel(id) && forall t | t in collected :: Matches(DiscoveryTopicFilter(id).value, t)
       case Purging(stale) => forall t | t in stale :: NodeLevel(t) == Some(id)
       case Publishing(rest) => forall p | p in rest :: NodeLevel(p.topic) == Some(id)
  }

  ghost predicate WellFormedFleet(f: Fleet)
  {
    forall id | id in f.members :: WellFormed(f.members[id], id)
  }

  lemma MatchedIsOwn(id: string, topic: string)
    requires SafeLevel(id) && Matches(DiscoveryTopicFilter(id).value, topic)
    ensures NodeLevel(topic) == Some(id)
  {
    FilterMatchesExactly(id, topic);
  }

  lemma AllPublicationsAreOwn(m: Member)
    requires '/' !in m.ID()
    ensures forall p | p in m.All() :: NodeLevel(p.topic) == Some(m.ID())
  {
    forall p | p in m.All() ensures NodeLevel(p.topic) == Some(m.ID()) {
      assert p.topic in TopicsOf(m.All());
      PublishedTopicsAreOwn(m.settings, m.disks, m.numCores, p.topic);
    }
  }

  /** A step keeps its member well formed. */
  lemma StepKeepsWellFormed(m: Member, store: Store, ev: Event, codec: Codec, id: string)
    requires WellFormed(m, id) && LocalStep(m, store, ev, codec).Some?
    ensures WellFormed(LocalStep(m, store, ev, codec).value.member, id)
  {
    AllPublicationsAreOwn(m);
  }

  /** The message a step sends; an undelivered one when it sends none. */
  function Message(m: Member, ev: Event, codec: Codec): Write
  {
    if ev.Purge? then Write(ev.topic, "", true, ev.delivered, ev.ok)
    else if ev.Publish? && m.phase.Publishing? && m.phase.rest != [] then
      var p := m.phase.rest[0];
      Write(p.topic, codec.encode(p.entity), true, ev.delivered, ev.ok)
    else Write("", "", true, false, true)
  }

  lemma StepSendsMessage(m: Member, store: Store, ev: Event, codec: Codec, id: string)
    requires WellFormed(m, id) && LocalStep(m, store, ev, codec).Some?
    ensures LocalStep(m, store, ev, codec).value.store == Deliver(store, Message(m, ev, codec))
    ensures Message(m, ev, codec).delivered ==> NodeLevel(Message(m, ev, codec).topic) == Some(id)
  {
    if m.phase.Publishing? && ev.Publish? {
      assert m.phase.rest[0] in m.phase.rest;
    }
  }

  lemma DeliverOwn(store: Store, w: Write, id: string)
    requires w.delivered ==> NodeLevel(w.topic) == Some(id)
    ensures Own(Deliver(store, w), id) == Deliver(Own(store, id), w)
  {}

  lemma DeliverElsewhere(store: Store, w: Write, id: string)
    requires w.delivered ==> NodeLevel(w.topic) != Some(id)
    ensures Own(Deliver(store, w), id) == Own(store, id)
  {}

  /** A step changes no record outside the node of the installation that takes it. */
  lemma StepStaysInNode(m: Member, store: Store, ev: Event, codec: Codec, id: string, other: string)
    requires WellFormed(m, id) && LocalStep(m, store, ev, codec).Some? && other != id
    ensures Own(LocalStep(m, store, ev, codec).value.store, other) == Own(store, other)
  {
    StepSendsMessage(m, store, ev, codec, id);
    DeliverElsewhere(store, Message(m, ev, codec), other);
  }

  lemma StepReadsOwnNode(m: Member, store: Store, ev: Event, codec: Codec, id: string)
    requires WellFormed(m, id)
    ensures var full, solo := LocalStep(m, store, ev, codec), LocalStep(m, Own(store, id), ev, codec);
            (full.Some? <==> solo.Some?) && (full.Some? ==> full.value.member == solo.value.member)
  {
    if ev.Collect? && m.phase.Collecting? && Matches(DiscoveryTopicFilter(id).value, ev.topic) {
      MatchedIsOwn(id, ev.topic);
    }
  }

  /** A step depends on, and acts on, the installation's own node only. */
  lemma StepSeesOwnNode(m: Member, store: Store, ev: Event, codec: Codec, id: string)
    requires WellFormed(m, id)
    ensures var full, solo := LocalStep(m, store, ev, codec), LocalStep(m, Own(store, id), ev, codec);
            && (full.Some? <==> solo.Some?)
            && (full.Some? ==> full.value.member == solo.value.member && Own(full.value.store, id) == solo.value.store)
  {
    StepReadsOwnNode(m, store, ev, codec, id);
    if LocalStep(m, store, ev, codec).Some? {
      StepSendsMessage(m, store, ev, codec, id);
      StepSendsMessage(m, Own(store, id), ev, codec, id);
      DeliverOwn(store, Message(m, ev, codec), id);
    }
  }

  function OnlyBy(trace: seq<Action>, id: string): seq<Action>
  {
    if trace == [] then []
    else (if trace[0].By(id) then [trace[0]] else []) + OnlyBy(trace[1..], id)
  }

  /** An installation alone on a broker that holds only its own node. */
  function Solo(f: Fleet, id: string): Fleet
    requires id in f.members
  {
    Fleet(Own(f.store, id), map[id := f.members[id]])
  }

  lemma OwnStepProjects(f: Fleet, a: Action, codec: Codec, id: string)
    requires WellFormedFleet(f) && id in f.members && a.By(id) && Step(f, a, codec).Some?
    ensures Step(Solo(f, id), a, codec) == Some(Solo(Step(f, a, codec).value, id))
  {
    var m := f.members[id];
    StepSeesOwnNode(m, f.store, a.event, codec, id);
    var moved := LocalStep(m, f.store, a.event, codec).value.member;
    assert map[id := m][id := moved] == map[id := moved];
  }

  lemma StepProjects(f: Fleet, a: Action, codec: Codec, id: string)
    requires WellFormedFleet(f) && id in f.members && Step(f, a, codec).Some?
    ensures var next := Step(f, a, codec).value;
            && WellFormedFleet(next) && id in next.members
            && (if a.By(id) then Step(Solo(f, id), a, codec) == Some(Solo(next, id)) else Solo(next, id) == Solo(f, id))
  {
    match a
    case Foreign(w) =>
      DeliverElsewhere(f.store, w, id);
    case Action(who, event) =>
      StepKeepsWellFormed(f.members[who], f.store, event, codec, who);
      if who == id {
        OwnStepProjects(f, a, codec, id);
      } else {
        StepStaysInNode(f.members[who], f.store, event, codec, who, id);
      }
  }

  /** NON-INTERFERENCE. In every interleaving with other installations and other clients, what an
      installation's node holds and where the installation stands are what its own steps alone produce on
      a broker holding its node only. */
  lemma {:induction false} NonInterference(f: Fleet, trace: seq<Action>, codec: Codec, id: string)
    requires WellFormedFleet(f) && id in f.members && Run(f, trace, codec).Some?
    ensures id in Run(f, trace, codec).value.members
    ensures Run(Solo(f, id), OnlyBy(trace, id), codec) == Some(Solo(Run(f, trace, codec).value, id))
    decreases |trace|
  {
    if trace != [] {
      var next := Step(f, trace[0], codec).value;
      StepProjects(f, trace[0], codec, id);
      NonInterference(next, trace[1..], codec, id);
      if trace[0].By(id) {
        var own := OnlyBy(trace, id);
        assert own[0] == trace[0] && own[1..] == OnlyBy(trace[1..], id);
      } else {
        assert OnlyBy(trace, id) == OnlyBy(trace[1..], id);
      }
    }
  }

  /** Records in nodes of no installation, and records outside any node, survive every run in which no
      other client writes their topic. */
  lemma {:induction false} ForeignRecordsSurvive(f: Fleet, trace: seq<Action>, codec: Codec, topic: string)
    requires WellFormedFleet(f) && Run(f, trace, codec).Some? && !InSomeNode(f, topic)
    requires forall a | a in trace && a.Foreign? :: a.write.topic != topic
    ensures var final := Run(f, trace, codec).value.store;
            (topic in final <==> topic in f.store) && (topic in final ==> final[topic] == f.store[topic])
    decreases |trace|
  {
    if trace != [] {
      var a := trace[0];
      if a.Action? {
        var m := f.members[a.who];
        StepKeepsWellFormed(m, f.store, a.event, codec, a.who);
        StepSendsMessage(m, f.store, a.event, codec, a.who);
      }
      ForeignRecordsSurvive(Step(f, a, codec).value, trace[1..], codec, topic);
    }
  }

  // -------------------------------------------------------------- runs in pieces

  lemma {:induction false} RunAppend(f: Fleet, a: seq<Action>, b: seq<Action>, codec: Codec)
    requires Run(f, a, codec).Some?
    ensures Run(f, a + b, codec) == Run(Run(f, a, codec).value, b, codec)
    decreases |a|
  {
    if a == [] {
      assert a + b == b;
    } else {
      RunAppend(Step(f, a[0], codec).value, a[1..], b, codec);
      assert (a + b)[1..] == a[1..] + b;
    }
  }

  lemma RunNext(f: Fleet, trace: seq<Action>, a: Action, codec: Codec)
    requires Run(f, trace, codec).Some?
    ensures Run(f, trace + [a], codec) == Step(Run(f, trace, codec).value, a, codec)
  {
    RunAppend(f, trace, [a], codec);
    assert [a][1..] == [];
  }

  /** The message of a step that sends one. */
  function Sent(m: Member, ev: Event, codec: Codec): seq<Write>
  {
    if ev.Purge? || ev.Publish? then [Message(m, ev, codec)] else []
  }

  function SentBy(f: Fleet, a: Action, codec: Codec, id: string): seq<Write>
  {
    if a.By(id) && id in f.members then Sent(f.members[id], a.event, codec) else []
  }

  /** What one installation sends in a run. */
  function OwnWrites(f: Fleet, trace: seq<Action>, codec: Codec, id: string): seq<Write>
    decreases |trace|
  {
    if trace == [] then []
    else
      var next := Step(f, trace[0], codec);
      if next.None? then [] else SentBy(f, trace[0], codec, id) + OwnWrites(next.value, trace[1..], codec, id)
  }

  lemma OwnWritesFirst(f: Fleet, a: Action, rest: seq<Action>, codec: Codec, id: string)
    requires Step(f, a, codec).Some?
    ensures OwnWrites(f, [a] + rest, codec, id)
         == SentBy(f, a, codec, id) + OwnWrites(Step(f, a, codec).value, rest, codec, id)
  {
    assert ([a] + rest)[1..] == rest;
  }

  lemma {:induction false} OwnWritesAppend(f: Fleet, a: seq<Action>, b: seq<Action>, codec: Codec, id: string)
    requires Run(f, a, codec).Some?
    ensures OwnWrites(f, a + b, codec, id)
         == OwnWrites(f, a, codec, id) + OwnWrites(Run(f, a, codec).value, b, codec, id)
    decreases |a|
  {
    if a == [] {
      assert a + b == b;
    } else {
      var next := Step(f, a[0], codec).value;
      assert a == [a[0]] + a[1..] && a + b == [a[0]] + (a[1..] + b);
      OwnWritesFirst(f, a[0], a[1..], codec, id);
      OwnWritesFirst(f, a[0], a[1..] + b, codec, id);
      OwnWritesAppend(next, a[1..], b, codec, id);
      Associative(SentBy(f, a[0], codec, id), OwnWrites(next, a[1..], codec, id),
                  OwnWrites(Run(next, a[1..], codec).value, b, codec, id));
    }
  }

  lemma SentEffect(m: Member, store: Store, ev: Event, codec: Codec)
    requires LocalStep(m, store, ev, codec).Some?
    ensures LocalStep(m, store, ev, codec).value.store == Replay(store, Sent(m, ev, codec))
  {
    if ev.Purge? || ev.Publish? {
      assert [Message(m, ev, codec)][..0] == [];
    }
  }

  /** Alone on the broker, an installation's messages are all that happens to it. */
  lemma {:induction false} AloneStore(f: Fleet, trace: seq<Action>, codec: Codec, id: string)
    requires Run(f, trace, codec).Some? && forall a | a in trace :: a.By(id)
    ensures Run(f, trace, codec).value.store == Replay(f.store, OwnWrites(f, trace, codec, id))
    decreases |trace|
  {
    if trace != [] {
      assert trace[0] in trace;
      var next := Step(f, trace[0], codec).value;
      SentEffect(f.members[id], f.store, trace[0].event, codec);
      AloneStore(next, trace[1..], codec, id);
      ReplayAppend(f.store, SentBy(f, trace[0], codec, id), OwnWrites(next, trace[1..], codec, id));
    }
  }

  lemma StepOwnStore(f: Fleet, a: Action, codec: Codec, id: string)
    requires WellFormedFleet(f) && id in f.members && Step(f, a, codec).Some?
    ensures Own(Step(f, a, codec).value.store, id) == Replay(Own(f.store, id), SentBy(f, a, codec, id))
  {
    match a
    case Foreign(w) =>
      DeliverElsewhere(f.store, w, id);
    case Action(who, event) =>
      if who == id {
        StepSeesOwnNode(f.members[id], f.store, event, codec, id);
        SentEffect(f.members[id], Own(f.store, id), event, codec);
      } else {
        StepStaysInNode(f.members[who], f.store, event, codec, who, id);
      }
  }

  /** In company, they are all that happens to its own node. */
  lemma {:induction false} OwnNodeStore(f: Fleet, trace: seq<Action>, codec: Codec, id: string)
    requires WellFormedFleet(f) && id in f.members && Run(f, trace, codec).Some?
    ensures WellFormedFleet(Run(f, trace, codec).value)
    ensures Own(Run(f, trace, codec).value.store, id) == Replay(Own(f.store, id), OwnWrites(f, trace, codec, id))
    decreases |trace|
  {
    if trace != [] {
      var next := Step(f, trace[0], codec).value;
      StepProjects(f, trace[0], codec, id);
      StepOwnStore(f, trace[0], codec, id);
      OwnNodeStore(next, trace[1..], codec, id);
      ReplayAppend(Own(f.store, id), SentBy(f, trace[0], codec, id), OwnWrites(next, trace[1..], codec, id));
    }
  }
}
