/** The client program of one installation, running while other installations and other clients use the
    broker. Every step it takes is recorded as a step of the fleet model, so a call is a run of the fleet
    and what is proved of all interleavings holds of the program. */
module MqttClient {
  import opened Text
  import opened Topics
  import opened Entities
  import opened Discovery
  import opened Fleet
  import opened Startup
  import opened Collect

  /** What a purge did: nothing unless a scan of the device's own filter succeeded; then it deleted
      exactly the stale topics of that possibly partial snapshot. */
  ghost predicate Purges(snapshot: Option<Store>, purge: seq<Write>, desired: set<string>, deviceID: string,
                         codec: Codec)
  {
    match snapshot
    case None => purge == []
    case Some(collected) =>
      && SafeLevel(deviceID)
      && (forall t | t in collected :: Matches(DiscoveryTopicFilter(deviceID).value, t))
      && IsPurge(purge, StaleTopics(collected, desired, deviceID, codec))
  }

  /** Records that do not prove this program and this device to be their owner stay as they are, unless
      their topics are announced. */
  ghost predicate KeepsUnproven(before: Store, after: Store, topics: set<string>, deviceID: string, codec: Codec)
  {
    forall t | t in before && t !in topics && !ProvesOwner(before[t], deviceID, codec) ::
      t in after && after[t] == before[t]
  }

  lemma CallKeepsUnproven(before: Store, snapshot: Option<Store>, purge: seq<Write>, announced: seq<Write>,
                          ps: seq<Publication>, deviceID: string, codec: Codec, ok: bool)
    requires Purges(snapshot, purge, TopicsOf(ps), deviceID, codec)
    requires snapshot.Some? ==> Shows(snapshot.value, before)
    requires IsAnnouncement(announced, ps, codec, ok)
    ensures KeepsUnproven(before, Replay(Replay(before, purge), announced), TopicsOf(ps), deviceID, codec)
  {
    var collected: Store := if snapshot.Some? then snapshot.value else map[];
    assert snapshot.None? ==> StaleTopics(collected, TopicsOf(ps), deviceID, codec) == {};
    forall t | t in before && t !in TopicsOf(ps) && !ProvesOwner(before[t], deviceID, codec)
      ensures var after := Replay(Replay(before, purge), announced);
              t in after && after[t] == before[t]
    {
      UnprovenSurvives(before, collected, purge, announced, ps, deviceID, codec, ok, t);
    }
  }

  /** The snapshot holds records of the store. */
  ghost predicate Shows(collected: Store, store: Store)
  {
    forall t | t in collected :: t in store && collected[t] == store[t]
  }

  /** A retained delivery is a record under the filter, and if everybody keeps to their node, one of the
      own node in the given world. */
  ghost predicate IsRecordOf(m: Message, filter: string, world: Fleet, id: string)
  {
    m.retained ==>
      && Matches(filter, m.topic)
      && (WellFormedFleet(world) ==>
            m.topic in Own(world.store, id) && Own(world.store, id)[m.topic] == m.payload)
  }

  ghost predicate RecordsOf(deliveries: seq<Message>, filter: string, world: Fleet, id: string)
  {
    forall m | m in deliveries :: IsRecordOf(m, filter, world, id)
  }

  /** What is collected from records are records. */
  lemma CollectedRecords(deliveries: seq<Message>, filter: string, world: Fleet, id: string)
    requires RecordsOf(deliveries, filter, world, id)
    ensures forall t | t in LastRetained(deliveries) :: Matches(filter, t)
    ensures WellFormedFleet(world) ==> Shows(LastRetained(deliveries), Own(world.store, id))
  {
    forall t | t in LastRetained(deliveries)
      ensures Matches(filter, t)
      ensures WellFormedFleet(world) ==>
                t in Own(world.store, id) && LastRetained(deliveries)[t] == Own(world.store, id)[t]
    {
      LastRetainedExactly(deliveries, t);
      var i :| 0 <= i < |deliveries| && deliveries[i].topic == t && LastOfTopic(deliveries, i);
      assert IsRecordOf(deliveries[i], filter, world, id);
    }
  }

  class Client {
    const settings: Settings
    const codec: Codec
    /** The broker's retained messages. */
    var retained: Store
    /** The other installations, and how far each has come. */
    var others: map<string, Member>
    /** How far this installation has come in the fleet model. */
    ghost var own: Member
    ghost const start: Fleet
    /** All steps so far: this installation's, the others', and those of other clients. */
    ghost var trace: seq<Action>
    /** Every publish attempt of this client so far. */
    ghost var writes: seq<Write>

    function ID(): string { settings.device.id }

    ghost function World(): Fleet
      reads this
    {
      Fleet(retained, others[ID() := own])
    }

    /** The trace is a run of the fleet that leads to the given store, and the publish attempts are what
        the installation sent in it. */
    ghost predicate ValidAt(store: Store)
      reads this
    {
      && Run(start, trace, codec) == Some(Fleet(store, others[ID() := own]))
      && writes == OwnWrites(start, trace, codec, ID())
      && own.settings == settings
    }

    ghost predicate Valid()
      reads this
    {
      ValidAt(retained)
    }

    constructor (settings: Settings, codec: Codec, retained: Store, others: map<string, Member>)
      ensures Valid() && trace == [] && writes == []
      ensures this.settings == settings && this.codec == codec && this.retained == retained && this.others == others
      ensures own.phase == Idle && start == World()
    {
      this.settings, this.codec, this.retained, this.others := settings, codec, retained, others;
      var m := Member(settings, [], 0, Idle);
      own, trace, writes := m, [], [];
      start := Fleet(retained, others[settings.device.id := m]);
    }

    // ----------------------------------------------------------- fleet steps

    /** Records that the installation took a step from the store `before`. */
    ghost method Took(ev: Event, before: Store)
      requires ValidAt(before)
      requires LocalStep(own, before, ev, codec).Some? && LocalStep(own, before, ev, codec).value.store == retained
      requires ev.Restart? ==> ev.settings == settings
      modifies `own, `trace, `writes
      ensures Valid() && trace == old(trace) + [Action(ID(), ev)]
      ensures own == LocalStep(old(own), before, ev, codec).value.member
      ensures writes == old(writes) + Sent(old(own), ev, codec)
    {
      OwnStepIsStep(others, ID(), own, before, ev, codec);
      StepIsRecorded(start, trace, Action(ID(), ev), codec, ID());
      SettingsStay(own, before, ev, codec);
      writes := writes + Sent(own, ev, codec);
      trace := trace + [Action(ID(), ev)];
      own := LocalStep(own, before, ev, codec).value.member;
    }

    /** Records a step that somebody else took. */
    ghost method TheyTook(a: Action, before: Fleet)
      requires Run(start, trace, codec) == Some(before) && Step(before, a, codec) == Some(World()) && !a.By(ID())
      requires writes == OwnWrites(start, trace, codec, ID()) && own.settings == settings
      modifies `trace
      ensures Valid() && trace == old(trace) + [a]
    {
      StepIsRecorded(start, trace, a, codec, ID());
      trace := trace + [a];
    }

    /** Any number of steps of other installations and other clients. */
    method OthersMove()
      requires Valid()
      modifies `retained, `others, `trace
      ensures Valid() && old(trace) <= trace
    {
      var n: int := *;
      while n > 0
        invariant Valid() && old(trace) <= trace
        decreases n
      {
        var a: Action := *;
        match a {
          case Foreign(w) => ForeignClientWrites(w);
          case Action(who, event) => InstallationMoves(who, event);
        }
        n := n - 1;
      }
    }

    method ForeignClientWrites(w: Write)
      requires Valid()
      modifies `retained, `trace
      ensures Valid() && old(trace) <= trace
    {
      var node := NodeLevel(w.topic);
      if node.Some? && (node.value in others || node.value == ID()) {
        return;
      }
      ghost var before := World();
      retained := Deliver(retained, w);
      TheyTook(Foreign(w), before);
    }

    method InstallationMoves(who: string, event: Event)
      requires Valid()
      modifies `retained, `others, `trace
      ensures Valid() && old(trace) <= trace
    {
      if who == ID() || who !in others {
        return;
      }
      var next := LocalStep(others[who], retained, event, codec);
      if next.None? {
        return;
      }
      ghost var before := World();
      retained, others := next.value.store, others[who := next.value.member];
      assert World().members == before.members[who := next.value.member];
      TheyTook(Action(who, event), before);
    }

    // ---------------------------------------------------------------- client

    /** The network decides whether the message arrives and what the token reports. */
    method Publish(topic: string, payload: string, retain: bool) returns (ok: bool, ghost delivered: bool)
      modifies `retained
      ensures retained == Deliver(old(retained), Write(topic, payload, retain, delivered, ok))
    {
      var arrives: bool := *;
      ok := *;
      delivered := arrives;
      retained := Deliver(retained, Write(topic, payload, retain, arrives, ok));
    }

    /** The scan of the device's own filter while others go on: it may fail, it may miss records, and it
        sees each record as it is at that moment. The result is the last retained payload of every topic
        over the deliveries that were handled. */
    method CollectRetained(filter: string) returns (collected: Option<Store>, ghost deliveries: seq<Message>)
      requires Valid() && own.phase == Collecting(map[]) && DiscoveryTopicFilter(ID()) == Some(filter)
      modifies `retained, `others, `own, `trace, `writes
      ensures Valid() && old(trace) <= trace && writes == old(writes)
      ensures own == old(own).(phase := if collected.Some? then Collecting(collected.value)
                                        else Publishing(old(own).All()))
      ensures collected.Some? ==> collected.value == LastRetained(deliveries)
      ensures collected.None? ==> Action(ID(), CollectFails) in trace[|old(trace)|..]
      ensures RecordsOf(deliveries, filter, old(World()), ID())
      ensures collected.Some? ==> forall t | t in collected.value :: Matches(filter, t)
      ensures collected.Some? && WellFormedFleet(old(World())) ==> Shows(collected.value, Own(old(retained), ID()))
    {
      ghost var world, from := World(), trace;
      var out: Store := map[];
      deliveries := [];
      var n: int := *;
      while n > 0
        invariant Valid() && from <= trace && writes == old(writes)
        invariant own == old(own).(phase := Collecting(out)) && out == LastRetained(deliveries)
        invariant RecordsOf(deliveries, filter, world, ID())
        decreases n
      {
        var m := Delivery(filter, world, from);
        NextMessage(deliveries, m);
        if m.retained {
          out := out[m.topic := m.payload];
          Took(Collect(m.topic), retained);
        }
        deliveries := deliveries + [m];
        n := n - 1;
      }
      CollectedRecords(deliveries, filter, world, ID());
      OthersMove();
      var failed: bool := *;
      if failed {
        Took(CollectFails, retained);
        assert trace[|trace| - 1] == Action(ID(), CollectFails);
        return None, deliveries;
      }
      return Some(out), deliveries;
    }

    /** Others move, and then a message comes in under the filter: a live one, or a record of the store. */
    method Delivery(filter: string, ghost world: Fleet, ghost from: seq<Action>) returns (m: Message)
      requires Valid() && own.phase.Collecting? && DiscoveryTopicFilter(ID()) == Some(filter)
      requires from <= trace && Run(start, from, codec) == Some(world) && ID() in world.members
      requires writes == OwnWrites(start, from, codec, ID())
      modifies `retained, `others, `trace
      ensures Valid() && from <= trace
      ensures m.retained ==> m.topic in retained && retained[m.topic] == m.payload
      ensures IsRecordOf(m, filter, world, ID())
    {
      OthersMove();
      m := *;
      if m.retained {
        if m.topic in retained && Matches(filter, m.topic) {
          OwnRecord(world, from, filter, m.topic);
          m := m.(payload := retained[m.topic]);
        } else {
          m := m.(retained := false);
        }
      }
    }

    /** A record under the filter is as it was when the call began, if nobody strays from their node. */
    lemma OwnRecord(world: Fleet, from: seq<Action>, filter: string, t: string)
      requires Valid() && from <= trace && Run(start, from, codec) == Some(world) && ID() in world.members
      requires writes == OwnWrites(start, from, codec, ID())
      requires t in retained && DiscoveryTopicFilter(ID()) == Some(filter) && Matches(filter, t)
      ensures WellFormedFleet(world) ==> t in Own(world.store, ID()) && retained[t] == Own(world.store, ID())[t]
    {
      if WellFormedFleet(world) {
        OwnNodeSince(world, from);
        assert writes[|writes|..] == [];
        MatchedIsOwn(ID(), t);
        assert t in Own(retained, ID());
      }
    }

    /** Since an earlier point of the trace the own node has changed by the own messages alone. */
    lemma OwnNodeSince(world: Fleet, from: seq<Action>)
      requires Valid() && from <= trace && Run(start, from, codec) == Some(world) && ID() in world.members
      requires WellFormedFleet(world)
      ensures OwnWrites(start, from, codec, ID()) <= writes && WellFormedFleet(World())
      ensures Own(retained, ID()) == Replay(Own(world.store, ID()), writes[|OwnWrites(start, from, codec, ID())|..])
    {
      var since := trace[|from|..];
      assert trace == from + since;
      RunAppend(start, from, since, codec);
      OwnWritesAppend(start, from, since, codec, ID());
      OwnNodeStore(world, since, codec, ID());
    }

    /** If nobody else moved, the own messages are all that happened to the broker. */
    lemma AloneSince(world: Fleet, from: seq<Action>)
      requires Valid() && from <= trace && Run(start, from, codec) == Some(world)
      requires forall a | a in trace[|from|..] :: a.By(ID())
      ensures OwnWrites(start, from, codec, ID()) <= writes
      ensures retained == Replay(world.store, writes[|OwnWrites(start, from, codec, ID())|..])
    {
      var since := trace[|from|..];
      assert trace == from + since;
      RunAppend(start, from, since, codec);
      OwnWritesAppend(start, from, since, codec, ID());
      AloneStore(world, since, codec, ID());
    }

    method PurgeStaleDiscovery(desired: set<string>) returns (ghost snapshot: Option<Store>, ghost purge: seq<Write>)
      requires Valid() && own.phase == Idle && desired == TopicsOf(own.All())
      modifies `retained, `others, `own, `trace, `writes
      ensures Valid() && old(trace) <= trace && writes == old(writes) + purge
      ensures own == old(own).(phase := Publishing(old(own).All()))
      ensures SafeLevel(ID()) && snapshot.None? ==> Action(ID(), CollectFails) in trace[|old(trace)|..]
      ensures Purges(snapshot, purge, desired, ID(), codec)
      ensures snapshot.Some? && WellFormedFleet(old(World())) ==> Shows(snapshot.value, Own(old(retained), ID()))
    {
      snapshot, purge := None, [];
      var filter := DiscoveryTopicFilter(ID());
      ghost var world := World();
      Took(Begin(true), retained);
      if filter.None? {
        return;
      }
      BeginKeepsWellFormed(world);
      snapshot, purge := ScanAndPurge(filter.value, desired);
    }

    method ScanAndPurge(filter: string, desired: set<string>)
      returns (ghost snapshot: Option<Store>, ghost purge: seq<Write>)
      requires Valid() && own.phase == Collecting(map[]) && desired == TopicsOf(own.All())
      requires DiscoveryTopicFilter(ID()) == Some(filter)
      modifies `retained, `others, `own, `trace, `writes
      ensures Valid() && old(trace) <= trace && writes == old(writes) + purge
      ensures own == old(own).(phase := Publishing(old(own).All()))
      ensures snapshot.None? ==> Action(ID(), CollectFails) in trace[|old(trace)|..]
      ensures Purges(snapshot, purge, desired, ID(), codec)
      ensures snapshot.Some? && WellFormedFleet(old(World())) ==> Shows(snapshot.value, Own(old(retained), ID()))
    {
      snapshot, purge := None, [];
      var collected;
      ghost var deliveries;
      collected, deliveries := CollectRetained(filter);
      if collected.None? {
        return;
      }
      snapshot := collected;
      purge := PlanAndPurge(collected.value, desired);
    }

    method PlanAndPurge(collected: Store, desired: set<string>) returns (ghost purge: seq<Write>)
      requires Valid() && own.phase == Collecting(collected) && desired == TopicsOf(own.All())
      modifies `retained, `others, `own, `trace, `writes
      ensures Valid() && old(trace) <= trace && writes == old(writes) + purge
      ensures own == old(own).(phase := Publishing(old(own).All()))
      ensures IsPurge(purge, StaleTopics(collected, desired, ID(), codec))
    {
      var plan := PlanDiscoveryCleanup(collected, desired, ID(), codec);
      Took(PlanPurge, retained);
      purge := PurgeAll(plan.staleTopics);
    }

    /** A call that begins leaves everybody well formed. */
    lemma BeginKeepsWellFormed(world: Fleet)
      requires ID() in world.members && World().members == world.members[ID() := own]
      requires own == world.members[ID()].(phase := Collecting(map[])) && SafeLevel(ID())
      ensures WellFormedFleet(world) ==> WellFormedFleet(World())
    {
      if WellFormedFleet(world) {
        forall id | id in World().members ensures WellFormed(World().members[id], id) {
          assert WellFormed(world.members[id], id);
        }
      }
    }

    /** Deletes the stale topics one by one, going on after errors. */
    method PurgeAll(stale: seq<string>) returns (ghost purge: seq<Write>)
      requires Valid() && Distinct(stale) && own.phase == Purging(Elements(stale))
      modifies `retained, `others, `own, `trace, `writes
      ensures Valid() && old(trace) <= trace && writes == old(writes) + purge
      ensures own == old(own).(phase := Publishing(old(own).All())) && IsPurge(purge, Elements(stale))
    {
      purge := [];
      var i := 0;
      assert stale[0..] == stale;
      while i < |stale|
        invariant 0 <= i <= |stale| && |purge| == i
        invariant Valid() && old(trace) <= trace && writes == old(writes) + purge
        invariant own == old(own).(phase := Purging(Elements(stale[i..])))
        invariant forall k | 0 <= k < i :: purge[k].topic == stale[k] && purge[k].payload == "" && purge[k].retain
      {
        RestOfStale(stale, i);
        ghost var w := PurgeOne(stale[i]);
        Associative(old(writes), purge, [w]);
        purge := purge + [w];
        i := i + 1;
      }
      PurgeTopics(purge, stale);
      OthersMove();
      Took(EndPurge, retained);
    }

    /** One deletion, after others may have moved; its error is only logged. */
    method PurgeOne(topic: string) returns (ghost w: Write)
      requires Valid() && own.phase.Purging? && topic in own.phase.stale
      modifies `retained, `others, `own, `trace, `writes
      ensures Valid() && old(trace) <= trace && writes == old(writes) + [w]
      ensures w == Write(topic, "", true, w.delivered, w.ok)
      ensures own == old(own).(phase := Purging(old(own).phase.stale - {topic}))
    {
      OthersMove();
      ghost var before := retained;
      ghost var delivered;
      var ok;
      ok, delivered := Publish(topic, "", true);
      w := Write(topic, "", true, delivered, ok);
      Took(Purge(topic, delivered, ok), before);
    }

    /** Announces every entity; on startup it clears the stale records first. Whatever happens on the
        broker meanwhile, the call is a run of the fleet; if everybody keeps to their node, the own node is
        the replay of the call's writes, and the scan saw records of it. */
    method PublishDiscovery(disks: seq<Disk>, numCores: nat, purgeStale: bool)
      returns (ok: bool, ghost snapshot: Option<Store>, ghost purge: seq<Write>, ghost announced: seq<Write>)
      requires Valid()
      modifies `retained, `others, `own, `trace, `writes
      ensures Valid() && old(trace) <= trace && own.phase == Idle
      ensures writes == old(writes) + purge + announced
      ensures snapshot.Some? ==> purgeStale
      ensures purgeStale && SafeLevel(ID()) && snapshot.None? ==> Action(ID(), CollectFails) in trace[|old(trace)|..]
      ensures Purges(snapshot, purge, TopicsOf(Publications(settings, disks, numCores)), ID(), codec)
      ensures IsAnnouncement(announced, Publications(settings, disks, numCores), codec, ok)
      ensures snapshot.Some? && WellFormedFleet(old(World())) ==> Shows(snapshot.value, Own(old(retained), ID()))
      ensures WellFormedFleet(old(World())) ==>
                Own(retained, ID()) == Replay(Replay(Own(old(retained), ID()), purge), announced)
      ensures WellFormedFleet(old(World())) ==>
                KeepsUnproven(Own(old(retained), ID()), Own(retained, ID()),
                              TopicsOf(Publications(settings, disks, numCores)), ID(), codec)
    {
      ghost var world, from := World(), trace;
      BeginCall(disks, numCores);
      var sensors := ListSensors(disks, numCores);
      var desired := DesiredTopics(sensors);
      if purgeStale {
        snapshot, purge := PurgeStaleDiscovery(desired);
      } else {
        snapshot, purge := None, [];
        Took(Begin(false), retained);
      }
      ok, announced := AnnounceAll(sensors);
      Associative(old(writes), purge, announced);
      OwnNodeAfter(world, from, purge, announced);
      if WellFormedFleet(world) {
        CallKeepsUnproven(Own(world.store, ID()), snapshot, purge, announced,
                          Publications(settings, disks, numCores), ID(), codec, ok);
      }
    }

    lemma OwnNodeAfter(world: Fleet, from: seq<Action>, a: seq<Write>, b: seq<Write>)
      requires Valid() && from <= trace && Run(start, from, codec) == Some(world) && ID() in world.members
      requires writes == OwnWrites(start, from, codec, ID()) + a + b
      ensures WellFormedFleet(world) ==> Own(retained, ID()) == Replay(Replay(Own(world.store, ID()), a), b)
    {
      if WellFormedFleet(world) {
        OwnNodeSince(world, from);
        assert writes[|OwnWrites(start, from, codec, ID())|..] == a + b;
        ReplayAppend(Own(world.store, ID()), a, b);
      }
    }

    /** The arguments of the call. */
    ghost method BeginCall(disks: seq<Disk>, numCores: nat)
      requires Valid()
      modifies `own, `trace, `writes
      ensures Valid() && old(trace) <= trace && writes == old(writes)
      ensures own == Member(settings, disks, numCores, Idle)
      ensures WellFormedFleet(old(World())) ==> WellFormedFleet(World())
    {
      var world := World();
      Took(Restart(settings, disks, numCores), retained);
      if WellFormedFleet(world) {
        forall id | id in World().members ensures WellFormed(World().members[id], id) {
          assert WellFormed(world.members[id], id);
        }
      }
    }

    method AnnounceAll(sensors: seq<string>) returns (ok: bool, ghost announced: seq<Write>)
      requires Valid() && own.phase == Publishing(Announcements(settings, sensors))
      modifies `retained, `others, `own, `trace, `writes
      ensures Valid() && old(trace) <= trace && writes == old(writes) + announced
      ensures own == old(own).(phase := Idle)
      ensures IsAnnouncement(announced, SensorAnnouncements(settings, sensors) + UpdatePublications(settings),
                             codec, ok)
    {
      var ps := SensorAnnouncements(settings, sensors);
      ghost var us := UpdatePublications(settings);
      ok, announced := PublishEach(ps, us);
      if !ok {
        AnnouncementStops(announced, ps, us, codec);
        return;
      }
      ghost var before := announced;
      ghost var after;
      ok, after := PublishUpdates();
      announced := before + after;
      AnnouncementContinues(before, after, ps, us, codec, ok);
      Associative(old(writes), before, after);
    }

    /** Publishes in order and gives up at the first error. */
    method PublishEach(ps: seq<Publication>, ghost later: seq<Publication>)
      returns (ok: bool, ghost announced: seq<Write>)
      requires Valid() && own.phase == Publishing(ps + later)
      modifies `retained, `others, `own, `trace, `writes
      ensures Valid() && old(trace) <= trace && writes == old(writes) + announced
      ensures own == old(own).(phase := if ok then Publishing(later) else Idle)
      ensures IsAnnouncement(announced, ps, codec, ok)
    {
      announced, ok := [], true;
      assert ps[0..] == ps;
      for i := 0 to |ps|
        invariant |announced| == i && ok
        invariant Valid() && old(trace) <= trace && writes == old(writes) + announced
        invariant own == old(own).(phase := Publishing(ps[i..] + later))
        invariant IsAnnouncement(announced, ps[..i], codec, true)
      {
        ghost var w;
        ok, w := PublishNext(ps[i], ps[i + 1..] + later);
        AnnouncementNext(announced, ps, w, codec, ok);
        Associative(old(writes), announced, [w]);
        announced := announced + [w];
        if !ok {
          return;
        }
      }
      assert ps[..|ps|] == ps && ps[|ps|..] + later == later;
    }

    /** One announcement, after others may have moved. */
    method PublishNext(p: Publication, ghost rest: seq<Publication>) returns (ok: bool, ghost w: Write)
      requires Valid() && own.phase.Publishing? && own.phase.rest != [] && own.phase.rest[0] == p
      requires own.phase.rest[1..] == rest
      modifies `retained, `others, `own, `trace, `writes
      ensures Valid() && old(trace) <= trace && writes == old(writes) + [w]
      ensures w == Write(p.topic, codec.encode(p.entity), true, w.delivered, ok)
      ensures own == old(own).(phase := if ok then Publishing(rest) else Idle)
    {
      OthersMove();
      ghost var before := retained;
      ghost var delivered;
      ok, delivered := Publish(p.topic, codec.encode(p.entity), true);
      w := Write(p.topic, codec.encode(p.entity), true, delivered, ok);
      Took(Event.Publish(delivered, ok), before);
    }

    method PublishUpdates() returns (ok: bool, ghost announced: seq<Write>)
      requires Valid() && own.phase == Publishing(UpdatePublications(settings))
      modifies `retained, `others, `own, `trace, `writes
      ensures Valid() && old(trace) <= trace && writes == old(writes) + announced
      ensures own == old(own).(phase := Idle)
      ensures IsAnnouncement(announced, UpdatePublications(settings), codec, ok)
    {
      ghost var us := UpdatePublications(settings);
      ghost var w;
      ok, w := PublishNext(ZimaOSUpdatePublication(settings), us[1..]);
      announced := [w];
      if !ok {
        return;
      }
      ghost var last;
      ok, last := PublishMonitorUpdate();
      announced := [w] + last;
      Associative(old(writes), [w], last);
    }

    /** The monitor's own entity, if enabled, and the end of the call. */
    method PublishMonitorUpdate() returns (ok: bool, ghost announced: seq<Write>)
      requires Valid() && own.phase == Publishing(UpdatePublications(settings)[1..])
      modifies `retained, `others, `own, `trace, `writes
      ensures Valid() && old(trace) <= trace && writes == old(writes) + announced
      ensures own == old(own).(phase := Idle)
      ensures IsAnnouncement(announced, UpdatePublications(settings)[1..], codec, ok)
    {
      ok, announced := true, [];
      if settings.monitorUpdates {
        ghost var w;
        ok, w := PublishNext(MonitorUpdatePublication(settings), []);
        announced := [w];
        if !ok {
          return;
        }
      }
      OthersMove();
      Took(Finish, retained);
    }

    /** The sensor list, grown group by group. */
    method ListSensors(disks: seq<Disk>, numCores: nat) returns (sensors: seq<string>)
      ensures sensors == Sensors(disks, numCores)
      ensures |sensors| == 10 + 4 * |disks| + numCores
    {
      ghost var all := Sensors(disks, numCores);
      sensors := FIXED_KEYS;
      FixedFirst(disks, numCores);
      for d := 0 to |disks|
        invariant sensors == all[..10 + 4 * d]
      {
        sensors := sensors + DiskSensors(disks[d]);
        FourMore(disks, numCores, d);
      }
      for i := 0 to numCores
        invariant sensors == all[..10 + 4 * |disks| + i]
      {
        sensors := sensors + [CoreSensor(i)];
        OneMore(disks, numCores, i);
      }
      assert all[..|all|] == all;
    }

    /** The set of topics about to be published, built before the purge. */
    method DesiredTopics(sensors: seq<string>) returns (desired: set<string>)
      ensures desired == TopicsOf(Announcements(settings, sensors))
    {
      desired := {};
      ghost var ps := Announcements(settings, sensors);
      for i := 0 to |sensors|
        invariant desired == TopicsOf(ps[..i])
      {
        desired := desired + {DiscoveryTopic("sensor", settings.device.id, UniqueID(settings.device.id, sensors[i]))};
        TopicsOfNext(ps, i);
      }
      desired := desired + {DiscoveryTopic("update", settings.device.id, "zimaos_version")};
      TopicsOfNext(ps, |sensors|);
      if settings.monitorUpdates {
        desired := desired + {DiscoveryTopic("update", settings.device.id, "zimaos_monitor")};
        TopicsOfNext(ps, |sensors| + 1);
      }
      assert ps[..|ps|] == ps;
    }
  }

  /** EXACTNESS OF A CALL. If the scan of a call saw every record of the own node under the filter and
      every write arrived, the call has left the node as the exactness theorem says. `before` and `after`
      are the own node as PublishDiscovery relates them. */
  lemma CompleteCallIsExact(before: Store, after: Store, settings: Settings, disks: seq<Disk>, numCores: nat,
                            codec: Codec, purge: seq<Write>, announced: seq<Write>)
    requires ValidStore(before) && SafeLevel(settings.device.id) && FlatNames(disks) && NonEmptyEncoding(codec)
    requires var id, ps := settings.device.id, Publications(settings, disks, numCores);
             && Purges(Some(Under(before, id)), purge, TopicsOf(ps), id, codec)
             && IsAnnouncement(announced, ps, codec, true)
    requires forall w | w in purge + announced :: w.delivered
    requires after == Replay(Replay(before, purge), announced)
    ensures Exact(before, after, settings.device.id, Publications(settings, disks, numCores), codec)
  {
    StartupIsExact(before, after, settings, disks, numCores, codec, purge, announced);
  }

  lemma OwnStepIsStep(others: map<string, Member>, id: string, own: Member, store: Store, ev: Event, codec: Codec)
    requires LocalStep(own, store, ev, codec).Some?
    ensures var next := LocalStep(own, store, ev, codec).value;
            && Step(Fleet(store, others[id := own]), Action(id, ev), codec)
                 == Some(Fleet(next.store, others[id := next.member]))
            && SentBy(Fleet(store, others[id := own]), Action(id, ev), codec, id) == Sent(own, ev, codec)
  {
    var next := LocalStep(own, store, ev, codec).value;
    assert others[id := own][id := next.member] == others[id := next.member];
  }

  lemma SettingsStay(m: Member, store: Store, ev: Event, codec: Codec)
    requires LocalStep(m, store, ev, codec).Some? && (ev.Restart? ==> ev.settings == m.settings)
    ensures LocalStep(m, store, ev, codec).value.member.settings == m.settings
  {}

  lemma StepIsRecorded(start: Fleet, trace: seq<Action>, a: Action, codec: Codec, id: string)
    requires Run(start, trace, codec).Some? && Step(Run(start, trace, codec).value, a, codec).Some?
    ensures Run(start, trace + [a], codec) == Step(Run(start, trace, codec).value, a, codec)
    ensures OwnWrites(start, trace + [a], codec, id)
         == OwnWrites(start, trace, codec, id) + SentBy(Run(start, trace, codec).value, a, codec, id)
  {
    var world := Run(start, trace, codec).value;
    RunNext(start, trace, a, codec);
    OwnWritesAppend(start, trace, [a], codec, id);
    assert [a][1..] == [];
    assert OwnWrites(world, [a], codec, id) == SentBy(world, a, codec, id) + [];
  }

  lemma RestOfStale(stale: seq<string>, i: nat)
    requires Distinct(stale) && i < |stale|
    ensures stale[i] in Elements(stale[i..]) && Elements(stale[i..]) - {stale[i]} == Elements(stale[i + 1..])
  {
    assert stale[i..] == [stale[i]] + stale[i + 1..];
    forall k | i < k < |stale| ensures stale[k] != stale[i] {}
  }

  lemma AnnouncementContinues(a: seq<Write>, b: seq<Write>, p: seq<Publication>, q: seq<Publication>,
                              codec: Codec, ok: bool)
    requires IsAnnouncement(a, p, codec, true) && IsAnnouncement(b, q, codec, ok) && q != []
    ensures IsAnnouncement(a + b, p + q, codec, ok)
  {}

  lemma AnnouncementNext(a: seq<Write>, ps: seq<Publication>, w: Write, codec: Codec, ok: bool)
    requires |a| < |ps| && IsAnnouncement(a, ps[..|a|], codec, true)
    requires w == Write(ps[|a|].topic, codec.encode(ps[|a|].entity), true, w.delivered, ok)
    ensures IsAnnouncement(a + [w], if ok then ps[..|a| + 1] else ps, codec, ok)
  {}

  lemma AnnouncementStops(a: seq<Write>, p: seq<Publication>, q: seq<Publication>, codec: Codec)
    requires IsAnnouncement(a, p, codec, false)
    ensures IsAnnouncement(a, p + q, codec, false)
  {}

  lemma TopicsOfNext(ps: seq<Publication>, i: nat)
    requires i < |ps|
    ensures TopicsOf(ps[..i + 1]) == TopicsOf(ps[..i]) + {ps[i].topic}
  {
    assert ps[..i + 1] == ps[..i] + [ps[i]];
    forall t | t in TopicsOf(ps[..i]) ensures t in TopicsOf(ps[..i + 1]) {
      var p :| p in ps[..i] && p.topic == t;
      assert p in ps[..i + 1];
    }
    assert ps[i] in ps[..i + 1];
  }

  lemma FixedFirst(disks: seq<Disk>, numCores: nat)
    ensures FIXED_KEYS == Sensors(disks, numCores)[..10]
  {}

  lemma FourMore(disks: seq<Disk>, numCores: nat, d: nat)
    requires d < |disks|
    ensures var all := Sensors(disks, numCores);
            all[..10 + 4 * d] + DiskSensors(disks[d]) == all[..10 + 4 * (d + 1)]
  {
    var all, n := Sensors(disks, numCores), 10 + 4 * d;
    forall k | 0 <= k < 4 ensures all[n..][k] == DiskSensors(disks[d])[k] {
      FourAt(disks, numCores, d, k);
    }
    AppendNext(all, n, DiskSensors(disks[d]));
  }

  lemma FourAt(disks: seq<Disk>, numCores: nat, d: nat, k: nat)
    requires d < |disks| && k < 4
    ensures Sensors(disks, numCores)[10 + 4 * d..][k] == DiskSensors(disks[d])[k]
  {
    var i := 10 + 4 * d + k;
    assert (i - 10) / 4 == d && (i - 10) % 4 == k;
    assert Sensors(disks, numCores)[i] == SensorAt(disks, i) == DiskSensor(disks[d], k);
  }

  lemma AppendNext<T>(all: seq<T>, n: nat, next: seq<T>)
    requires n + |next| <= |all|
    requires forall k | 0 <= k < |next| :: all[n..][k] == next[k]
    ensures all[..n] + next == all[..n + |next|]
  {}

  lemma OneMore(disks: seq<Disk>, numCores: nat, i: nat)
    requires i < numCores
    ensures var all := Sensors(disks, numCores);
            all[..10 + 4 * |disks| + i] + [CoreSensor(i)] == all[..10 + 4 * |disks| + i + 1]
  {}

  lemma PurgeTopics(purge: seq<Write>, stale: seq<string>)
    requires |purge| == |stale| && Distinct(stale)
    requires forall k | 0 <= k < |stale| :: purge[k].topic == stale[k] && purge[k].payload == "" && purge[k].retain
    ensures IsPurge(purge, Elements(stale))
  {
    forall t | t in Elements(stale) ensures t in (set w | w in purge :: w.topic) {
      var k :| 0 <= k < |stale| && stale[k] == t;
      assert purge[k] in purge;
    }
  }
}
