/** Retained records on the broker, and how startup discovery classifies those under the device's filter
    as stale, ambiguous or preserved. */
module Discovery {
  import opened Text
  import opened Topics
  import opened Entities

  // ------------------------------------------------------------- broker store

  /** The retained messages of a broker. */
  type Store = map<string, string>

  /** One publish attempt: whether the broker received it and whether the client reported success. */
  datatype Write = Write(topic: string, payload: string, retain: bool, delivered: bool, ok: bool)

  /** Section 3.3.1.3 of MQTT 3.1.1: a retained publication replaces the retained message of its
      topic, an empty one removes it. */
  function Deliver(store: Store, w: Write): Store
  {
    if !w.delivered || !w.retain then store
    else if w.payload == "" then store - {w.topic}
    else store[w.topic := w.payload]
  }

  function Replay(store: Store, writes: seq<Write>): Store
  {
    if writes == [] then store
    else Deliver(Replay(store, writes[..|writes| - 1]), writes[|writes| - 1])
  }

  /** A broker never retains an empty payload. */
  predicate ValidStore(store: Store)
  {
    forall t | t in store :: store[t] != ""
  }

  function Matching(store: Store, filter: string): Store
  {
    map t | t in store && Matches(filter, t) :: store[t]
  }

  // ------------------------------------------------------------------ payloads

  const ORIGIN_NAME := "zimaos-monitor"

  /** The part of a discovery payload that the cleanup reads back. */
  datatype Probe = Probe(origin: string, identifiers: seq<string>)

  /** JSON as the code uses it: entities are encoded, payloads may decode to a probe. */
  datatype Codec = Codec(encode: Entity -> string, decode: string -> Option<Probe>)

  ghost predicate NonEmptyEncoding(codec: Codec)
  {
    forall e :: codec.encode(e) != ""
  }

  /** Decoding an encoded entity gives the origin and the device identifier that were put in. */
  ghost predicate FaithfulEncoding(codec: Codec)
  {
    && NonEmptyEncoding(codec)
    && forall e :: codec.decode(codec.encode(e)) == Some(Probe(ORIGIN_NAME, [e.device.id]))
  }

  // ------------------------------------------------------------ classification

  predicate Owned(payload: string, deviceID: string, codec: Codec)
  {
    var probe := codec.decode(payload);
    probe.Some? && probe.value.origin == ORIGIN_NAME && deviceID in probe.value.identifiers
  }

  /** A record in the device's own node that the current entities do not claim. */
  predicate Unclaimed(topic: string, payload: string, desired: set<string>, deviceID: string)
  {
    var parsed := ParseDiscoveryTopic(topic);
    parsed.Some? && parsed.value.node == deviceID && payload != "" && topic !in desired
  }

  /** Topic and payload both prove ownership by the current device, and nothing claims the topic. */
  predicate IsStale(topic: string, payload: string, desired: set<string>, deviceID: string, codec: Codec)
  {
    Unclaimed(topic, payload, desired, deviceID) && Owned(payload, deviceID, codec)
  }

  predicate IsAmbiguous(topic: string, payload: string, desired: set<string>, deviceID: string, codec: Codec)
  {
    || ParseDiscoveryTopic(topic).None?
    || (Unclaimed(topic, payload, desired, deviceID) && !Owned(payload, deviceID, codec))
  }

  function StaleTopics(collected: Store, desired: set<string>, deviceID: string, codec: Codec): set<string>
  {
    set t | t in collected && IsStale(t, collected[t], desired, deviceID, codec)
  }

  function AmbiguousTopics(collected: Store, desired: set<string>, deviceID: string, codec: Codec): set<string>
  {
    set t | t in collected && IsAmbiguous(t, collected[t], desired, deviceID, codec)
  }

  /** A discovery topic of the node: five levels, none of them empty. */
  ghost predicate InNode(topic: string, node: string)
  {
    exists component, entity | component != "" && node != "" && entity != "" ::
      Split(topic, '/') == ["homeassistant", component, node, entity, "config"]
  }

  /** The payload names this program as its origin and the device among its identifiers. */
  ghost predicate ProvesOwner(payload: string, deviceID: string, codec: Codec)
  {
    exists identifiers | deviceID in identifiers ::
      codec.decode(payload) == Some(Probe("zimaos-monitor", identifiers))
  }

  lemma InNodeExactly(topic: string, node: string)
    ensures InNode(topic, node)
       <==> ParseDiscoveryTopic(topic).Some? && ParseDiscoveryTopic(topic).value.node == node
  {
    var l := Split(topic, '/');
    if ParseDiscoveryTopic(topic).Some? {
      assert l == ["homeassistant", l[1], l[2], l[3], "config"];
    }
  }

  lemma OwnedExactly(payload: string, deviceID: string, codec: Codec)
    ensures Owned(payload, deviceID, codec) <==> ProvesOwner(payload, deviceID, codec)
  {
    if Owned(payload, deviceID, codec) {
      var probe := codec.decode(payload).value;
      assert codec.decode(payload) == Some(Probe("zimaos-monitor", probe.identifiers));
    }
  }

  /** WHAT IS DELETED. A record is stale exactly when its topic lies in the device's node, nothing claims
      it, and its payload proves that this program wrote it for this device. */
  lemma StaleExactly(topic: string, payload: string, desired: set<string>, deviceID: string, codec: Codec)
    ensures IsStale(topic, payload, desired, deviceID, codec)
       <==> && InNode(topic, deviceID) && topic !in desired && payload != ""
            && ProvesOwner(payload, deviceID, codec)
  {
    InNodeExactly(topic, deviceID);
    OwnedExactly(payload, deviceID, codec);
  }

  /** It is ambiguous exactly when it is no discovery topic, or nothing claims it although it lies in the
      device's node, and its payload does not prove that. */
  lemma AmbiguousExactly(topic: string, payload: string, desired: set<string>, deviceID: string, codec: Codec)
    ensures IsAmbiguous(topic, payload, desired, deviceID, codec)
       <==> || (forall node :: !InNode(topic, node))
            || (InNode(topic, deviceID) && topic !in desired && payload != ""
                && !ProvesOwner(payload, deviceID, codec))
  {
    forall node ensures InNode(topic, node)
                   <==> ParseDiscoveryTopic(topic).Some? && ParseDiscoveryTopic(topic).value.node == node
    {
      InNodeExactly(topic, node);
    }
    OwnedExactly(payload, deviceID, codec);
    if ParseDiscoveryTopic(topic).Some? {
      assert InNode(topic, ParseDiscoveryTopic(topic).value.node);
    }
  }

  datatype CleanupPlan = CleanupPlan(staleTopics: seq<string>, ambiguousTopics: seq<string>)

  function Elements(s: seq<string>): set<string> { set x | x in s }

  /** The loop visits the collected records in any order. Whatever the order, the plan lists exactly
      the stale and the ambiguous topics, each once. */
  method PlanDiscoveryCleanup(collected: Store, desired: set<string>, deviceID: string, codec: Codec)
    returns (plan: CleanupPlan)
    ensures Elements(plan.staleTopics) == StaleTopics(collected, desired, deviceID, codec)
    ensures Elements(plan.ambiguousTopics) == AmbiguousTopics(collected, desired, deviceID, codec)
    ensures Distinct(plan.staleTopics) && Distinct(plan.ambiguousTopics)
    ensures Elements(plan.staleTopics) !! Elements(plan.ambiguousTopics)
    ensures forall t :: t in plan.staleTopics
                   <==> && t in collected && InNode(t, deviceID) && t !in desired && collected[t] != ""
                        && ProvesOwner(collected[t], deviceID, codec)
  {
    forall t | t in collected ensures IsStale(t, collected[t], desired, deviceID, codec)
                                 <==> && InNode(t, deviceID) && t !in desired && collected[t] != ""
                                      && ProvesOwner(collected[t], deviceID, codec)
    {
      StaleExactly(t, collected[t], desired, deviceID, codec);
    }
    plan := CleanupPlan([], []);
    var pending := collected.Keys;
    while pending != {}
      invariant pending <= collected.Keys
      invariant forall t :: t in plan.staleTopics
                       <==> t in collected && t !in pending && IsStale(t, collected[t], desired, deviceID, codec)
      invariant forall t :: t in plan.ambiguousTopics
                       <==> t in collected && t !in pending && IsAmbiguous(t, collected[t], desired, deviceID, codec)
      invariant Distinct(plan.staleTopics) && Distinct(plan.ambiguousTopics)
    {
      var topic :| topic in pending;
      pending := pending - {topic};
      var payload := collected[topic];
      var parsed := ParseDiscoveryTopic(topic);
      if parsed.None? {
        plan := plan.(ambiguousTopics := plan.ambiguousTopics + [topic]);
        continue;
      }
      if parsed.value.node != deviceID || |payload| == 0 {
        continue;
      }
      if topic in desired {
        continue;
      }
      var probe := codec.decode(payload);
      if probe.None? {
        plan := plan.(ambiguousTopics := plan.ambiguousTopics + [topic]);
        continue;
      }
      var owned := probe.value.origin == ORIGIN_NAME;
      if owned {
        owned := HasIdentifier(probe.value.identifiers, deviceID);
      }
      if !owned {
        plan := plan.(ambiguousTopics := plan.ambiguousTopics + [topic]);
        continue;
      }
      plan := plan.(staleTopics := plan.staleTopics + [topic]);
    }
  }

  method HasIdentifier(identifiers: seq<string>, deviceID: string) returns (owned: bool)
    ensures owned <==> deviceID in identifiers
  {
    owned := false;
    for i := 0 to |identifiers|
      invariant !owned && deviceID !in identifiers[..i]
    {
      if identifiers[i] == deviceID {
        owned := true;
        break;
      }
    }
  }

  // --------------------------------------------------------------------- calls

  /** The writes are retained deletions of exactly these topics, each once. */
  predicate IsPurge(writes: seq<Write>, stale: set<string>)
  {
    && (forall w | w in writes :: w.payload == "" && w.retain)
    && (set w | w in writes :: w.topic) == stale
    && (forall i, j | 0 <= i < j < |writes| :: writes[i].topic != writes[j].topic)
  }

  /** The writes announce the publications in order, up to the first reported error. */
  predicate IsAnnouncement(writes: seq<Write>, publications: seq<Publication>, codec: Codec, ok: bool)
  {
    && |writes| <= |publications|
    && (forall i | 0 <= i < |writes| ::
          && writes[i].topic == publications[i].topic
          && writes[i].payload == codec.encode(publications[i].entity)
          && writes[i].retain
          && (writes[i].ok <==> (i + 1 < |writes| || ok)))
    && (ok ==> |writes| == |publications|)
    && (!ok ==> writes != [])
  }

  lemma Associative<T>(a: seq<T>, b: seq<T>, c: seq<T>)
    ensures a + b + c == a + (b + c)
  {}

  lemma ReplayNext(store: Store, a: seq<Write>, w: Write)
    ensures Replay(store, a + [w]) == Deliver(Replay(store, a), w)
  {
    assert (a + [w])[..|a|] == a;
  }

  lemma {:induction false} ReplayAppend(store: Store, a: seq<Write>, b: seq<Write>)
    ensures Replay(store, a + b) == Replay(Replay(store, a), b)
  {
    if b == [] {
      assert a + b == a;
    } else {
      ReplayAppend(store, a, b[..|b| - 1]);
      assert (a + b)[..|a + b| - 1] == a + b[..|b| - 1];
    }
  }

  lemma {:induction false} ReplayElsewhere(store: Store, writes: seq<Write>, t: string)
    requires forall w | w in writes :: w.topic != t
    ensures t in Replay(store, writes) <==> t in store
    ensures t in store ==> Replay(store, writes)[t] == store[t]
  {
    if writes != [] {
      ReplayElsewhere(store, writes[..|writes| - 1], t);
      assert writes[|writes| - 1] in writes;
    }
  }

  /** A record that does not prove this program and this device to be its owner is not deleted, and not
      changed unless it is announced. `collected` are records of the store. */
  lemma UnprovenSurvives(before: Store, collected: Store, purge: seq<Write>, announced: seq<Write>,
                         ps: seq<Publication>, deviceID: string, codec: Codec, ok: bool, t: string)
    requires t in before && (t in collected ==> collected[t] == before[t])
    requires IsPurge(purge, StaleTopics(collected, TopicsOf(ps), deviceID, codec))
    requires IsAnnouncement(announced, ps, codec, ok)
    requires !ProvesOwner(before[t], deviceID, codec) && t !in TopicsOf(ps)
    ensures var after := Replay(Replay(before, purge), announced);
            t in after && after[t] == before[t]
  {
    if t in collected {
      StaleExactly(t, collected[t], TopicsOf(ps), deviceID, codec);
    }
    forall w | w in purge ensures w.topic != t {
      assert w.topic in (set v | v in purge :: v.topic);
      assert w.topic in StaleTopics(collected, TopicsOf(ps), deviceID, codec);
    }
    forall w | w in announced ensures w.topic != t {
      var i :| 0 <= i < |announced| && announced[i] == w;
      assert ps[i] in ps && ps[i].topic == w.topic;
    }
    ReplayElsewhere(before, purge, t);
    ReplayElsewhere(Replay(before, purge), announced, t);
  }
}
