/** What a complete startup run leaves on the broker: exactly the current entities and the records
    that are not provably the device's own, whatever was there before. */
module Startup {
  import opened Text
  import opened Topics
  import opened Entities
  import opened Discovery

  function FilterOf(id: string): string
    requires SafeLevel(id)
  {
    DiscoveryTopicFilter(id).value
  }

  /** The retained records under the device's own filter. */
  function Under(store: Store, id: string): Store
    requires SafeLevel(id)
  {
    Matching(store, FilterOf(id))
  }

  /** A run whose scan saw every record under the filter and whose writes all arrived. */
  ghost predicate CompleteRun(store: Store, final: Store, id: string, ps: seq<Publication>, codec: Codec,
                              purge: seq<Write>, announced: seq<Write>)
    requires SafeLevel(id)
  {
    && IsPurge(purge, StaleTopics(Under(store, id), TopicsOf(ps), id, codec))
    && IsAnnouncement(announced, ps, codec, true)
    && (forall w | w in purge + announced :: w.delivered)
    && final == Replay(Replay(store, purge), announced)
  }

  /** The stored payload of a topic encodes one of the publications for it. */
  ghost predicate Announces(store: Store, topic: string, ps: seq<Publication>, codec: Codec)
  {
    topic in store && exists p | p in ps :: p.topic == topic && store[topic] == codec.encode(p.entity)
  }

  lemma {:induction false} PurgeEffect(store: Store, purge: seq<Write>)
    requires forall w | w in purge :: w.payload == "" && w.retain && w.delivered
    ensures Replay(store, purge) == store - set w | w in purge :: w.topic
  {
    if purge != [] {
      var front, last := purge[..|purge| - 1], purge[|purge| - 1];
      PurgeEffect(store, front);
      assert purge == front + [last];
      assert (set w | w in purge :: w.topic) == (set w | w in front :: w.topic) + {last.topic};
    }
  }

  lemma {:induction false} AnnounceEffect(store: Store, writes: seq<Write>)
    requires forall w | w in writes :: w.payload != "" && w.retain && w.delivered
    ensures var final, topics := Replay(store, writes), set w | w in writes :: w.topic;
            && final.Keys == store.Keys + topics
            && (forall t | t in store && t !in topics :: final[t] == store[t])
            && (forall t | t in topics :: exists w | w in writes :: w.topic == t && final[t] == w.payload)
  {
    if writes != [] {
      var front, last := writes[..|writes| - 1], writes[|writes| - 1];
      AnnounceEffect(store, front);
      assert writes == front + [last];
      assert (set w | w in writes :: w.topic) == (set w | w in front :: w.topic) + {last.topic};
    }
  }

  /** The announced writes name exactly the desired topics, with the encoded entities. */
  lemma AnnouncedTopics(announced: seq<Write>, publications: seq<Publication>, codec: Codec)
    requires IsAnnouncement(announced, publications, codec, true)
    ensures (set w | w in announced :: w.topic) == TopicsOf(publications)
    ensures forall w | w in announced ::
              exists p | p in publications :: p.topic == w.topic && codec.encode(p.entity) == w.payload && w.retain
  {
    forall w | w in announced
      ensures exists p | p in publications :: p.topic == w.topic && codec.encode(p.entity) == w.payload && w.retain
    {
      var i :| 0 <= i < |announced| && announced[i] == w;
      assert publications[i] in publications;
    }
    forall t | t in TopicsOf(publications) ensures t in (set w | w in announced :: w.topic) {
      var i :| 0 <= i < |publications| && publications[i].topic == t;
      assert announced[i] in announced;
    }
  }

  /** The stale records are gone, the publications are there, everything else is as it was. */
  ghost predicate Refreshed(store: Store, final: Store, id: string, ps: seq<Publication>, codec: Codec)
    requires SafeLevel(id)
  {
    var desired := TopicsOf(ps);
    var stale := StaleTopics(Under(store, id), desired, id, codec);
    && final.Keys == (store.Keys - stale) + desired
    && (forall t | t in store && t !in stale && t !in desired :: final[t] == store[t])
    && (forall t | t in desired :: Announces(final, t, ps, codec))
  }

  lemma RunEffect(store: Store, final: Store, id: string, ps: seq<Publication>, codec: Codec,
                  purge: seq<Write>, announced: seq<Write>)
    requires SafeLevel(id) && NonEmptyEncoding(codec)
    requires CompleteRun(store, final, id, ps, codec, purge, announced)
    ensures Refreshed(store, final, id, ps, codec)
  {
    AnnouncedTopics(announced, ps, codec);
    forall w | w in purge ensures w.delivered { assert w in purge + announced; }
    forall w | w in announced ensures w.delivered { assert w in purge + announced; }
    PurgeEffect(store, purge);
    AnnounceEffect(Replay(store, purge), announced);
  }

  /** A stored record under the filter that no entity claims is either stale or ambiguous. */
  lemma StaleOrAmbiguous(topic: string, payload: string, desired: set<string>, id: string, codec: Codec)
    requires SafeLevel(id) && Matches(FilterOf(id), topic) && payload != "" && topic !in desired
    ensures IsStale(topic, payload, desired, id, codec) <==> !IsAmbiguous(topic, payload, desired, id, codec)
  {
    FilterMatchesExactly(id, topic);
  }

  /** Under the filter there are exactly the desired topics and the ambiguous records found before,
      these unchanged; outside the filter nothing changed. */
  ghost predicate Exact(store: Store, final: Store, id: string, ps: seq<Publication>, codec: Codec)
    requires SafeLevel(id)
  {
    var ambiguous := AmbiguousTopics(Under(store, id), TopicsOf(ps), id, codec);
    && Under(final, id).Keys == TopicsOf(ps) + ambiguous
    && (forall t | t in ambiguous && t !in TopicsOf(ps) :: final[t] == store[t])
    && (forall t | t in TopicsOf(ps) :: Announces(final, t, ps, codec))
    && (forall t | !Matches(FilterOf(id), t) :: (t in final <==> t in store) && (t in store ==> final[t] == store[t]))
  }

  lemma RefreshedIsExact(store: Store, final: Store, id: string, ps: seq<Publication>, codec: Codec)
    requires ValidStore(store) && SafeLevel(id) && NonEmptyEncoding(codec)
    requires forall t | t in TopicsOf(ps) :: Matches(FilterOf(id), t)
    requires Refreshed(store, final, id, ps, codec)
    ensures Exact(store, final, id, ps, codec) && ValidStore(final)
  {
    var desired := TopicsOf(ps);
    forall t | t in Under(store, id) && t !in desired
      ensures IsStale(t, store[t], desired, id, codec) <==> !IsAmbiguous(t, store[t], desired, id, codec)
    {
      StaleOrAmbiguous(t, store[t], desired, id, codec);
    }
    forall t | t in final ensures final[t] != "" {
      if t in desired {
        assert Announces(final, t, ps, codec);
      }
    }
  }

  /** EXACTNESS of a complete run whose publications lie under the filter. */
  lemma RunIsExact(store: Store, final: Store, id: string, ps: seq<Publication>, codec: Codec,
                   purge: seq<Write>, announced: seq<Write>)
    requires ValidStore(store) && SafeLevel(id) && NonEmptyEncoding(codec)
    requires forall t | t in TopicsOf(ps) :: Matches(FilterOf(id), t)
    requires CompleteRun(store, final, id, ps, codec, purge, announced)
    ensures Exact(store, final, id, ps, codec) && ValidStore(final)
  {
    RunEffect(store, final, id, ps, codec, purge, announced);
    RefreshedIsExact(store, final, id, ps, codec);
  }

  lemma DesiredUnderFilter(settings: Settings, disks: seq<Disk>, numCores: nat)
    requires SafeLevel(settings.device.id) && FlatNames(disks)
    ensures forall t | t in TopicsOf(Publications(settings, disks, numCores)) ::
              Matches(FilterOf(settings.device.id), t)
  {
    PublishedTopicsUnderFilterExactly(settings, disks, numCores);
  }

  /** EXACTNESS of a startup, for disk names that add no topic level. */
  lemma StartupIsExact(store: Store, final: Store, settings: Settings, disks: seq<Disk>, numCores: nat,
                       codec: Codec, purge: seq<Write>, announced: seq<Write>)
    requires ValidStore(store) && SafeLevel(settings.device.id) && FlatNames(disks) && NonEmptyEncoding(codec)
    requires CompleteRun(store, final, settings.device.id, Publications(settings, disks, numCores), codec,
                         purge, announced)
    ensures Exact(store, final, settings.device.id, Publications(settings, disks, numCores), codec)
  {
    DesiredUnderFilter(settings, disks, numCores);
    RunIsExact(store, final, settings.device.id, Publications(settings, disks, numCores), codec, purge, announced);
  }

  /** IDEMPOTENCE. A second run with the same configuration finds nothing to delete, whatever the disks
      are called. */
  lemma SecondRunPurgesNothing(store: Store, final: Store, settings: Settings, disks: seq<Disk>, numCores: nat,
                               codec: Codec, purge: seq<Write>, announced: seq<Write>)
    requires SafeLevel(settings.device.id) && NonEmptyEncoding(codec)
    requires CompleteRun(store, final, settings.device.id, Publications(settings, disks, numCores), codec,
                         purge, announced)
    ensures StaleTopics(Under(final, settings.device.id), TopicsOf(Publications(settings, disks, numCores)),
                        settings.device.id, codec) == {}
  {
    RunEffect(store, final, settings.device.id, Publications(settings, disks, numCores), codec, purge, announced);
  }

  /** A partial scan deletes only what a complete one would delete, and scans of disjoint parts add up. */
  lemma PartialScans(store: Store, part: Store, rest: Store, desired: set<string>, id: string, codec: Codec)
    requires part.Keys !! rest.Keys && store == part + rest
    ensures StaleTopics(store, desired, id, codec)
         == StaleTopics(part, desired, id, codec) + StaleTopics(rest, desired, id, codec)
    ensures AmbiguousTopics(store, desired, id, codec)
         == AmbiguousTopics(part, desired, id, codec) + AmbiguousTopics(rest, desired, id, codec)
    ensures StaleTopics(part, desired, id, codec) <= StaleTopics(store, desired, id, codec)
  {
    assert forall t | t in part :: store[t] == part[t];
  }

  /** What stays ambiguous when an exact run for the topics d1 is followed by one for d2. */
  lemma AmbiguityCarries(store: Store, middle: Store, d1: set<string>, d2: set<string>, id: string, codec: Codec)
    requires ValidStore(store) && ValidStore(middle) && SafeLevel(id)
    requires var ambiguous := AmbiguousTopics(Under(store, id), d1, id, codec);
             && Under(middle, id).Keys == d1 + ambiguous
             && (forall t | t in ambiguous && t !in d1 :: middle[t] == store[t])
    requires forall t | t in d1 :: Owned(middle[t], id, codec) && ParseDiscoveryTopic(t).Some?
    requires forall t | t in d2 :: ParseDiscoveryTopic(t).Some?
    ensures AmbiguousTopics(Under(middle, id), d2, id, codec) == AmbiguousTopics(Under(store, id), d1 + d2, id, codec)
  {
    forall t | t in AmbiguousTopics(Under(middle, id), d2, id, codec)
      ensures t in AmbiguousTopics(Under(store, id), d1 + d2, id, codec)
    {
      assert t !in d1;
    }
    forall t | t in AmbiguousTopics(Under(store, id), d1 + d2, id, codec)
      ensures t in AmbiguousTopics(Under(middle, id), d2, id, codec)
    {
      assert t !in d1 && t in AmbiguousTopics(Under(store, id), d1, id, codec);
    }
  }

  /** RECONFIGURATION. Restarting with other disks or cores leaves no entity of the earlier
      configuration behind: the filter then holds the new desired topics and those records of the
      original store that neither configuration claimed and that are not provably the device's own. */
  lemma ReconfigurationLeavesNoTrace(
      store: Store, middle: Store, final: Store, id: string, codec: Codec,
      ps: seq<Publication>, purge: seq<Write>, announced: seq<Write>,
      qs: seq<Publication>, newPurge: seq<Write>, newAnnounced: seq<Write>)
    requires ValidStore(store) && FaithfulEncoding(codec) && SafeLevel(id)
    requires forall t | t in TopicsOf(ps + qs) :: Matches(FilterOf(id), t) && ParseDiscoveryTopic(t).Some?
    requires forall p | p in ps :: p.entity.device.id == id
    requires CompleteRun(store, middle, id, ps, codec, purge, announced)
    requires CompleteRun(middle, final, id, qs, codec, newPurge, newAnnounced)
    ensures Under(final, id).Keys
         == TopicsOf(qs) + AmbiguousTopics(Under(store, id), TopicsOf(ps) + TopicsOf(qs), id, codec)
  {
    assert TopicsOf(ps + qs) == TopicsOf(ps) + TopicsOf(qs) by {
      assert forall p :: p in ps + qs <==> p in ps || p in qs;
    }
    RunIsExact(store, middle, id, ps, codec, purge, announced);
    RunIsExact(middle, final, id, qs, codec, newPurge, newAnnounced);
    forall t | t in TopicsOf(ps) ensures t in middle && Owned(middle[t], id, codec) {
      assert Announces(middle, t, ps, codec);
    }
    AmbiguityCarries(store, middle, TopicsOf(ps), TopicsOf(qs), id, codec);
  }

  /** The previous lemma for the entities of two configurations of one device. */
  lemma RestartLeavesNoTrace(
      store: Store, middle: Store, final: Store, codec: Codec,
      settings: Settings, disks: seq<Disk>, cores: nat, purge: seq<Write>, announced: seq<Write>,
      newSettings: Settings, newDisks: seq<Disk>, newCores: nat, newPurge: seq<Write>, newAnnounced: seq<Write>)
    requires ValidStore(store) && FaithfulEncoding(codec)
    requires SafeLevel(settings.device.id) && newSettings.device.id == settings.device.id
    requires FlatNames(disks) && FlatNames(newDisks)
    requires CompleteRun(store, middle, settings.device.id, Publications(settings, disks, cores), codec,
                         purge, announced)
    requires CompleteRun(middle, final, settings.device.id, Publications(newSettings, newDisks, newCores), codec,
                         newPurge, newAnnounced)
    ensures var id := settings.device.id;
            var ps, qs := Publications(settings, disks, cores), Publications(newSettings, newDisks, newCores);
            Under(final, id).Keys
              == TopicsOf(qs) + AmbiguousTopics(Under(store, id), TopicsOf(ps) + TopicsOf(qs), id, codec)
  {
    var ps, qs := Publications(settings, disks, cores), Publications(newSettings, newDisks, newCores);
    DesiredUnderFilter(settings, disks, cores);
    DesiredUnderFilter(newSettings, newDisks, newCores);
    forall t | t in TopicsOf(ps + qs)
      ensures Matches(FilterOf(settings.device.id), t) && ParseDiscoveryTopic(t).Some?
    {
      var p: Publication :| p in ps + qs && p.topic == t;
      if p in ps {
        DesiredTopicParses(settings, disks, cores, t);
      } else {
        DesiredTopicParses(newSettings, newDisks, newCores, t);
      }
    }
    forall p | p in ps ensures p.entity.device.id == settings.device.id {
      EntityDevice(settings, disks, cores, p);
    }
    ReconfigurationLeavesNoTrace(store, middle, final, settings.device.id, codec, ps, purge, announced,
                                 qs, newPurge, newAnnounced);
  }

  lemma EntityDevice(settings: Settings, disks: seq<Disk>, numCores: nat, p: Publication)
    requires p in Publications(settings, disks, numCores)
    ensures p.entity.device == settings.device
  {}

  lemma ParsesWhenFlat(component: string, id: string, entity: string)
    requires SafeLevel(id) && '/' !in component && '/' !in entity && component != "" && entity != ""
    ensures ParseDiscoveryTopic(DiscoveryTopic(component, id, entity)).Some?
  {
    DiscoveryLevels(component, id, entity);
  }

  lemma DesiredTopicParses(settings: Settings, disks: seq<Disk>, numCores: nat, topic: string)
    requires SafeLevel(settings.device.id) && FlatNames(disks)
    requires topic in TopicsOf(Publications(settings, disks, numCores))
    ensures ParseDiscoveryTopic(topic).Some?
  {
    var ps := Publications(settings, disks, numCores);
    var sensors := Sensors(disks, numCores);
    var i :| 0 <= i < |ps| && ps[i].topic == topic;
    if i < |sensors| {
      assert sensors[i] in sensors;
      SensorKeyFlat(disks, numCores, sensors[i]);
      ParsesWhenFlat("sensor", settings.device.id, UniqueID(settings.device.id, sensors[i]));
    } else {
      ParsesWhenFlat("update", settings.device.id, if i == |sensors| then "zimaos_version" else "zimaos_monitor");
    }
  }

  // ------------------------------------------------------------------- residue

  lemma AnnouncedIsOwned(store: Store, topic: string, ps: seq<Publication>, id: string, codec: Codec)
    requires FaithfulEncoding(codec) && Announces(store, topic, ps, codec)
    requires forall p | p in ps :: p.entity.device.id == id
    ensures store[topic] != "" && Owned(store[topic], id, codec)
  {
    var p :| p in ps && p.topic == topic && store[topic] == codec.encode(p.entity);
    var probe := Probe(ORIGIN_NAME, [p.entity.device.id]);
    assert codec.decode(codec.encode(p.entity)) == Some(probe) && id in probe.identifiers;
  }

  /** An owned record that nobody claims any more is stale exactly when the filter matches its topic. */
  lemma OwnedIsStaleExactly(store: Store, topic: string, desired: set<string>, id: string, codec: Codec)
    requires SafeLevel(id) && topic in store && topic !in desired
    requires store[topic] != "" && Owned(store[topic], id, codec)
    requires Matches(FilterOf(id), topic) ==> ParseDiscoveryTopic(topic).Some?
    ensures topic in StaleTopics(Under(store, id), desired, id, codec) <==> Matches(FilterOf(id), topic)
  {
    FilterMatchesExactly(id, topic);
  }

  lemma RefreshedElsewhere(store: Store, final: Store, id: string, qs: seq<Publication>, codec: Codec, topic: string)
    requires SafeLevel(id) && Refreshed(store, final, id, qs, codec)
    requires topic in store && topic !in TopicsOf(qs)
    ensures topic in final <==> topic !in StaleTopics(Under(store, id), TopicsOf(qs), id, codec)
    ensures topic in final ==> final[topic] == store[topic]
  {}

  /** RESIDUE. After complete runs for two sets of publications, a topic that only the first set claims
      is still there exactly when the filter does not match it. */
  lemma ResidueExactly(
      store: Store, middle: Store, final: Store, id: string, codec: Codec,
      ps: seq<Publication>, purge: seq<Write>, announced: seq<Write>,
      qs: seq<Publication>, newPurge: seq<Write>, newAnnounced: seq<Write>, topic: string)
    requires FaithfulEncoding(codec) && SafeLevel(id)
    requires forall p | p in ps :: p.entity.device.id == id
    requires CompleteRun(store, middle, id, ps, codec, purge, announced)
    requires CompleteRun(middle, final, id, qs, codec, newPurge, newAnnounced)
    requires topic in TopicsOf(ps) && topic !in TopicsOf(qs)
    requires Matches(FilterOf(id), topic) ==> ParseDiscoveryTopic(topic).Some?
    ensures topic in final <==> !Matches(FilterOf(id), topic)
    ensures topic in final ==> Announces(final, topic, ps, codec)
  {
    RunAnnounces(store, middle, id, codec, ps, purge, announced, topic);
    AnnouncedIsOwned(middle, topic, ps, id, codec);
    OwnedIsStaleExactly(middle, topic, TopicsOf(qs), id, codec);
    RunEffect(middle, final, id, qs, codec, newPurge, newAnnounced);
    RefreshedElsewhere(middle, final, id, qs, codec, topic);
  }

  lemma RunAnnounces(store: Store, final: Store, id: string, codec: Codec,
                     ps: seq<Publication>, purge: seq<Write>, announced: seq<Write>, topic: string)
    requires SafeLevel(id) && NonEmptyEncoding(codec) && topic in TopicsOf(ps)
    requires CompleteRun(store, final, id, ps, codec, purge, announced)
    ensures Announces(final, topic, ps, codec)
  {
    RunEffect(store, final, id, ps, codec, purge, announced);
  }

  /** The topic of one of the four readings of a disk. */
  function DiskTopic(settings: Settings, disk: Disk, k: nat): string
    requires k < 4
  {
    SensorPublication(settings, DiskSensor(disk, k)).topic
  }

  /** The topic is a reading of a disk with a slash in its name. */
  ghost predicate IsSlashedTopic(settings: Settings, disks: seq<Disk>, topic: string)
  {
    exists d, k: nat | d in disks && k < 4 :: '/' in d.name && topic == DiskTopic(settings, d, k)
  }

  /** The filter misses, of the published topics, exactly the readings of disks with a slash in their
      name, and what it does not miss parses. */
  lemma PublishedTopicMatchesExactly(settings: Settings, disks: seq<Disk>, numCores: nat, topic: string)
    requires SafeLevel(settings.device.id)
    requires topic in TopicsOf(Publications(settings, disks, numCores))
    ensures !Matches(FilterOf(settings.device.id), topic) <==> IsSlashedTopic(settings, disks, topic)
    ensures Matches(FilterOf(settings.device.id), topic) ==> ParseDiscoveryTopic(topic).Some?
  {
    PublishedTopicIs(settings, disks, numCores, topic);
    EitherTopicMatches(settings, disks, topic);
  }

  /** A topic of one of the two update entities. */
  predicate IsUpdateTopic(settings: Settings, topic: string)
  {
    || topic == DiscoveryTopic("update", settings.device.id, "zimaos_version")
    || topic == DiscoveryTopic("update", settings.device.id, "zimaos_monitor")
  }

  ghost predicate IsSensorTopic(settings: Settings, disks: seq<Disk>, topic: string)
  {
    exists i: nat :: topic == SensorPublication(settings, SensorAt(disks, i)).topic
  }

  lemma PublishedTopicIs(settings: Settings, disks: seq<Disk>, numCores: nat, topic: string)
    requires topic in TopicsOf(Publications(settings, disks, numCores))
    ensures IsSensorTopic(settings, disks, topic) || IsUpdateTopic(settings, topic)
  {
    var ps := Publications(settings, disks, numCores);
    var i: nat :| i < |ps| && ps[i].topic == topic;
    if i < |Sensors(disks, numCores)| {
      assert ps[i] == SensorPublication(settings, SensorAt(disks, i));
    }
  }

  lemma EitherTopicMatches(settings: Settings, disks: seq<Disk>, topic: string)
    requires SafeLevel(settings.device.id)
    requires IsSensorTopic(settings, disks, topic) || IsUpdateTopic(settings, topic)
    ensures !Matches(FilterOf(settings.device.id), topic) <==> IsSlashedTopic(settings, disks, topic)
    ensures Matches(FilterOf(settings.device.id), topic) ==> ParseDiscoveryTopic(topic).Some?
  {
    SlashedTopicsEscape(settings, disks);
    if IsSensorTopic(settings, disks, topic) {
      var i: nat :| topic == SensorPublication(settings, SensorAt(disks, i)).topic;
      SensorTopicMatches(settings, disks, i);
    } else {
      UpdateTopicMatches(settings, "zimaos_version");
      UpdateTopicMatches(settings, "zimaos_monitor");
    }
  }

  lemma SlashedTopicsEscape(settings: Settings, disks: seq<Disk>)
    requires SafeLevel(settings.device.id)
    ensures forall t | IsSlashedTopic(settings, disks, t) :: !Matches(FilterOf(settings.device.id), t)
  {
    forall t | IsSlashedTopic(settings, disks, t) ensures !Matches(FilterOf(settings.device.id), t) {
      var d, k: nat :| d in disks && k < 4 && '/' in d.name && t == DiskTopic(settings, d, k);
      SlashedReading(d, k);
      SensorTopicExactly(settings, DiskSensor(d, k));
    }
  }

  lemma SensorTopicMatches(settings: Settings, disks: seq<Disk>, i: nat)
    requires SafeLevel(settings.device.id)
    ensures var topic := SensorPublication(settings, SensorAt(disks, i)).topic;
            && (Matches(FilterOf(settings.device.id), topic) ==> ParseDiscoveryTopic(topic).Some?)
            && (!Matches(FilterOf(settings.device.id), topic) ==> IsSlashedTopic(settings, disks, topic))
  {
    var sensor := SensorAt(disks, i);
    SensorTopicExactly(settings, sensor);
    SlashedExactly(disks, i);
    if '/' in sensor {
      var d, k: nat :| d in disks && k < 4 && '/' in d.name && sensor == DiskSensor(d, k);
      assert DiskTopic(settings, d, k) == SensorPublication(settings, sensor).topic;
    }
  }

  lemma UpdateTopicMatches(settings: Settings, entity: string)
    requires SafeLevel(settings.device.id) && entity != "" && '/' !in entity
    ensures Matches(FilterOf(settings.device.id), DiscoveryTopic("update", settings.device.id, entity))
    ensures ParseDiscoveryTopic(DiscoveryTopic("update", settings.device.id, entity)).Some?
  {
    OwnTopicMatchesExactly("update", settings.device.id, entity);
    ParsesWhenFlat("update", settings.device.id, entity);
  }

  lemma UniqueIDSlash(id: string, sensor: string)
    requires '/' !in id
    ensures '/' in UniqueID(id, sensor) <==> '/' in sensor
  {
    var uid := UniqueID(id, sensor);
    assert uid[|id| + 1..] == sensor;
    assert forall c | c in uid :: c in id || c == '_' || c in sensor;
    assert forall c | c in sensor :: c in uid;
  }

  lemma SensorTopicExactly(settings: Settings, sensor: string)
    requires SafeLevel(settings.device.id)
    ensures var topic := SensorPublication(settings, sensor).topic;
            && (Matches(FilterOf(settings.device.id), topic) <==> '/' !in sensor)
            && ('/' !in sensor ==> ParseDiscoveryTopic(topic).Some?)
  {
    var id := settings.device.id;
    UniqueIDSlash(id, sensor);
    OwnTopicMatchesExactly("sensor", id, UniqueID(id, sensor));
    if '/' !in sensor {
      ParsesWhenFlat("sensor", id, UniqueID(id, sensor));
    }
  }

  lemma SlashedReading(disk: Disk, k: nat)
    requires k < 4 && '/' in disk.name
    ensures '/' in DiskSensor(disk, k)
  {
    var j :| 0 <= j < |disk.name| && disk.name[j] == '/';
    var key := DiskKey(disk.name);
    assert key[j] == '/';
    assert ("disk_" + key)[5 + j] == key[j];
    assert DiskSensor(disk, k)[5 + j] == ("disk_" + key)[5 + j];
  }

  /** Some disk with a slash in its name has this sensor key. */
  ghost predicate IsSlashedReading(disks: seq<Disk>, sensor: string)
  {
    exists d, k: nat | d in disks && k < 4 :: '/' in d.name && sensor == DiskSensor(d, k)
  }

  lemma SlashedExactly(disks: seq<Disk>, i: nat)
    ensures '/' in SensorAt(disks, i) <==> IsSlashedReading(disks, SensorAt(disks, i))
  {
    var sensor := SensorAt(disks, i);
    forall d, k: nat | d in disks && k < 4 && '/' in d.name ensures '/' in DiskSensor(d, k) {
      SlashedReading(d, k);
    }
    if '/' in sensor {
      if i < 10 || i >= 10 + 4 * |disks| || '/' !in disks[(i - 10) / 4].name {
        SlashComesFromDisk(disks, i);
      }
      var d, k := disks[(i - 10) / 4], (i - 10) % 4;
      assert d in disks && sensor == DiskSensor(d, k);
    }
  }

  /** Only a disk name can bring a slash into a sensor key. */
  lemma SlashComesFromDisk(disks: seq<Disk>, i: nat)
    requires i < 10 || i >= 10 + 4 * |disks| || '/' !in disks[(i - 10) / 4].name
    ensures '/' !in SensorAt(disks, i)
  {
    if i < 10 {
      FixedKeyFlat(i);
    } else if i < 10 + 4 * |disks| {
      DiskSensorKeyFlat(disks[(i - 10) / 4], (i - 10) % 4);
    } else {
      CoreSensorKeyFlat(i - 10 - 4 * |disks|);
    }
  }

  /** RESTART RESIDUE. Restarting with other disks or cores leaves of the topics that are no longer
      published exactly the readings of the earlier disks with a slash in their name; these stay as they
      were announced. */
  lemma RestartResidueExactly(
      store: Store, middle: Store, final: Store, codec: Codec,
      settings: Settings, disks: seq<Disk>, cores: nat, purge: seq<Write>, announced: seq<Write>,
      newSettings: Settings, newDisks: seq<Disk>, newCores: nat, newPurge: seq<Write>, newAnnounced: seq<Write>,
      topic: string)
    requires FaithfulEncoding(codec)
    requires SafeLevel(settings.device.id) && newSettings.device.id == settings.device.id
    requires CompleteRun(store, middle, settings.device.id, Publications(settings, disks, cores), codec,
                         purge, announced)
    requires CompleteRun(middle, final, settings.device.id, Publications(newSettings, newDisks, newCores), codec,
                         newPurge, newAnnounced)
    requires topic in TopicsOf(Publications(settings, disks, cores))
    requires topic !in TopicsOf(Publications(newSettings, newDisks, newCores))
    ensures topic in final <==> IsSlashedTopic(settings, disks, topic)
    ensures topic in final ==> Announces(final, topic, Publications(settings, disks, cores), codec)
  {
    var ps, qs := Publications(settings, disks, cores), Publications(newSettings, newDisks, newCores);
    forall p | p in ps ensures p.entity.device.id == settings.device.id {
      EntityDevice(settings, disks, cores, p);
    }
    PublishedTopicMatchesExactly(settings, disks, cores, topic);
    ResidueExactly(store, middle, final, settings.device.id, codec, ps, purge, announced,
                   qs, newPurge, newAnnounced, topic);
  }
}
