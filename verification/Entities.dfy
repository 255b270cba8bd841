/** The Home Assistant entities of one installation: which sensors exist, how their unique IDs and
    discovery topics are formed, and that no two of them collide. */
module Entities {
  import opened Text
  import opened Topics

  datatype Disk = Disk(path: string, name: string)

  datatype Device = Device(id: string, name: string, model: string, manufacturer: string,
                           serialNumber: string, swVersion: string)

  /** The configuration that PublishDiscovery reads. */
  datatype Settings = Settings(device: Device, monitorUpdates: bool)

  /** What a discovery payload describes, as far as it matters here: the unique ID, where the readings
      are, and the device with its identifier. Labels, units and templates are left out. */
  datatype Entity =
    | SensorEntity(uniqueID: string, stateTopic: string, device: Device)
    | UpdateEntity(uniqueID: string, stateTopic: string, device: Device, title: string)

  datatype Publication = Publication(topic: string, entity: Entity)

  /** The part of a unique ID that follows "<device ID>_" names the sensor. */
  const FIXED_KEYS: seq<string> := [
    "cpu_temp", "cpu_watts", "cpu_usage_pct", "ram_used_pct", "ram_available_gb", "ram_total_gb",
    "load_avg_1", "load_avg_5", "load_avg_15", "uptime_seconds"
  ]

  /** strings.ReplaceAll(name, " ", "_") */
  function DiskKey(name: string): (key: string)
    ensures |key| == |name|
    ensures forall i | 0 <= i < |name| :: key[i] == if name[i] == ' ' then '_' else name[i]
  {
    if name == "" then "" else [if name[0] == ' ' then '_' else name[0]] + DiskKey(name[1..])
  }

  const DISK_SUFFIXES: seq<string> := ["_used_pct", "_used_gb", "_total_gb", "_free_gb"]

  function DiskSensor(disk: Disk, k: nat): string
    requires k < 4
  {
    "disk_" + DiskKey(disk.name) + DISK_SUFFIXES[k]
  }

  function DiskSensors(disk: Disk): seq<string>
  {
    [DiskSensor(disk, 0), DiskSensor(disk, 1), DiskSensor(disk, 2), DiskSensor(disk, 3)]
  }

  function CoreSensor(i: nat): string
  {
    "cpu_core_" + Decimal(i) + "_pct"
  }

  function SensorAt(disks: seq<Disk>, i: nat): string
  {
    if i < 10 then FIXED_KEYS[i]
    else if i < 10 + 4 * |disks| then DiskSensor(disks[(i - 10) / 4], (i - 10) % 4)
    else CoreSensor(i - 10 - 4 * |disks|)
  }

  /** All sensor keys in publication order: ten fixed ones, four a disk, one a core. */
  function Sensors(disks: seq<Disk>, numCores: nat): (sensors: seq<string>)
    ensures |sensors| == 10 + 4 * |disks| + numCores
  {
    seq(10 + 4 * |disks| + numCores, i requires 0 <= i => SensorAt(disks, i))
  }

  function UniqueID(deviceID: string, sensor: string): string
  {
    deviceID + "_" + sensor
  }

  function SensorPublication(settings: Settings, sensor: string): Publication
  {
    var id := settings.device.id;
    Publication(DiscoveryTopic("sensor", id, UniqueID(id, sensor)),
                SensorEntity(UniqueID(id, sensor), id + "/state", settings.device))
  }

  function ZimaOSUpdatePublication(settings: Settings): Publication
  {
    var id := settings.device.id;
    Publication(DiscoveryTopic("update", id, "zimaos_version"),
                UpdateEntity(id + "_zimaos_update", id + "/update", settings.device,
                             "ZimaOS Operating System"))
  }

  function MonitorUpdatePublication(settings: Settings): Publication
  {
    var id := settings.device.id;
    Publication(DiscoveryTopic("update", id, "zimaos_monitor"),
                UpdateEntity(id + "_zimaos_monitor_update", id + "/monitor/update", settings.device,
                             "zimaos-monitor"))
  }

  function UpdatePublications(settings: Settings): seq<Publication>
  {
    [ZimaOSUpdatePublication(settings)]
    + if settings.monitorUpdates then [MonitorUpdatePublication(settings)] else []
  }

  function SensorAnnouncements(settings: Settings, sensors: seq<string>): seq<Publication>
  {
    seq(|sensors|, i requires 0 <= i < |sensors| => SensorPublication(settings, sensors[i]))
  }

  function Announcements(settings: Settings, sensors: seq<string>): seq<Publication>
  {
    SensorAnnouncements(settings, sensors) + UpdatePublications(settings)
  }

  /** Everything one PublishDiscovery call announces, in order. */
  function Publications(settings: Settings, disks: seq<Disk>, numCores: nat): seq<Publication>
  {
    Announcements(settings, Sensors(disks, numCores))
  }

  function TopicsOf(publications: seq<Publication>): set<string>
  {
    set p | p in publications :: p.topic
  }

  // -------------------------------------------------------------- no collision

  predicate Distinct<T(==)>(s: seq<T>)
  {
    forall i, j | 0 <= i < j < |s| :: s[i] != s[j]
  }

  predicate DistinctKeys(disks: seq<Disk>)
  {
    forall i, j | 0 <= i < j < |disks| :: DiskKey(disks[i].name) != DiskKey(disks[j].name)
  }

  /** A disk sensor key determines both the disk key and which of the four readings it is: the
      suffixes differ in their last or fourth-last character. */
  lemma DiskSensorKeyInjective(a: string, j: nat, b: string, k: nat)
    requires j < 4 && k < 4
    requires "disk_" + a + DISK_SUFFIXES[j] == "disk_" + b + DISK_SUFFIXES[k]
    ensures a == b && j == k
  {
    var x := "disk_" + a + DISK_SUFFIXES[j];
    var y := "disk_" + b + DISK_SUFFIXES[k];
    assert x[|x| - 1] == DISK_SUFFIXES[j][|DISK_SUFFIXES[j]| - 1];
    assert y[|y| - 1] == DISK_SUFFIXES[k][|DISK_SUFFIXES[k]| - 1];
    assert x[|x| - 4] == DISK_SUFFIXES[j][|DISK_SUFFIXES[j]| - 4];
    assert y[|y| - 4] == DISK_SUFFIXES[k][|DISK_SUFFIXES[k]| - 4];
    assert j == k;
    assert |a| == |b|;
    assert x[5..5 + |a|] == a && y[5..5 + |b|] == b;
  }

  lemma CoreKeyInjective(i: nat, j: nat)
    requires CoreSensor(i) == CoreSensor(j)
    ensures i == j
  {
    var x, y := CoreSensor(i), CoreSensor(j);
    assert x[9..|x| - 4] == Decimal(i) && y[9..|y| - 4] == Decimal(j);
    DecimalInjective(i, j);
  }

  lemma FixedKeysDistinct(i: nat, j: nat)
    requires i < j < 10
    ensures FIXED_KEYS[i] != FIXED_KEYS[j]
  {
    var a, b := FIXED_KEYS[i], FIXED_KEYS[j];
    assert |a| != |b| || a[|a| - 1] != b[|b| - 1];
  }

  datatype Group = FixedGroup | DiskGroup | CoreGroup

  /** The first and fifth character of a key tell which group the sensor belongs to. */
  function KeyGroup(key: string): Group
    requires |key| > 4
  {
    if key[0] == 'd' then DiskGroup else if key[0] == 'c' && key[4] == 'c' then CoreGroup else FixedGroup
  }

  function IndexGroup(disks: seq<Disk>, i: nat): Group
  {
    if i < 10 then FixedGroup else if i < 10 + 4 * |disks| then DiskGroup else CoreGroup
  }

  lemma KeyTellsGroup(disks: seq<Disk>, numCores: nat, i: nat)
    requires i < 10 + 4 * |disks| + numCores
    ensures var key := Sensors(disks, numCores)[i];
            |key| > 4 && KeyGroup(key) == IndexGroup(disks, i) && key[0] != 'z'
  {}

  lemma SensorKeysDiffer(disks: seq<Disk>, numCores: nat, i: nat, j: nat)
    requires DistinctKeys(disks)
    requires i < j < 10 + 4 * |disks| + numCores
    ensures Sensors(disks, numCores)[i] != Sensors(disks, numCores)[j]
  {
    KeyTellsGroup(disks, numCores, i);
    KeyTellsGroup(disks, numCores, j);
    var d := 10 + 4 * |disks|;
    if j < 10 {
      FixedKeysDistinct(i, j);
    } else if 10 <= i && j < d {
      DiskKeysDiffer(disks, i - 10, j - 10);
    } else if d <= i && CoreSensor(i - d) == CoreSensor(j - d) {
      CoreKeyInjective(i - d, j - d);
    }
  }

  lemma DiskKeysDiffer(disks: seq<Disk>, i: nat, j: nat)
    requires DistinctKeys(disks) && i < j < 4 * |disks|
    ensures DiskSensor(disks[i / 4], i % 4) != DiskSensor(disks[j / 4], j % 4)
  {
    var a, b := DiskKey(disks[i / 4].name), DiskKey(disks[j / 4].name);
    if "disk_" + a + DISK_SUFFIXES[i % 4] == "disk_" + b + DISK_SUFFIXES[j % 4] {
      DiskSensorKeyInjective(a, i % 4, b, j % 4);
    }
  }

  lemma EqualDiskKeysCollide(disks: seq<Disk>, numCores: nat, d: nat, e: nat)
    requires d < e < |disks| && DiskKey(disks[d].name) == DiskKey(disks[e].name)
    ensures Sensors(disks, numCores)[10 + 4 * d] == Sensors(disks, numCores)[10 + 4 * e]
  {
    var (i, j) := (10 + 4 * d, 10 + 4 * e);
    assert (i - 10) / 4 == d && (i - 10) % 4 == 0 && (j - 10) / 4 == e && (j - 10) % 4 == 0;
    assert SensorAt(disks, i) == DiskSensor(disks[d], 0) && SensorAt(disks, j) == DiskSensor(disks[e], 0);
  }

  /** Sensor keys are pairwise distinct exactly when the disk keys are. */
  lemma SensorKeysDistinctExactly(disks: seq<Disk>, numCores: nat)
    ensures Distinct(Sensors(disks, numCores)) <==> DistinctKeys(disks)
  {
    var sensors := Sensors(disks, numCores);
    if DistinctKeys(disks) {
      forall i, j | 0 <= i < j < |sensors| ensures sensors[i] != sensors[j] {
        SensorKeysDiffer(disks, numCores, i, j);
      }
    } else {
      var d, e :| 0 <= d < e < |disks| && DiskKey(disks[d].name) == DiskKey(disks[e].name);
      EqualDiskKeysCollide(disks, numCores, d, e);
    }
  }

  function UniqueIDs(publications: seq<Publication>): seq<string>
  {
    seq(|publications|, i requires 0 <= i < |publications| => publications[i].entity.uniqueID)
  }

  function TopicList(publications: seq<Publication>): seq<string>
  {
    seq(|publications|, i requires 0 <= i < |publications| => publications[i].topic)
  }

  lemma UniqueIDInjective(deviceID: string, a: string, b: string)
    requires deviceID + "_" + a == deviceID + "_" + b
    ensures a == b
  {
    var x := deviceID + "_" + a;
    var y := deviceID + "_" + b;
    assert x[|deviceID| + 1..] == a && y[|deviceID| + 1..] == b;
  }

  lemma TopicInjective(component: string, deviceID: string, a: string, b: string)
    requires DiscoveryTopic(component, deviceID, a) == DiscoveryTopic(component, deviceID, b)
    ensures a == b
  {
    var x := DiscoveryTopic(component, deviceID, a);
    var y := DiscoveryTopic(component, deviceID, b);
    var n := |"homeassistant/" + component + "/" + deviceID + "/"|;
    assert x[n..|x| - 7] == a && y[n..|y| - 7] == b;
  }

  lemma AnnouncementsDiffer(settings: Settings, sensors: seq<string>, i: nat, j: nat)
    requires Distinct(sensors) && forall s | s in sensors :: s != "" && s[0] != 'z'
    requires i < j < |Announcements(settings, sensors)|
    ensures var ps := Announcements(settings, sensors);
            ps[i].entity.uniqueID != ps[j].entity.uniqueID && ps[i].topic != ps[j].topic
  {
    var id := settings.device.id;
    var n := |sensors|;
    if j < n {
      if UniqueID(id, sensors[i]) == UniqueID(id, sensors[j]) {
        UniqueIDInjective(id, sensors[i], sensors[j]);
      }
      if SensorPublication(settings, sensors[i]).topic == SensorPublication(settings, sensors[j]).topic {
        TopicInjective("sensor", id, UniqueID(id, sensors[i]), UniqueID(id, sensors[j]));
      }
    } else {
      assert i < n ==> sensors[i] in sensors;
      UpdateIDsDiffer(settings, if i < n then sensors[i] else "cpu_temp");
    }
  }

  lemma UpdateIDsDiffer(settings: Settings, sensor: string)
    requires sensor != "" && sensor[0] != 'z'
    ensures var s, u, m := SensorPublication(settings, sensor), ZimaOSUpdatePublication(settings),
                           MonitorUpdatePublication(settings);
            && s.topic != u.topic && s.topic != m.topic && u.topic != m.topic
            && s.entity.uniqueID != u.entity.uniqueID && s.entity.uniqueID != m.entity.uniqueID
            && u.entity.uniqueID != m.entity.uniqueID
  {
    var id := settings.device.id;
    var s, u, m := SensorPublication(settings, sensor), ZimaOSUpdatePublication(settings),
                   MonitorUpdatePublication(settings);
    assert s.topic[14] == 's' && u.topic[14] == 'u' && m.topic[14] == 'u';
    assert s.entity.uniqueID[|id| + 1] == sensor[0];
    assert u.entity.uniqueID[|id| + 1] == 'z' && m.entity.uniqueID[|id| + 1] == 'z';
    assert |u.entity.uniqueID| != |m.entity.uniqueID|;
    var v, w := "zimaos_version", "zimaos_monitor";
    assert v[7] != w[7];
    if u.topic == m.topic {
      TopicInjective("update", id, v, w);
    }
  }

  lemma AnnouncementsDistinctExactly(settings: Settings, sensors: seq<string>)
    requires forall s | s in sensors :: s != "" && s[0] != 'z'
    ensures Distinct(UniqueIDs(Announcements(settings, sensors))) <==> Distinct(sensors)
    ensures Distinct(TopicList(Announcements(settings, sensors))) <==> Distinct(sensors)
  {
    var ps := Announcements(settings, sensors);
    if Distinct(sensors) {
      forall i, j | 0 <= i < j < |ps|
        ensures UniqueIDs(ps)[i] != UniqueIDs(ps)[j] && TopicList(ps)[i] != TopicList(ps)[j]
      {
        AnnouncementsDiffer(settings, sensors, i, j);
      }
    } else {
      var i, j :| 0 <= i < j < |sensors| && sensors[i] == sensors[j];
      assert UniqueIDs(ps)[i] == UniqueIDs(ps)[j];
      assert TopicList(ps)[i] == TopicList(ps)[j];
    }
  }

  /** The unique IDs and the topics of one installation are pairwise distinct exactly when the disk
      names stay distinct after spaces become underscores. */
  lemma NoCollisionExactly(settings: Settings, disks: seq<Disk>, numCores: nat)
    ensures Distinct(UniqueIDs(Publications(settings, disks, numCores))) <==> DistinctKeys(disks)
    ensures Distinct(TopicList(Publications(settings, disks, numCores))) <==> DistinctKeys(disks)
  {
    var sensors := Sensors(disks, numCores);
    forall s | s in sensors ensures s != "" && s[0] != 'z' {
      var i :| 0 <= i < |sensors| && sensors[i] == s;
      KeyTellsGroup(disks, numCores, i);
    }
    SensorKeysDistinctExactly(disks, numCores);
    AnnouncementsDistinctExactly(settings, sensors);
  }

  /** The record of the reading that the key names. */
  ghost predicate IsReading(p: Publication, settings: Settings, key: string)
  {
    var id := settings.device.id;
    && p.topic == "homeassistant/" + "sensor" + "/" + id + "/" + (id + "_" + key) + "/config"
    && p.entity == SensorEntity(id + "_" + key, id + "/state", settings.device)
  }

  /** The record of the update entity of that name. */
  ghost predicate IsUpdate(p: Publication, settings: Settings, name: string, suffix: string, state: string)
  {
    var id := settings.device.id;
    && p.topic == "homeassistant/" + "update" + "/" + id + "/" + name + "/config"
    && p.entity.UpdateEntity? && p.entity.uniqueID == id + suffix && p.entity.stateTopic == id + state
    && p.entity.device == settings.device
  }

  /** WHAT IS ANNOUNCED: a record per reading in the order of the keys, then ZimaOS, then the program. */
  lemma PublicationsExactly(settings: Settings, disks: seq<Disk>, numCores: nat, i: nat)
    requires i < |Publications(settings, disks, numCores)|
    ensures var p, n := Publications(settings, disks, numCores)[i], 10 + 4 * |disks| + numCores;
            if i < n then IsReading(p, settings, Sensors(disks, numCores)[i])
            else if i == n then IsUpdate(p, settings, "zimaos_version", "_zimaos_update", "/update")
            else settings.monitorUpdates && i == n + 1
                 && IsUpdate(p, settings, "zimaos_monitor", "_zimaos_monitor_update", "/monitor/update")
    ensures |Publications(settings, disks, numCores)|
         == 10 + 4 * |disks| + numCores + if settings.monitorUpdates then 2 else 1
  {}

  function UpdateTopic(deviceID: string, name: string): string
  {
    "homeassistant/" + "update" + "/" + deviceID + "/" + name + "/config"
  }

  lemma UpdateTopicsDiffer(settings: Settings, sensor: string)
    ensures var monitor, zimaos := UpdateTopic(settings.device.id, "zimaos_monitor"),
                                   UpdateTopic(settings.device.id, "zimaos_version");
            && MonitorUpdatePublication(settings).topic == monitor && ZimaOSUpdatePublication(settings).topic == zimaos
            && monitor != zimaos && SensorPublication(settings, sensor).topic != monitor
  {
    UpdateIDsDiffer(settings, "cpu_temp");
    assert SensorPublication(settings, sensor).topic[14] == 's';
    assert UpdateTopic(settings.device.id, "zimaos_monitor")[14] == 'u';
  }

  /** The program's own update entity is announced exactly when the setting is on; that of ZimaOS always. */
  lemma MonitorTopicExactly(settings: Settings, disks: seq<Disk>, numCores: nat)
    ensures UpdateTopic(settings.device.id, "zimaos_monitor") in TopicsOf(Publications(settings, disks, numCores))
       <==> settings.monitorUpdates
    ensures UpdateTopic(settings.device.id, "zimaos_version") in TopicsOf(Publications(settings, disks, numCores))
  {
    var sensors, ps := Sensors(disks, numCores), Publications(settings, disks, numCores);
    UpdateTopicsDiffer(settings, "cpu_temp");
    assert ps[|sensors|] == ZimaOSUpdatePublication(settings);
    assert settings.monitorUpdates ==> ps[|sensors| + 1] == MonitorUpdatePublication(settings);
    forall p | p in ps && p.topic == UpdateTopic(settings.device.id, "zimaos_monitor")
      ensures settings.monitorUpdates
    {
      var i :| 0 <= i < |ps| && ps[i] == p;
      if i < |sensors| {
        UpdateTopicsDiffer(settings, sensors[i]);
      }
    }
  }

  // ------------------------------------------------------------ where they live

  /** No disk name adds a topic level. */
  predicate FlatNames(disks: seq<Disk>)
  {
    forall d | d in disks :: '/' !in d.name
  }

  lemma {:induction false} DecimalHasNoSlash(n: nat)
    ensures '/' !in Decimal(n)
  {
    DecimalRoundTrip(n);
  }

  lemma FixedKeyFlat(i: nat)
    requires i < 10
    ensures '/' !in FIXED_KEYS[i]
  {}

  lemma DiskSensorKeyFlat(disk: Disk, k: nat)
    requires k < 4 && '/' !in disk.name
    ensures '/' !in DiskSensor(disk, k)
  {
    var key := DiskKey(disk.name);
    assert forall j | 0 <= j < |key| :: disk.name[j] in disk.name;
    assert '/' !in DISK_SUFFIXES[k];
    assert '/' !in "disk_";
  }

  lemma CoreSensorKeyFlat(i: nat)
    ensures '/' !in CoreSensor(i)
  {
    DecimalHasNoSlash(i);
  }

  lemma SensorAtFlat(disks: seq<Disk>, i: nat)
    requires FlatNames(disks)
    ensures '/' !in SensorAt(disks, i)
  {
    if i < 10 {
      FixedKeyFlat(i);
    } else if i < 10 + 4 * |disks| {
      DiskSensorKeyFlat(disks[(i - 10) / 4], (i - 10) % 4);
    } else {
      CoreSensorKeyFlat(i - 10 - 4 * |disks|);
    }
  }

  lemma SensorKeyFlat(disks: seq<Disk>, numCores: nat, sensor: string)
    requires FlatNames(disks) && sensor in Sensors(disks, numCores)
    ensures '/' !in sensor
  {
    var i :| 0 <= i < |Sensors(disks, numCores)| && Sensors(disks, numCores)[i] == sensor;
    SensorAtFlat(disks, i);
  }

  lemma AnnouncedTopicsAreOwn(settings: Settings, sensors: seq<string>, topic: string)
    requires '/' !in settings.device.id
    requires topic in TopicsOf(Announcements(settings, sensors))
    ensures NodeLevel(topic) == Some(settings.device.id)
    ensures SafeLevel(settings.device.id) && (forall s | s in sensors :: '/' !in s) ==>
              Matches(DiscoveryTopicFilter(settings.device.id).value, topic)
  {
    var id := settings.device.id;
    var ps := Announcements(settings, sensors);
    var i :| 0 <= i < |ps| && ps[i].topic == topic;
    if i < |sensors| {
      NodeLevelExactly("sensor", id, UniqueID(id, sensors[i]));
      if SafeLevel(id) && '/' !in sensors[i] {
        OwnTopicMatchesExactly("sensor", id, UniqueID(id, sensors[i]));
      }
    } else {
      var name := if i == |sensors| then "zimaos_version" else "zimaos_monitor";
      NodeLevelExactly("update", id, name);
      if SafeLevel(id) {
        OwnTopicMatchesExactly("update", id, name);
      }
    }
  }

  /** Every topic published for a one-level device ID has that ID as its third level. */
  lemma PublishedTopicsAreOwn(settings: Settings, disks: seq<Disk>, numCores: nat, topic: string)
    requires '/' !in settings.device.id
    requires topic in TopicsOf(Publications(settings, disks, numCores))
    ensures NodeLevel(topic) == Some(settings.device.id)
  {
    AnnouncedTopicsAreOwn(settings, Sensors(disks, numCores), topic);
  }

  /** The published topics lie under the device's own filter, where a later purge can find them,
      exactly when no disk name adds a topic level. */
  lemma PublishedTopicsUnderFilterExactly(settings: Settings, disks: seq<Disk>, numCores: nat)
    requires SafeLevel(settings.device.id)
    ensures (forall t | t in TopicsOf(Publications(settings, disks, numCores)) ::
                Matches(DiscoveryTopicFilter(settings.device.id).value, t))
       <==> FlatNames(disks)
  {
    var sensors := Sensors(disks, numCores);
    if FlatNames(disks) {
      forall s | s in sensors ensures '/' !in s {
        SensorKeyFlat(disks, numCores, s);
      }
      forall t | t in TopicsOf(Publications(settings, disks, numCores))
        ensures Matches(DiscoveryTopicFilter(settings.device.id).value, t)
      {
        AnnouncedTopicsAreOwn(settings, sensors, t);
      }
    } else {
      var d :| 0 <= d < |disks| && '/' in disks[d].name;
      SlashedDiskEscapes(settings, disks, numCores, d);
    }
  }

  lemma SlashedDiskEscapes(settings: Settings, disks: seq<Disk>, numCores: nat, d: nat)
    requires SafeLevel(settings.device.id) && d < |disks| && '/' in disks[d].name
    ensures exists t | t in TopicsOf(Publications(settings, disks, numCores)) ::
              !Matches(DiscoveryTopicFilter(settings.device.id).value, t)
  {
    var id := settings.device.id;
    var i := 10 + 4 * d;
    var sensor := Sensors(disks, numCores)[i];
    assert (i - 10) / 4 == d && (i - 10) % 4 == 0;
    var name := disks[d].name;
    var j :| 0 <= j < |name| && name[j] == '/';
    assert sensor == "disk_" + DiskKey(name) + DISK_SUFFIXES[0];
    assert sensor[5 + j] == '/';
    var uid := UniqueID(id, sensor);
    assert uid[|id| + 1 + 5 + j] == '/';
    OwnTopicMatchesExactly("sensor", id, uid);
    var p := SensorPublication(settings, sensor);
    assert Publications(settings, disks, numCores)[i] == p;
    assert p.topic in TopicsOf(Publications(settings, disks, numCores));
  }
}
