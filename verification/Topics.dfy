/** Topic text: the retained-discovery filter, the parser of discovery topics, and topic filter
    matching as section 4.7 of MQTT 3.1.1 defines it. */
module Topics {
  import opened Text

  /** strings.ContainsAny(id, "/+#\x00") is false and the ID is not empty. */
  predicate SafeLevel(id: string)
  {
    id != "" && forall c | c in id :: c !in "/+#\0"
  }

  function DiscoveryTopicFilter(deviceID: string): Option<string>
  {
    if SafeLevel(deviceID) then Some("homeassistant/+/" + deviceID + "/+/config") else None
  }

  datatype Address = Address(component: string, node: string, entity: string)

  function ParseDiscoveryTopic(topic: string): Option<Address>
  {
    var levels := Split(topic, '/');
    if || |levels| != 5 || levels[0] != "homeassistant" || levels[1] == "" || levels[2] == ""
       || levels[3] == "" || levels[4] != "config"
    then None
    else Some(Address(levels[1], levels[2], levels[3]))
  }

  /** Section 4.7.1 of MQTT 3.1.1: '+' stands for exactly one level, a final '#' for any number
      of levels including none. */
  predicate LevelsMatch(filter: seq<string>, topic: seq<string>)
  {
    if filter == [] then topic == []
    else if filter[0] == "#" then |filter| == 1
    else
      && topic != []
      && (filter[0] == "+" || filter[0] == topic[0])
      && LevelsMatch(filter[1..], topic[1..])
  }

  /** Section 4.7.2 adds that a leading wildcard does not match a topic starting with '$'. */
  predicate Matches(filter: string, topic: string)
  {
    && (filter != "" && topic != "" && filter[0] in "+#" ==> topic[0] != '$')
    && LevelsMatch(Split(filter, '/'), Split(topic, '/'))
  }

  /** The third level of a topic, where discovery topics carry the device ID. */
  function NodeLevel(topic: string): Option<string>
  {
    var levels := Split(topic, '/');
    if |levels| > 2 then Some(levels[2]) else None
  }

  function DiscoveryTopic(component: string, node: string, entity: string): string
  {
    "homeassistant/" + component + "/" + node + "/" + entity + "/config"
  }

  lemma JoinDiscoveryLevels(component: string, node: string, entity: string)
    ensures Join(["homeassistant", component, node, entity, "config"], '/')
         == DiscoveryTopic(component, node, entity)
  {
    var levels := ["homeassistant", component, node, entity, "config"];
    assert levels[1..] == [component, node, entity, "config"];
    assert levels[1..][1..] == [node, entity, "config"];
    assert levels[1..][1..][1..] == [entity, "config"];
    assert levels[1..][1..][1..][1..] == ["config"];
    var tail3 := entity + "/config";
    var tail2 := node + "/" + tail3;
    var tail1 := component + "/" + tail2;
    assert Join(levels[1..][1..][1..], '/') == tail3;
    assert Join(levels[1..][1..], '/') == tail2;
    assert Join(levels[1..], '/') == tail1;
    assert "homeassistant/" + tail1 == "homeassistant/" + component + "/" + tail2;
    assert "homeassistant/" + component + "/" + tail2 == "homeassistant/" + component + "/" + node + "/" + tail3;
  }

  lemma DiscoveryLevels(component: string, node: string, entity: string)
    requires '/' !in component && '/' !in node && '/' !in entity
    ensures Split(DiscoveryTopic(component, node, entity), '/')
         == ["homeassistant", component, node, entity, "config"]
  {
    SplitJoin(["homeassistant", component, node, entity, "config"], '/');
    JoinDiscoveryLevels(component, node, entity);
  }

  lemma FilterLevels(deviceID: string)
    requires SafeLevel(deviceID)
    ensures Split("homeassistant/+/" + deviceID + "/+/config", '/')
         == ["homeassistant", "+", deviceID, "+", "config"]
  {
    DiscoveryLevels("+", deviceID, "+");
    assert "homeassistant/" + "+" + "/" + deviceID + "/" + "+" + "/config"
        == "homeassistant/+/" + deviceID + "/+/config";
  }

  /** A topic matches the generated filter exactly when it has five levels of which the first, the
      third and the last are fixed; so everything the filter collects lies in the device's node. */
  lemma FilterMatchesExactly(deviceID: string, topic: string)
    requires SafeLevel(deviceID)
    ensures DiscoveryTopicFilter(deviceID).Some?
    ensures Matches(DiscoveryTopicFilter(deviceID).value, topic)
       <==> var levels := Split(topic, '/');
            && |levels| == 5 && levels[0] == "homeassistant" && levels[2] == deviceID
            && levels[4] == "config"
  {
    FilterLevels(deviceID);
    var f := ["homeassistant", "+", deviceID, "+", "config"];
    var t := Split(topic, '/');
    assert deviceID != "+" && deviceID != "#" by {
      assert deviceID != "" && deviceID[0] in deviceID;
    }
    if |t| == 5 {
      MatchHeads(f, t);
      MatchHeads(f[1..], t[1..]);
      MatchHeads(f[2..], t[2..]);
      MatchHeads(f[3..], t[3..]);
      MatchHeads(f[4..], t[4..]);
    } else {
      LengthsDiffer(f, t);
    }
  }

  lemma MatchHeads(filter: seq<string>, topic: seq<string>)
    requires filter != [] && topic != [] && filter[0] != "#"
    ensures LevelsMatch(filter, topic)
       <==> (filter[0] == "+" || filter[0] == topic[0]) && LevelsMatch(filter[1..], topic[1..])
    ensures |filter| > 1 && |topic| > 1 ==> filter[1..][1..] == filter[2..] && topic[1..][1..] == topic[2..]
  {}

  lemma {:induction false} LengthsDiffer(filter: seq<string>, topic: seq<string>)
    requires |topic| != |filter| && "#" !in filter
    ensures !LevelsMatch(filter, topic)
  {
    if filter != [] && topic != [] {
      LengthsDiffer(filter[1..], topic[1..]);
    }
  }

  lemma FiveNonEmpty(levels: seq<string>)
    requires |levels| == 5
    ensures (forall level | level in levels :: level != "")
       <==> levels[0] != "" && levels[1] != "" && levels[2] != "" && levels[3] != "" && levels[4] != ""
  {
    assert forall i | 0 <= i < 5 :: levels[i] in levels;
  }

  /** The parser accepts a topic with node deviceID exactly when the filter matches and the two
      wildcard levels are not empty. */
  lemma ParserAcceptsExactly(deviceID: string, topic: string)
    requires SafeLevel(deviceID)
    ensures (ParseDiscoveryTopic(topic).Some? && ParseDiscoveryTopic(topic).value.node == deviceID)
         <==> && Matches(DiscoveryTopicFilter(deviceID).value, topic)
              && (forall level | level in Split(topic, '/') :: level != "")
  {
    FilterMatchesExactly(deviceID, topic);
    if |Split(topic, '/')| == 5 {
      FiveNonEmpty(Split(topic, '/'));
    }
  }

  /** The parsed parts rebuild the topic. */
  lemma ParsedPartsRebuildTopic(topic: string)
    requires ParseDiscoveryTopic(topic).Some?
    ensures var a := ParseDiscoveryTopic(topic).value;
            topic == DiscoveryTopic(a.component, a.node, a.entity)
  {
    JoinSplit(topic, '/');
    var l := Split(topic, '/');
    assert l == ["homeassistant", l[1], l[2], l[3], "config"];
    JoinDiscoveryLevels(l[1], l[2], l[3]);
  }

  lemma TopicTail(component: string, node: string, entity: string)
    ensures DiscoveryTopic(component, node, entity)
         == "homeassistant" + ['/'] + (component + ['/'] + (node + ['/'] + (entity + "/config")))
  {
    var tail := node + ['/'] + (entity + "/config");
    assert "homeassistant" + ['/'] == "homeassistant/";
    assert "homeassistant/" + component + "/" + node + "/" + entity + "/config"
        == "homeassistant/" + component + "/" + tail;
  }

  /** A discovery topic has the device ID as its third level exactly when the ID is one level. */
  lemma NodeLevelExactly(component: string, deviceID: string, entity: string)
    requires '/' !in component
    ensures NodeLevel(DiscoveryTopic(component, deviceID, entity)) == Some(deviceID) <==> '/' !in deviceID
  {
    var rest := entity + "/config";
    var tail := deviceID + ['/'] + rest;
    TopicTail(component, deviceID, entity);
    SplitPeel("homeassistant", component + ['/'] + tail, '/');
    SplitPeel(component, tail, '/');
    if '/' !in deviceID {
      SplitPeel(deviceID, rest, '/');
    } else {
      JoinSplit(tail, '/');
      assert Split(tail, '/')[0] in Split(tail, '/');
    }
  }

  /** An ID of several levels publishes into the node named by its first level. */
  lemma SlashedIDLandsElsewhere(component: string, head: string, tail: string, entity: string)
    requires '/' !in component && '/' !in head
    ensures NodeLevel(DiscoveryTopic(component, head + "/" + tail, entity)) == Some(head)
  {
    var rest := tail + ['/'] + (entity + "/config");
    TopicTail(component, head + "/" + tail, entity);
    assert (head + "/" + tail) + ['/'] + (entity + "/config") == head + ['/'] + rest;
    SplitPeel("homeassistant", component + ['/'] + (head + ['/'] + rest), '/');
    SplitPeel(component, head + ['/'] + rest, '/');
    SplitPeel(head, rest, '/');
  }

  /** A discovery topic of the device is matched by the device's own filter exactly when the entity
      part is one level. */
  lemma OwnTopicMatchesExactly(component: string, deviceID: string, entity: string)
    requires SafeLevel(deviceID) && '/' !in component
    ensures Matches(DiscoveryTopicFilter(deviceID).value, DiscoveryTopic(component, deviceID, entity))
       <==> '/' !in entity
  {
    var topic := DiscoveryTopic(component, deviceID, entity);
    FilterMatchesExactly(deviceID, topic);
    if '/' !in entity {
      DiscoveryLevels(component, deviceID, entity);
    }
    if Matches(DiscoveryTopicFilter(deviceID).value, topic) {
      FiveLevelsRecoverEntity(component, deviceID, entity);
      JoinSplit(topic, '/');
      assert Split(topic, '/')[3] in Split(topic, '/');
    }
  }

  lemma FiveLevelsRecoverEntity(component: string, node: string, entity: string)
    requires '/' !in component && '/' !in node
    requires |Split(DiscoveryTopic(component, node, entity), '/')| == 5
    ensures Split(DiscoveryTopic(component, node, entity), '/')[3] == entity
  {
    var rest := entity + "/config";
    var tail := node + ['/'] + rest;
    TopicTail(component, node, entity);
    SplitPeel("homeassistant", component + ['/'] + tail, '/');
    SplitPeel(component, tail, '/');
    SplitPeel(node, rest, '/');
    assert rest == entity + ['/'] + "config";
    LastLevel(entity, "config", '/');
    TwoLevels(rest, '/');
    assert entity == rest[..|rest| - 7];
  }

  lemma TwoLevels(s: string, sep: char)
    requires |Split(s, sep)| == 2
    ensures s == Split(s, sep)[0] + [sep] + Split(s, sep)[1]
  {
    JoinSplit(s, sep);
    var l := Split(s, sep);
    assert l == [l[0], l[1]] && l[1..] == [l[1]];
  }
}
