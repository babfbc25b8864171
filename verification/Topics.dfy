/** Telemetry topics (modules/mqtt/module.go:183-196, 236-242). Levels are separated by '/', section 4.7.1.1
    of OASIS MQTT Version 5.0. */
module Topics {
  import opened Text

  function TelemetryTopic(device: string): string {
    "deviceos/" + device + "/telemetry"
  }

  /** The write check of OnACLCheck for a session's device. */
  predicate AclAccepts(device: string, topic: string) {
    topic == TelemetryTopic(device)
  }

  function ParseTelemetryTopic(topic: string): Option<string> {
    var parts := Split(topic, '/');
    if |parts| == 3 && parts[0] == "deviceos" && parts[2] == "telemetry" then Some(parts[1]) else None
  }

  lemma TopicParts(device: string)
    ensures TelemetryTopic(device) == Join(["deviceos", device, "telemetry"], '/')
    ensures Free(device, '/') ==> Split(TelemetryTopic(device), '/') == ["deviceos", device, "telemetry"]
  {
    var parts := ["deviceos", device, "telemetry"];
    assert Join(parts[1..][1..], '/') == "telemetry";
    assert Join(parts[1..], '/') == device + "/" + "telemetry";
    assert Join(parts, '/') == "deviceos" + "/" + (device + "/" + "telemetry");
    if Free(device, '/') {
      SplitJoin(parts, '/');
    }
  }

  /** Any topic that parses is the topic built from what was parsed, and no parsed device id holds a '/'. */
  lemma ParsedTopicRebuilds(topic: string)
    requires ParseTelemetryTopic(topic).Some?
    ensures TelemetryTopic(ParseTelemetryTopic(topic).value) == topic
    ensures Free(ParseTelemetryTopic(topic).value, '/')
  {
    var parts := Split(topic, '/');
    JoinSplit(topic, '/');
    assert parts == ["deviceos", parts[1], "telemetry"];
    TopicParts(parts[1]);
  }

  /** The write check and the parser agree on every topic exactly when the session's device id has no '/'. */
  lemma AclAgreesWithParser(device: string)
    ensures Free(device, '/') <==>
            forall topic :: AclAccepts(device, topic) <==> ParseTelemetryTopic(topic) == Some(device)
  {
    if Free(device, '/') {
      TopicParts(device);
      forall topic ensures AclAccepts(device, topic) <==> ParseTelemetryTopic(topic) == Some(device) {
        if ParseTelemetryTopic(topic) == Some(device) { ParsedTopicRebuilds(topic); }
      }
    } else {
      var topic := TelemetryTopic(device);
      assert AclAccepts(device, topic);
      if ParseTelemetryTopic(topic) == Some(device) { ParsedTopicRebuilds(topic); }
    }
  }
}
