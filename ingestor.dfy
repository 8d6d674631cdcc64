/**
 * The MQTT message handler: maps a topic `<prefix>/<x>/<mac>/<measurement>`
 * and a text payload to one new row of the table. The payload's number
 * syntax is the caller's `parse` function (Python's `float`), whose
 * `None` stands for the `ValueError` the handler catches.
 */
module Ingestor {
  import opened Wrappers
  import opened Topics
  import opened Table

  /** What one message contributes to the table, before the store adds id and timestamp. */
  datatype Reading<V> = Reading(mac: string, measurement: string, value: Option<V>)

  /**
   * The pure part of the handler: no reading for a topic with fewer than
   * four segments; otherwise one reading, whatever the payload, with the
   * parse outcome stored as is (an unparsable payload gives `None`).
   */
  function Decode<V>(topic: string, payload: string, parse: string -> Option<V>): (r: Option<Reading<V>>)
    ensures r.None? <==> Count(topic, Separator) < 3
    ensures r.Some? ==> r.value.value == parse(payload)
    ensures r.Some? ==> Separator !in r.value.mac && Separator !in r.value.measurement
  {
    ParseTopicDrops(topic);
    match ParseTopic(topic)
    case None => None
    case Some((mac, measurement)) =>
      Some(Reading(mac, measurement, parse(payload)))
  }

  /**
   * For a topic made of four or more separator-free levels, the reading
   * carries level 2 as MAC address and level 3 as measurement, and the
   * levels after the fourth play no part.
   */
  lemma DecodeLevels<V>(levels: seq<string>, payload: string, parse: string -> Option<V>)
    requires |levels| >= 4
    requires forall i :: 0 <= i < |levels| ==> Separator !in levels[i]
    ensures Decode(Join(levels, Separator), payload, parse) == Some(Reading(levels[2], levels[3], parse(payload)))
  {
    ParseTopicOfLevels(levels);
  }

  /**
   * The handler with its effect on the table: a dropped topic leaves the
   * store as it was; any other message appends exactly one row.
   */
  method OnMessage<V>(store: Store<V>, topic: string, payload: string, parse: string -> Option<V>, timestamp: string)
    requires store.Valid()
    modifies store
    ensures store.Valid()
    ensures Decode(topic, payload, parse).None? ==>
      store.rows == old(store.rows) && store.nextId == old(store.nextId)
    ensures Decode(topic, payload, parse).Some? ==>
      var reading := Decode(topic, payload, parse).value;
      store.rows == old(store.rows) + [Row(old(store.nextId), reading.mac, reading.measurement, reading.value, timestamp)]
    ensures Decode(topic, payload, parse).Some? ==> store.nextId == old(store.nextId) + 1
  {
    // The body follows the handler statement by statement (split, guard,
    // field choice, parse-or-None, insert); `Decode` is the same logic as a
    // value, and the postconditions tie the two together.
    var topicParts := Split(topic, Separator);
    if |topicParts| < 4 {
      return;
    }
    var mac := topicParts[2];
    var measurement := topicParts[3];
    var value := parse(payload);
    store.Insert(mac, measurement, value, timestamp);
  }
}
