/**
 * Client scenarios: what a caller can conclude about the pipeline from the
 * contracts alone, for a few concrete message sequences. `parse` stands for
 * Python's `float`, of which only the needed outcomes are given.
 */
module Scenarios {
  import opened Wrappers
  import opened Topics
  import opened Table
  import opened Ingestor
  import opened Queries

  /** Two readings of one series come back oldest first, with their timestamps. */
  method TwoReadings(parse: string -> Option<real>, mac: string, measurement: string, t1: string, t2: string)
    requires Separator !in mac && Separator !in measurement
    requires parse("21.5") == Some(21.5) && parse("22.0") == Some(22.0)
  {
    var store := new Store<real>();
    var levels := ["beehive", "data", mac, measurement];
    var topic := Join(levels, Separator);
    DecodeLevels(levels, "21.5", parse);
    DecodeLevels(levels, "22.0", parse);
    OnMessage(store, topic, "21.5", parse, t1);
    OnMessage(store, topic, "22.0", parse, t2);
    assert Series(store.rows[..1], mac, measurement) == [store.rows[0]];
    assert Series(store.rows, mac, measurement) == store.rows;
    var timestamps, values := History(store.rows, mac, measurement);
    assert timestamps == [t1, t2] && values == [Some(21.5), Some(22.0)];
  }

  /** A payload that does not parse is stored as NULL, not rejected. */
  method MalformedPayload(parse: string -> Option<real>, mac: string, measurement: string, t: string)
    requires Separator !in mac && Separator !in measurement
    requires parse("abc") == None
  {
    var store := new Store<real>();
    var levels := ["beehive", "data", mac, measurement];
    var topic := Join(levels, Separator);
    DecodeLevels(levels, "abc", parse);
    OnMessage(store, topic, "abc", parse, t);
    assert |store.rows| == 1 && store.rows[0].value == None;
    assert Series(store.rows, mac, measurement) == store.rows by {
      assert store.rows[..0] == [];
    }
    var timestamps, values := History(store.rows, mac, measurement);
    assert timestamps == [t] && values == [None];
  }

  /** A three-level topic produces no row, so its device is never listed. */
  method ShortTopic(parse: string -> Option<real>, t: string)
  {
    var store := new Store<real>();
    var levels := ["beehive", "data", "dev-9"];
    var topic := Join(levels, Separator);
    SplitJoin(levels, Separator);
    SplitLength(topic, Separator);
    OnMessage(store, topic, "1.0", parse, t);
    assert store.rows == [];
    var devices := Devices(store.rows);
    assert devices == [];
  }
}
