/**
 * The three read queries over the `sensor_data` rows: the distinct devices,
 * the distinct measurements of one device, and the history of one series
 * (device, measurement) as two aligned lists.
 */
module Queries {
  import opened Wrappers
  import opened Collation
  import opened Table

  /** `LIMIT 50` of the history query. */
  const HistoryLimit: nat := 50

  /** True when some row reports from `mac`. */
  predicate HasDevice<V>(rows: seq<Row<V>>, mac: string)
  {
    exists i :: 0 <= i < |rows| && rows[i].mac == mac
  }

  /** True when some row of device `mac` reports measurement `m`. */
  predicate HasMeasurement<V>(rows: seq<Row<V>>, mac: string, m: string)
  {
    exists i :: 0 <= i < |rows| && rows[i].mac == mac && rows[i].measurement == m
  }

  /** The `mac_address` column, in storage order. */
  function MacColumn<V>(rows: seq<Row<V>>): (r: seq<string>)
    ensures forall m :: m in Elements(r) <==> HasDevice(rows, m)
  {
    if rows == [] then []
    else
      var init := rows[..|rows| - 1];
      var r := MacColumn(init) + [rows[|rows| - 1].mac];
      assert forall m :: HasDevice(rows, m) <==> HasDevice(init, m) || m == rows[|rows| - 1].mac by {
        forall m | HasDevice(init, m) ensures HasDevice(rows, m) {
          var i :| 0 <= i < |init| && init[i].mac == m;
          assert rows[i] == init[i];
        }
        forall m | HasDevice(rows, m) && m != rows[|rows| - 1].mac ensures HasDevice(init, m) {
          var i :| 0 <= i < |rows| && rows[i].mac == m;
          assert init[i] == rows[i];
        }
      }
      r
  }

  /** The `measurement` column of the rows `WHERE mac_address = mac`, in storage order. */
  function MeasurementColumn<V>(rows: seq<Row<V>>, mac: string): (r: seq<string>)
    ensures forall m :: m in Elements(r) <==> HasMeasurement(rows, mac, m)
  {
    if rows == [] then []
    else
      var init := rows[..|rows| - 1];
      var last := rows[|rows| - 1];
      var r := MeasurementColumn(init, mac) + (if last.mac == mac then [last.measurement] else []);
      assert forall m :: HasMeasurement(rows, mac, m) <==>
          HasMeasurement(init, mac, m) || (last.mac == mac && m == last.measurement) by {
        forall m | HasMeasurement(init, mac, m) ensures HasMeasurement(rows, mac, m) {
          var i :| 0 <= i < |init| && init[i].mac == mac && init[i].measurement == m;
          assert rows[i] == init[i];
        }
        forall m | HasMeasurement(rows, mac, m) && !(last.mac == mac && m == last.measurement)
          ensures HasMeasurement(init, mac, m)
        {
          var i :| 0 <= i < |rows| && rows[i].mac == mac && rows[i].measurement == m;
          assert init[i] == rows[i];
        }
      }
      r
  }

  /**
   * `SELECT DISTINCT mac_address ... ORDER BY mac_address`: strictly
   * ascending, and holding exactly the devices that have a row.
   */
  function Devices<V>(rows: seq<Row<V>>): (r: seq<string>)
    ensures StrictlySorted(r)
    ensures forall m :: m in r <==> HasDevice(rows, m)
    ensures rows == [] ==> r == []
  {
    var r := SortedDistinct(MacColumn(rows));
    assert forall m :: m in r <==> m in Elements(r);
    ElementsEmpty(r);
    r
  }

  /**
   * `SELECT DISTINCT measurement ... WHERE mac_address = ? ORDER BY
   * measurement`: strictly ascending, holding exactly the measurements
   * reported by `mac`; empty for a device without rows.
   */
  function Measurements<V>(rows: seq<Row<V>>, mac: string): (r: seq<string>)
    ensures StrictlySorted(r)
    ensures forall m :: m in r <==> HasMeasurement(rows, mac, m)
    ensures !HasDevice(rows, mac) ==> r == []
  {
    var r := SortedDistinct(MeasurementColumn(rows, mac));
    assert forall m :: m in r <==> m in Elements(r);
    ElementsEmpty(r);
    r
  }

  /**
   * The device list depends only on which devices have rows, not on the
   * order or number of the rows: it is the one strictly ascending listing
   * of that set.
   */
  lemma DevicesDetermined<V>(rows1: seq<Row<V>>, rows2: seq<Row<V>>)
    requires forall m :: HasDevice(rows1, m) <==> HasDevice(rows2, m)
    ensures Devices(rows1) == Devices(rows2)
  {
    var d1, d2 := Devices(rows1), Devices(rows2);
    assert Elements(d1) == Elements(d2) by {
      assert forall m :: m in Elements(d1) <==> m in d1;
      assert forall m :: m in Elements(d2) <==> m in d2;
    }
    SortedUnique(d1, d2);
  }

  /** The same for the measurement list of one device. */
  lemma MeasurementsDetermined<V>(rows1: seq<Row<V>>, rows2: seq<Row<V>>, mac: string)
    requires forall m :: HasMeasurement(rows1, mac, m) <==> HasMeasurement(rows2, mac, m)
    ensures Measurements(rows1, mac) == Measurements(rows2, mac)
  {
    var l1, l2 := Measurements(rows1, mac), Measurements(rows2, mac);
    assert Elements(l1) == Elements(l2) by {
      assert forall m :: m in Elements(l1) <==> m in l1;
      assert forall m :: m in Elements(l2) <==> m in l2;
    }
    SortedUnique(l1, l2);
  }

  /** Appending a row adds its device to the device list and nothing else. */
  lemma DevicesAfterAppend<V>(rows: seq<Row<V>>, row: Row<V>)
    ensures forall m :: m in Devices(rows + [row]) <==> m in Devices(rows) || m == row.mac
  {
  }

  // ---------------------------------------------------------------------
  // History of one series

  /** True when `row` belongs to the series (`mac`, `measurement`). */
  predicate InSeries<V>(row: Row<V>, mac: string, measurement: string)
  {
    row.mac == mac && row.measurement == measurement
  }

  /** `WHERE mac_address = ? AND measurement = ?`, in storage order. */
  function Series<V>(rows: seq<Row<V>>, mac: string, measurement: string): (r: seq<Row<V>>)
    ensures |r| <= |rows|
    ensures forall k :: 0 <= k < |r| ==> InSeries(r[k], mac, measurement)
  {
    if rows == [] then []
    else
      var last := rows[|rows| - 1];
      Series(rows[..|rows| - 1], mac, measurement) + (if InSeries(last, mac, measurement) then [last] else [])
  }

  /** The series keeps the rows' id order. */
  lemma {:induction false} SeriesIdsIncreasing<V>(rows: seq<Row<V>>, mac: string, measurement: string)
    requires IdsIncreasing(rows)
    ensures IdsIncreasing(Series(rows, mac, measurement))
    ensures forall k :: 0 <= k < |Series(rows, mac, measurement)| ==>
      exists i :: 0 <= i < |rows| && rows[i] == Series(rows, mac, measurement)[k]
  {
    if rows != [] {
      var init := rows[..|rows| - 1];
      var last := rows[|rows| - 1];
      SeriesIdsIncreasing(init, mac, measurement);
      var s := Series(init, mac, measurement);
      forall k | 0 <= k < |s| ensures s[k].id < last.id {
        var i :| 0 <= i < |init| && init[i] == s[k];
        assert rows[i] == init[i];
      }
      forall k | 0 <= k < |s| ensures exists i :: 0 <= i < |rows| && rows[i] == s[k] {
        var i :| 0 <= i < |init| && init[i] == s[k];
        assert rows[i] == init[i];
      }
    }
  }

  /** Every row of the series is in the result of `Series`. */
  lemma {:induction false} SeriesComplete<V>(rows: seq<Row<V>>, mac: string, measurement: string, i: nat)
    requires i < |rows| && InSeries(rows[i], mac, measurement)
    ensures exists k :: 0 <= k < |Series(rows, mac, measurement)| && Series(rows, mac, measurement)[k] == rows[i]
  {
    var init := rows[..|rows| - 1];
    var s := Series(rows, mac, measurement);
    if i == |rows| - 1 {
      assert s[|s| - 1] == rows[i];
    } else {
      SeriesComplete(init, mac, measurement, i);
      var k :| 0 <= k < |Series(init, mac, measurement)| && Series(init, mac, measurement)[k] == init[i];
      assert s[k] == rows[i];
    }
  }

  /** Appending a row extends its own series and leaves every other series as it was. */
  lemma SeriesAfterAppend<V>(rows: seq<Row<V>>, row: Row<V>, mac: string, measurement: string)
    ensures Series(rows + [row], mac, measurement) ==
      Series(rows, mac, measurement) + (if InSeries(row, mac, measurement) then [row] else [])
  {
    assert (rows + [row])[..|rows|] == rows;
  }

  /** The sequence in reverse order (`list.reverse()`). */
  function Reversed<T>(s: seq<T>): (r: seq<T>)
    ensures |r| == |s|
  {
    if s == [] then [] else Reversed(s[1..]) + [s[0]]
  }

  lemma {:induction false} ReversedAt<T>(s: seq<T>, k: nat)
    requires k < |s|
    ensures Reversed(s)[k] == s[|s| - 1 - k]
  {
    if k < |s| - 1 {
      ReversedAt(s[1..], k);
    }
  }

  function Min(a: nat, b: nat): nat
  {
    if a <= b then a else b
  }

  /**
   * `SELECT timestamp, value ... ORDER BY id DESC LIMIT 50` for a store
   * whose ids increase in storage order: the series newest first, cut
   * after `HistoryLimit` rows.
   */
  function NewestFirst<V>(rows: seq<Row<V>>, mac: string, measurement: string): (r: seq<Row<V>>)
    ensures |r| == Min(HistoryLimit, |Series(rows, mac, measurement)|)
  {
    var newest := Reversed(Series(rows, mac, measurement));
    if |newest| <= HistoryLimit then newest else newest[..HistoryLimit]
  }

  /**
   * `NewestFirst` is what `ORDER BY id DESC LIMIT 50` selects: its ids
   * strictly decrease, it starts at the newest row of the series, and every
   * row of the series it leaves out is older than every row it keeps.
   */
  lemma NewestFirstIsTopById<V>(rows: seq<Row<V>>, mac: string, measurement: string)
    requires IdsIncreasing(rows)
    ensures var s, q := Series(rows, mac, measurement), NewestFirst(rows, mac, measurement);
      (forall k, l :: 0 <= k < l < |q| ==> q[k].id > q[l].id) &&
      (forall k :: 0 <= k < |q| ==> q[k] == s[|s| - 1 - k]) &&
      (forall i, k :: 0 <= i < |s| - |q| && 0 <= k < |q| ==> s[i].id < q[k].id)
  {
    var s, q := Series(rows, mac, measurement), NewestFirst(rows, mac, measurement);
    SeriesIdsIncreasing(rows, mac, measurement);
    forall k | 0 <= k < |q| ensures q[k] == s[|s| - 1 - k] {
      ReversedAt(s, k);
    }
  }

  /**
   * The chronological history of a series: the `NewestFirst` rows put
   * back oldest first, which is the last min(50, n) rows of the n-row
   * series, in storage order.
   */
  function Chronological<V>(rows: seq<Row<V>>, mac: string, measurement: string): (r: seq<Row<V>>)
    ensures var s := Series(rows, mac, measurement);
      r == s[|s| - Min(HistoryLimit, |s|)..]
  {
    var s := Series(rows, mac, measurement);
    var q := NewestFirst(rows, mac, measurement);
    var r := Reversed(q);
    assert r == s[|s| - |q|..] by {
      forall k | 0 <= k < |q| ensures r[k] == s[|s| - |q| + k] {
        ReversedAt(q, k);
        ReversedAt(s, |q| - 1 - k);
      }
    }
    r
  }

  /**
   * Appending a row of the series slides the history window: the new row
   * becomes the last entry, preceded by the newest entries of the previous
   * history; appending a row of another series leaves the history as it was.
   */
  lemma ChronologicalAfterAppend<V>(rows: seq<Row<V>>, row: Row<V>, mac: string, measurement: string)
    ensures !InSeries(row, mac, measurement) ==>
      Chronological(rows + [row], mac, measurement) == Chronological(rows, mac, measurement)
    ensures InSeries(row, mac, measurement) ==>
      var h, h0 := Chronological(rows + [row], mac, measurement), Chronological(rows, mac, measurement);
      0 < |h| && h[|h| - 1] == row && |h| - 1 <= |h0| && h[..|h| - 1] == h0[|h0| - (|h| - 1)..]
  {
    SeriesAfterAppend(rows, row, mac, measurement);
    var s0 := Series(rows, mac, measurement);
    if InSeries(row, mac, measurement) {
      var s := s0 + [row];
      var h, h0 := Chronological(rows + [row], mac, measurement), Chronological(rows, mac, measurement);
      assert h == s[|s| - Min(HistoryLimit, |s|)..];
      assert h0 == s0[|s0| - Min(HistoryLimit, |s0|)..];
      assert h[..|h| - 1] == s0[|s0| - (|h| - 1)..];
    }
  }

  /** `rows.reverse()`: reverses the fetched rows in place. */
  method ReverseRows<V>(a: array<Row<V>>)
    modifies a
    ensures a[..] == Reversed(old(a[..]))
  {
    var n, i := a.Length, 0;
    while i < n / 2
      invariant 0 <= i <= n / 2
      invariant forall k :: 0 <= k < i ==> a[k] == old(a[n - 1 - k]) && a[n - 1 - k] == old(a[k])
      invariant forall k :: i <= k < n - i ==> a[k] == old(a[k])
    {
      a[i], a[n - 1 - i] := a[n - 1 - i], a[i];
      i := i + 1;
    }
    ghost var fetched := old(a[..]);
    forall k | 0 <= k < n ensures a[..][k] == Reversed(fetched)[k] {
      ReversedAt(fetched, k);
    }
  }

  /**
   * The history query: at most 50 entries, two aligned lists, holding the
   * timestamp and the value (NULL passed through as `None`) of each of the
   * last min(50, n) rows of the series, oldest first.
   */
  method History<V>(rows: seq<Row<V>>, mac: string, measurement: string)
    returns (timestamps: seq<string>, values: seq<Option<V>>)
    ensures var s := Series(rows, mac, measurement);
      |timestamps| == |values| == Min(HistoryLimit, |s|) &&
      forall k :: 0 <= k < |timestamps| ==>
        timestamps[k] == s[|s| - |timestamps| + k].timestamp && values[k] == s[|s| - |timestamps| + k].value
  {
    var fetched := NewestFirst(rows, mac, measurement);
    var buffer := new Row<V>[|fetched|](k requires 0 <= k < |fetched| => fetched[k]);
    assert buffer[..] == fetched;
    ReverseRows(buffer);
    var oldestFirst := buffer[..];
    assert oldestFirst == Chronological(rows, mac, measurement);
    timestamps := seq(|oldestFirst|, k requires 0 <= k < |oldestFirst| => oldestFirst[k].timestamp);
    values := seq(|oldestFirst|, k requires 0 <= k < |oldestFirst| => oldestFirst[k].value);
  }
}
