/**
 * The `sensor_data` table: an append-only sequence of rows with an
 * auto-increment `id`. The table lives in SQLite in the original; here it is
 * an in-memory sequence held by a `Store` object, and the store-assigned
 * `CURRENT_TIMESTAMP` is passed in by the caller.
 */
module Table {
  import opened Wrappers

  /**
   * One row of `sensor_data`. `value` is `None` for SQL NULL (a payload that
   * did not parse as a number); `V` is the numeric type, left abstract.
   */
  datatype Row<V> = Row(id: nat, mac: string, measurement: string, value: Option<V>, timestamp: string)

  /** The first id SQLite's AUTOINCREMENT hands out in a fresh table. */
  const FirstId: nat := 1

  /** Row ids strictly increase in storage (insertion) order. */
  predicate IdsIncreasing<V>(rows: seq<Row<V>>)
  {
    forall i, j :: 0 <= i < j < |rows| ==> rows[i].id < rows[j].id
  }

  /** Every row id is below `bound`. */
  predicate IdsBelow<V>(rows: seq<Row<V>>, bound: nat)
  {
    forall i :: 0 <= i < |rows| ==> rows[i].id < bound
  }

  class Store<V> {
    /** The rows of `sensor_data`, in insertion order. */
    var rows: seq<Row<V>>
    /** The id the next insert receives. */
    var nextId: nat

    ghost predicate Valid()
      reads this
    {
      FirstId <= nextId && IdsIncreasing(rows) && IdsBelow(rows, nextId)
    }

    /** The table as `CREATE TABLE IF NOT EXISTS` leaves it on first start. */
    constructor ()
      ensures Valid()
      ensures rows == [] && nextId == FirstId
    {
      rows := [];
      nextId := FirstId;
    }

    /**
     * `INSERT INTO sensor_data (mac_address, measurement, value)`: appends
     * exactly one row, whose id is larger than every id already stored; the
     * rows already present are unchanged and keep their order.
     */
    method Insert(mac: string, measurement: string, value: Option<V>, timestamp: string)
      requires Valid()
      modifies this
      ensures Valid()
      ensures forall i :: 0 <= i < |old(rows)| ==> old(rows)[i].id < old(nextId)
      ensures rows == old(rows) + [Row(old(nextId), mac, measurement, value, timestamp)]
      ensures nextId == old(nextId) + 1
    {
      rows := rows + [Row(nextId, mac, measurement, value, timestamp)];
      nextId := nextId + 1;
    }
  }
}
