/**
 * The node's periodic metrics cycle: it writes eight gauges about the local
 * node into the shared `node_metrics_gauges` table, then deletes every gauge
 * row, of any node, older than 24 hours. Time is in milliseconds.
 */
module NodeMetrics {

  import opened Wrappers
  import opened Seqs
  import opened UuidText
  import opened NodeRegistry

  const GAUGE_RETENTION: int := 24 * 60 * 60 * 1000

  /** One row of the `node_metrics_gauges` table. */
  datatype GaugeRow = GaugeRow(nodeId: Uuid, metricName: string, metricValue: real, createdAt: int)

  /** The gauges of one cycle, in the order they are written. */
  const GAUGE_NAMES: seq<string> := [
    "memory_bytes_total",
    "memory_bytes_available",
    "memory_bytes_used",
    "heap_bytes_total",
    "heap_bytes_available",
    "heap_bytes_used",
    "cpu_system_load",
    "process_virtual_size"
  ]

  /** The snapshot field a gauge name stands for; these are also the names of
      the matching columns of the `nodes` table. */
  function GaugeField(info: NodeInfo, name: string): Option<real> {
    if name == "memory_bytes_total" then Some(info.memoryTotal as real)
    else if name == "memory_bytes_available" then Some(info.memoryAvailable as real)
    else if name == "memory_bytes_used" then Some(info.memoryUsed as real)
    else if name == "heap_bytes_total" then Some(info.heapTotal as real)
    else if name == "heap_bytes_available" then Some(info.heapAvailable as real)
    else if name == "heap_bytes_used" then Some(info.heapUsed as real)
    else if name == "cpu_system_load" then Some(info.cpuSystemLoad)
    else if name == "process_virtual_size" then Some(info.processVirtualSize as real)
    else None
  }

  /** The snapshot values of the gauges, in GAUGE_NAMES order: each gauge
      carries the field its name stands for. */
  function GaugeValues(info: NodeInfo): (v: seq<real>)
    ensures |v| == |GAUGE_NAMES|
    ensures forall i :: 0 <= i < |v| ==> GaugeField(info, GAUGE_NAMES[i]) == Some(v[i])
  {
    [ info.memoryTotal as real, info.memoryAvailable as real, info.memoryUsed as real,
      info.heapTotal as real, info.heapAvailable as real, info.heapUsed as real,
      info.cpuSystemLoad, info.processVirtualSize as real ]
  }

  predicate Retained(g: GaugeRow, now: int) {
    g.createdAt >= now - GAUGE_RETENTION
  }

  /** The retention delete: every row created before `now` minus 24 hours goes,
      whichever node wrote it; rows at or after the cutoff stay. */
  function DeleteExpiredGauges(rows: seq<GaugeRow>, now: int): (r: seq<GaugeRow>)
    ensures forall g: GaugeRow :: g.createdAt < now - GAUGE_RETENTION ==> multiset(r)[g] == 0
    ensures forall g: GaugeRow :: g.createdAt >= now - GAUGE_RETENTION ==> multiset(r)[g] == multiset(rows)[g]
  {
    Filter(rows, (g: GaugeRow) => Retained(g, now))
  }

  /**
   * Writes the gauges in order until one write fails: all of them sit inside a
   * single `try`, so the first failure skips the rest. `writes[i]` is whether
   * the store accepts the i-th insert and `stamps[i]` the clock at that insert.
   */
  method WriteGauges(rows: seq<GaugeRow>, nodeId: Uuid, values: seq<real>,
                     writes: seq<bool>, stamps: seq<int>) returns (r: seq<GaugeRow>, written: nat)
    requires |values| == |writes| == |stamps| == |GAUGE_NAMES|
    ensures written <= |GAUGE_NAMES|
    ensures forall i :: 0 <= i < written ==> writes[i]
    ensures written < |GAUGE_NAMES| ==> !writes[written]
    // The earlier rows are untouched and the written gauges follow them in order.
    ensures |r| == |rows| + written && r[..|rows|] == rows
    ensures forall i :: 0 <= i < written ==>
              r[|rows| + i] == GaugeRow(nodeId, GAUGE_NAMES[i], values[i], stamps[i])
  {
    r := rows;
    written := 0;
    while written < |GAUGE_NAMES| && writes[written]
      invariant written <= |GAUGE_NAMES|
      invariant forall i :: 0 <= i < written ==> writes[i]
      invariant |r| == |rows| + written && r[..|rows|] == rows
      invariant forall i :: 0 <= i < written ==>
                  r[|rows| + i] == GaugeRow(nodeId, GAUGE_NAMES[i], values[i], stamps[i])
      decreases |GAUGE_NAMES| - written
    {
      r := r + [GaugeRow(nodeId, GAUGE_NAMES[written], values[written], stamps[written])];
      written := written + 1;
    }
  }

  /**
   * One metrics cycle. `snapshot` is None when collecting the health snapshot
   * fails; `deleteSucceeds` is the outcome of the retention delete, which runs
   * after the gauge writes whatever happened to them. `escaped` reports that the
   * delete failed: it sits outside the `try`, so its error leaves the cycle,
   * and under the fixed-rate schedule an escaped error cancels every later cycle.
   */
  method WriteMetrics(rows: seq<GaugeRow>, nodeId: Uuid, snapshot: Option<NodeInfo>,
                      writes: seq<bool>, stamps: seq<int>, now: int, deleteSucceeds: bool)
    returns (r: seq<GaugeRow>, written: nat, escaped: bool)
    requires |writes| == |stamps| == |GAUGE_NAMES|
    ensures snapshot.None? ==> written == 0
    ensures written <= |GAUGE_NAMES|
    ensures forall i :: 0 <= i < written ==> writes[i]
    ensures snapshot.Some? && written < |GAUGE_NAMES| ==> !writes[written]
    ensures escaped <==> !deleteSucceeds
    // The delete ran over the earlier rows together with the ones just written.
    ensures deleteSucceeds ==>
              forall g: GaugeRow :: g.createdAt < now - GAUGE_RETENTION ==> multiset(r)[g] == 0
    ensures deleteSucceeds ==>
              forall g: GaugeRow :: g.createdAt >= now - GAUGE_RETENTION ==>
                multiset(r)[g] == multiset(rows)[g]
                  + multiset(if snapshot.None? then [] else NewGauges(nodeId, GaugeValues(snapshot.value), stamps, written))[g]
    ensures !deleteSucceeds ==>
              r == rows + (if snapshot.None? then [] else NewGauges(nodeId, GaugeValues(snapshot.value), stamps, written))
  {
    var afterWrites := rows;
    written := 0;
    if snapshot.Some? {
      afterWrites, written := WriteGauges(rows, nodeId, GaugeValues(snapshot.value), writes, stamps);
      NewGaugesAppended(rows, afterWrites, nodeId, GaugeValues(snapshot.value), stamps, written);
    }
    if deleteSucceeds {
      r := DeleteExpiredGauges(afterWrites, now);
    } else {
      r := afterWrites;
    }
    escaped := !deleteSucceeds;
  }

  /** The rows written by the first `n` gauge writes of a cycle. */
  function NewGauges(nodeId: Uuid, values: seq<real>, stamps: seq<int>, n: nat): (r: seq<GaugeRow>)
    requires n <= |values| && n <= |stamps| && n <= |GAUGE_NAMES|
    ensures |r| == n
    ensures forall i :: 0 <= i < n ==> r[i] == GaugeRow(nodeId, GAUGE_NAMES[i], values[i], stamps[i])
  {
    seq(n, i requires 0 <= i < n => GaugeRow(nodeId, GAUGE_NAMES[i], values[i], stamps[i]))
  }

  lemma NewGaugesAppended(rows: seq<GaugeRow>, r: seq<GaugeRow>, nodeId: Uuid, values: seq<real>,
                          stamps: seq<int>, written: nat)
    requires written <= |values| && written <= |stamps| && written <= |GAUGE_NAMES|
    requires |r| == |rows| + written && r[..|rows|] == rows
    requires forall i :: 0 <= i < written ==>
               r[|rows| + i] == GaugeRow(nodeId, GAUGE_NAMES[i], values[i], stamps[i])
    ensures r == rows + NewGauges(nodeId, values, stamps, written)
  {
  }
}
