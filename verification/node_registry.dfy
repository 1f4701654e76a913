/**
 * The shared `nodes` table and the local node's registration in it. The table
 * is a sequence of rows whose `uuid` column is unique; registration is a single
 * insert-or-update keyed on that column that refreshes every mutable column and
 * stamps `last_seen` with the store's current time (milliseconds).
 */
module NodeRegistry {

  import opened Wrappers
  import opened UuidText
  import opened NodeIdentity

  /** The health snapshot of a node, as collected from the local process and OS. */
  datatype NodeInfo = NodeInfo(
    memoryTotal: int,
    memoryAvailable: int,
    memoryUsed: int,
    heapTotal: int,
    heapAvailable: int,
    heapUsed: int,
    cpuSystemLoad: real,
    cpuThreadCount: int,
    processStartTime: int,
    processVirtualSize: int,
    processArguments: string,
    osInformation: string)

  /** One row of the `nodes` table. */
  datatype NodeRow = NodeRow(
    uuid: Uuid,
    name: string,
    httpExternalUri: string,
    version: string,
    lastSeen: int,
    info: NodeInfo)

  /** The primary-key constraint on `uuid`. */
  predicate UniqueIds(rows: seq<NodeRow>) {
    forall i, j :: 0 <= i < j < |rows| ==> rows[i].uuid != rows[j].uuid
  }

  predicate HasId(rows: seq<NodeRow>, id: Uuid) {
    exists i :: 0 <= i < |rows| && rows[i].uuid == id
  }

  /** Insert `row`, or overwrite the row with the same `uuid` if there is one. */
  function Upsert(rows: seq<NodeRow>, row: NodeRow): (r: seq<NodeRow>)
    requires UniqueIds(rows)
    ensures UniqueIds(r)
    ensures row in r
    ensures forall x :: x in r && x.uuid == row.uuid ==> x == row
    ensures forall x: NodeRow :: x.uuid != row.uuid ==> (x in r <==> x in rows)
    ensures |r| == if HasId(rows, row.uuid) then |rows| else |rows| + 1
    decreases |rows|
  {
    if |rows| == 0 then [row]
    else if rows[0].uuid == row.uuid then
      assert forall x :: x in rows[1..] ==> x.uuid != row.uuid;
      [row] + rows[1..]
    else
      var rest := Upsert(rows[1..], row);
      assert forall x :: x in rest ==> x.uuid != rows[0].uuid;
      assert HasId(rows, row.uuid) <==> HasId(rows[1..], row.uuid);
      [rows[0]] + rest
  }

  datatype RegisterError =
    | NotInitialized  // the local identifier is unset
    | CollectFailed   // collecting the health snapshot raised an error
    | StoreFailed     // the upsert statement raised an error

  /** Registration of the local node with the values it currently reports.
      `snapshot` is None when collecting the health snapshot fails, and
      `storeSucceeds` is the outcome of the upsert statement. */
  function RegisterSelf(m: NodeManager, rows: seq<NodeRow>, name: string, httpExternalUri: string,
                        version: string, snapshot: Option<NodeInfo>, storeSucceeds: bool, now: int)
    : (r: Result<seq<NodeRow>, RegisterError>)
    requires UniqueIds(rows)
    ensures r == Failure(NotInitialized) <==> GetLocalNodeId(m).None?
    ensures r == Failure(CollectFailed) <==> GetLocalNodeId(m).Some? && snapshot.None?
    ensures r == Failure(StoreFailed) <==> GetLocalNodeId(m).Some? && snapshot.Some? && !storeSucceeds
    ensures r.Success? ==> UniqueIds(r.value)
    // Exactly one row for the local node, holding the supplied values, seen now.
    ensures r.Success? ==>
              NodeRow(m.localNodeId.value, name, httpExternalUri, version, now, snapshot.value) in r.value
              && forall x :: x in r.value && x.uuid == m.localNodeId.value ==>
                   x == NodeRow(m.localNodeId.value, name, httpExternalUri, version, now, snapshot.value)
    // Every other node's row is left as it was.
    ensures r.Success? ==>
              forall x: NodeRow :: x.uuid != m.localNodeId.value ==> (x in r.value <==> x in rows)
  {
    match m.localNodeId
    case None => Failure(NotInitialized)
    case Some(id) =>
      if snapshot.None? then Failure(CollectFailed)
      else if !storeSucceeds then Failure(StoreFailed)
      else Success(Upsert(rows, NodeRow(id, name, httpExternalUri, version, now, snapshot.value)))
  }

  /** Upserting twice for one identifier is the same as upserting the second row once. */
  lemma {:induction false} UpsertTwice(rows: seq<NodeRow>, first: NodeRow, second: NodeRow)
    requires UniqueIds(rows)
    requires first.uuid == second.uuid
    ensures Upsert(Upsert(rows, first), second) == Upsert(rows, second)
    decreases |rows|
  {
    if |rows| > 0 && rows[0].uuid != first.uuid {
      var once := Upsert(rows, first);
      assert once == [rows[0]] + Upsert(rows[1..], first);
      assert once[1..] == Upsert(rows[1..], first);
      UpsertTwice(rows[1..], first, second);
    }
  }

  /** Two registrations in a row leave one row, with the second call's values. */
  lemma RegisterTwice(m: NodeManager, rows: seq<NodeRow>, name1: string, uri1: string, version1: string,
                      info1: NodeInfo, now1: int, name2: string, uri2: string, version2: string,
                      info2: NodeInfo, now2: int)
    requires UniqueIds(rows)
    requires GetLocalNodeId(m).Some?
    ensures var once := RegisterSelf(m, rows, name1, uri1, version1, Some(info1), true, now1).value;
            RegisterSelf(m, once, name2, uri2, version2, Some(info2), true, now2)
              == RegisterSelf(m, rows, name2, uri2, version2, Some(info2), true, now2)
  {
    var id := m.localNodeId.value;
    UpsertTwice(rows, NodeRow(id, name1, uri1, version1, now1, info1),
                NodeRow(id, name2, uri2, version2, now2, info2));
  }
}
