# nzyme: TCP session table and cluster node registry, modelled in Dafny

This project models two pieces of nzyme.

**The tap's TCP session table** (`tap/src/data/tcp_table.rs`). The table maps session keys to sessions. Each captured segment goes through a small state observer (`determine_session_state`), loosely following the connection lifecycle of section 3.5 of RFC 793. The segment then updates the counters, timestamps and per-direction payload stores of its session. A new session is created only for a bare SYN. On each report cycle the table is swept: idle sessions are marked timed out, and closed sessions are removed.

**The node manager of the cluster** (`NodeManager.java`):
- identity resolution from the `node_id` file at start-up;
- registration of the local node as an upsert on `uuid` into the shared `nodes` table;
- the liveness query (nodes seen within 24 hours, by name descending, rows that fail conversion skipped);
- the metrics cycle (eight gauges written in order, then a 24-hour retention delete over all nodes' gauges).

Everything is pure functions over immutable datatypes. Tables are `map`s or `seq`s of rows. The clock, random identifiers and OS metrics are parameters. So are the outcomes of the I/O steps the model covers: reading and writing the identity file, collecting the health snapshot, the registration upsert, the liveness SELECT, each gauge write and the retention delete.

Modules:
- `Wrappers`: Option, Result.
- `Seqs`: an order-preserving filter, characterised by element counts and a subsequence relation.
- `TcpState`: the state observer and its lemmas.
- `TcpTable`: sessions, segment registration, sweeps.
- `UuidText`: the 8-4-4-4-12 text form of identifiers (section 3 of RFC 4122) and its round trip.
- `NodeIdentity`: initialisation and the cached local id.
- `NodeRegistry`: node rows and registration.
- `Liveness`: the active-nodes query.
- `NodeMetrics`: gauge writes and retention.
- `Scenarios`: one node's life end to end.

The TCP side counts time in nanoseconds, so the timeout is 60 s = 60·10⁹. The node-manager side counts in milliseconds, so the window is 24 h = 86 400 000.

Error handling in the source, as written:
- A malformed `node_id` file makes `UUID.fromString` (NodeManager.java:40) throw `IllegalArgumentException`, which the `IOException` handler at line 41 does not catch. The model reports `MalformedId`, separate from the wrapped read failure `ReadFailed`. The file is not rewritten in either case.
- The new identity file is written with `StandardOpenOption.CREATE` (line 49). Its only failure is an `IOException`, which the model reports as `WriteFailed`.
- The eight gauge writes share one `try` (lines 152-165), so the first failing write skips the remaining gauges, and the error is logged.
- The retention delete (lines 168-172) runs after that `try`, whatever happened inside it. It is outside the `try`, so its failure leaves `writeMetrics` (`escaped`). `writeMetrics` runs under `scheduleAtFixedRate` (line 63), so an escaped error cancels every later metrics cycle.

## Model

| member | source | states |
|---|---|---|
| TcpState.DetermineSessionState | tap/src/data/tcp_table.rs:160-226 | A closed state (ClosedFin, ClosedRst, ClosedTimeout) never changes. ClosedTimeout never results from a segment. ClosedFin is reached only by ACK from FinWait2. Refused holds iff RST answers SynSent (without SYN+ACK). RST ends any other open session except when the handshake test matches first. An unknown session opens (SynSent) iff SYN without ACK. |
| TcpState.OpenSessionTransitions | tap/src/data/tcp_table.rs:169-191 | Each transition of an open session, guarded by the failure of every earlier test. SYN+ACK gives SynReceived. ACK in SynReceived gives Established. RST in SynSent gives Refused, and any other RST gives ClosedRst. FIN in Established, with or without ACK, gives FinWait1. ACK in FinWait1 gives FinWait2, and ACK in FinWait2 gives ClosedFin. Every remaining combination (e.g. ACK in Established, a repeated SYN in SynSent) gives Established. |
| TcpState.ClosedStaysClosed | tap/src/data/tcp_table.rs:164-167 | After any sequence of segments, a closed session is still in the same closed state. |
| TcpState.SegmentsNeverTimeOut | tap/src/data/tcp_table.rs:160-226 | No sequence of segments leads a session that has not timed out into ClosedTimeout. Only the sweep sets it. |
| TcpState.RefusedReopens | tap/src/data/tcp_table.rs:175-191 | Refused is not absorbing: every later segment without RST and without SYN+ACK, a retransmitted SYN included, yields Established. |
| TcpTable.InsertSessionSegment | tap/src/data/tcp_table.rs:229-240 | The store gains exactly the segment's sequence number. Every payload already present is unchanged, so a retransmission is ignored. A new number maps to the segment's payload. |
| TcpTable.RetransmissionKeepsFirstPayload | tap/src/data/tcp_table.rs:230-237 | Inserting two segments with the same sequence number keeps the first one's payload. |
| TcpTable.NewSession | tap/src/data/tcp_table.rs:99-114 | A new session is SynSent with one segment and `size` bytes. Start and most-recent times are the segment's timestamp. There is no end time, no tags and two empty stores. Its endpoints come from the segment. |
| TcpTable.UpdateSession | tap/src/data/tcp_table.rs:66-89 | On an existing session: the state is the observer's, the segment count rises by exactly 1, bytes rise by `size`, and the most-recent time is the segment's. The end time is written only when unset and the new state is ClosedFin/ClosedRst, and never changes once set. An empty payload is not stored. A non-empty one goes into its direction's store only. Endpoints, start time and tags are unchanged. |
| TcpTable.RegisterSegment | tap/src/data/tcp_table.rs:63-128 | The key set grows only for an existing key or a bare SYN. An unknown key with any other flags leaves the table identical. A new key maps to NewSession. An existing key maps to UpdateSession. Every other session is untouched. |
| TcpTable.UpdatePreservesInv | tap/src/data/tcp_table.rs:71-89 | One segment preserves the session invariant: count at least 1, every stored payload non-empty, ClosedFin/ClosedRst imply an end time, and an end time implies a closed state. |
| TcpTable.RegisterPreservesInv | tap/src/data/tcp_table.rs:63-128 | Registering a segment preserves the invariant of every session in the table. |
| TcpTable.RegisterAllPreservesInv | tap/src/data/tcp_table.rs:63-128 | The invariant survives any sequence of segments. |
| TcpTable.RegisterAllOnSession | tap/src/data/tcp_table.rs:82-89 | Over any sequence of segments, a recorded session stays recorded. Its count grows by exactly the number of its own segments. Its start time is fixed. An end time once set is never overwritten, and a closed state is kept. |
| TcpTable.TimeoutSweep | tap/src/data/tcp_table.rs:242-249 | Same keys. A session idle for strictly more than 60 s becomes ClosedTimeout. Nothing but the state changes, and sessions that are not idle are unchanged. |
| TcpTable.RetentionSweep | tap/src/data/tcp_table.rs:251-253 | A key survives iff its state is not ClosedTimeout/ClosedRst/ClosedFin, so Refused and open sessions stay. Survivors are unchanged. |
| TcpTable.TagSessions | tap/src/data/tcp_table.rs:136 | Stand-in for the tagger: same keys, only the `tags` of each session replaced. |
| TcpTable.ProcessReport | tap/src/data/tcp_table.rs:130-158 | After timeout sweep, tagging and retention sweep, no remaining session is closed. A key remains iff it was neither closed nor idle. Each survivor differs from before only in its tags. |
| TcpTable.ProcessReportPreservesInv | tap/src/data/tcp_table.rs:130-158 | The sweeps of a report cycle preserve the session invariant. |
| UuidText.Format | src/main/java/app/nzyme/core/distributed/NodeManager.java:49 | The text written for a new id has 36 characters, hyphens at 8/13/18/23, and the lower-case hex digit of each nibble elsewhere. |
| UuidText.Parse | src/main/java/app/nzyme/core/distributed/NodeManager.java:40 | The file text is accepted iff it is well formed. The result holds the hex value of each digit position. |
| UuidText.ParseFormat | src/main/java/app/nzyme/core/distributed/NodeManager.java:40-54 | A written id reads back as itself. |
| UuidText.FormatParse | src/main/java/app/nzyme/core/distributed/NodeManager.java:40 | An accepted text equals, up to letter case, the canonical text of the id it parses to. |
| NodeIdentity.Initialize | src/main/java/app/nzyme/core/distributed/NodeManager.java:34-56 | An existing file is never written. Success happens iff the file holds a valid id, or is missing and the write succeeds. On success the cached id returned by getLocalNodeId is the id the file names, and is the fresh id for a new install. A malformed file gives MalformedId, an unreadable one ReadFailed, and a failed write WriteFailed. On any error the manager is unchanged. |
| NodeIdentity.GetLocalNodeId | src/main/java/app/nzyme/core/distributed/NodeManager.java:190-192 | Returns the id cached in the manager. It is unset (null) exactly for a manager that has not been initialised. The value it returns after initialisation is stated by NodeIdentity.Initialize. |
| NodeIdentity.RestartKeepsIdentity | src/main/java/app/nzyme/core/distributed/NodeManager.java:37-43 | After a successful initialisation, a restart resolves the same id whatever fresh id it would draw, and leaves the file as it was. |
| NodeIdentity.FreshInstallWritesId | src/main/java/app/nzyme/core/distributed/NodeManager.java:44-55 | A fresh install writes the canonical text of the generated id. |
| NodeRegistry.Upsert | src/main/java/app/nzyme/core/distributed/NodeManager.java:75-91 | Uniqueness of `uuid` is kept. The new row is present, and any row with its `uuid` equals it. Rows of other ids are present iff they were before. The length grows by one iff the id was absent. |
| NodeRegistry.RegisterSelf | src/main/java/app/nzyme/core/distributed/NodeManager.java:68-110 | Fails with NotInitialized iff the local id is unset, with CollectFailed iff it is set but collecting the snapshot fails, and with StoreFailed iff both succeed but the upsert fails. Otherwise there is exactly one row for the local id, holding every supplied value and `last_seen = now`, and other nodes' rows are unchanged. |
| NodeRegistry.UpsertTwice | src/main/java/app/nzyme/core/distributed/NodeManager.java:84-91 | Two upserts for one id equal the second upsert alone. |
| NodeRegistry.RegisterTwice | src/main/java/app/nzyme/core/distributed/NodeManager.java:68-110 | Registering twice equals registering once with the second call's values and time. |
| Liveness.SortByNameDesc | src/main/java/app/nzyme/core/distributed/NodeManager.java:114 | ORDER BY name DESC: the result is sorted by name descending and is a permutation of the input. |
| Liveness.ToNodes | src/main/java/app/nzyme/core/distributed/NodeManager.java:120-148 | Each node occurs exactly as often as its row when the row's conversion succeeds (in practice, when its URI parses), and never otherwise. The nodes' rows form an order-preserving subsequence of the input, so a sorted input gives a sorted output. A row whose conversion fails is skipped and does not fail the query. |
| Liveness.ViewRoundTrip | src/main/java/app/nzyme/core/distributed/NodeManager.java:123-141 | The node view keeps every column of its row. |
| Liveness.GetActiveNodes | src/main/java/app/nzyme/core/distributed/NodeManager.java:112-149 | Each node occurs exactly as often as its row when that row has `last_seen > now − 24h` (strict) and converts (in practice, a parsable URI), and never otherwise. The result is ordered by name descending. The query fails iff the SELECT fails; a row that fails conversion never fails it. |
| Liveness.NoneActiveGivesEmpty | src/main/java/app/nzyme/core/distributed/NodeManager.java:112-149 | With no row inside the window (including an empty table), the result is empty. |
| Liveness.WindowBoundary | src/main/java/app/nzyme/core/distributed/NodeManager.java:114-115 | A node last seen exactly 24 h ago is excluded. One seen 1 ms later is included. |
| NodeMetrics.DeleteExpiredGauges | src/main/java/app/nzyme/core/distributed/NodeManager.java:167-172 | Every gauge row with `created_at < now − 24h` is gone, for any node. Every row at or after the cutoff keeps its multiplicity. |
| NodeMetrics.WriteGauges | src/main/java/app/nzyme/core/distributed/NodeManager.java:152-165 | The gauges are written in the fixed order up to the first failing write. All earlier writes succeeded, and the failing one stops the rest. Earlier rows are kept, and the written rows carry node id, gauge name, value and time. |
| NodeMetrics.GaugeValues | src/main/java/app/nzyme/core/distributed/NodeManager.java:155-162 | One value per gauge name, in the written order, and each is the snapshot field that name stands for (GaugeField: `memory_bytes_total` is `memoryTotal`, …, `process_virtual_size` is `processVirtualSize`). |
| NodeMetrics.WriteMetrics | src/main/java/app/nzyme/core/distributed/NodeManager.java:151-173 | A failed snapshot writes no gauge. Each gauge row carries the snapshot field its name stands for (GaugeField, lines 155-162). The retention delete runs after the writes whatever their outcome, over old and new rows alike. A failure of the delete escapes the cycle and leaves the rows as written. |
| Scenarios.FreshInstallLifecycle | src/main/java/app/nzyme/core/distributed/NodeManager.java:34-149 | Fresh install mints A, registration gives a single row for A, and A is the only active node. 25 h later the query is empty while the row is still there. |

## Left out

- Locking: the mutexes, `Arc` sharing and lock-failure branches of the TCP table. The table is a plain value.
- Report output: JSON serialisation and the report upload in `process_report` are I/O. A failed upload is only logged and does not affect the sweeps. A serialisation failure panics at the `unwrap`: the retention sweep then never runs and the sessions mutex is poisoned. That panic is not modelled.
- TcpTable.TagSessions: `tag_tcp_sessions` is not part of this model. Tagging is assumed to replace only each session's `tags`.
- Segment direction: `determine_direction` is not part of this model. The direction is a field of the segment. The derivation of `TcpSessionKey` is not modelled either.
- TcpTable.TimeoutSweep: one `now` serves the whole sweep. The source reads the clock once per session.
- TcpTable.UpdateSession: segment and byte counters are unbounded naturals. The source's 64-bit counters would wrap or panic only after 2^64 segments or bytes.
- Initialisation scheduling: the scheduled executor started by `initialize` is concurrency. The metrics cycle is modelled as one run. Under `scheduleAtFixedRate` an escaped error suppresses all later runs; the model reports the escape (`escaped`) but not the schedule.
- Health snapshot: `NodeInformation.collect` reads OS metrics. The snapshot is a parameter, and None stands for a failed collection.
- UUID generation: `UUID.randomUUID` is random. The fresh id is an arbitrary input.
- Clocks: `DateTime.now()` and SQL `NOW()` are the `now` and `stamps` parameters.
- NodeMetrics.GaugeValues: gauge values are `real`. The rounding of `Long` to `double` and floating-point semantics are not modelled.
- NodeMetrics.WriteMetrics: each gauge write's failure is one boolean. Null snapshot fields and store errors are not told apart. The gauge `node_id` comes from the node information object and is a parameter.
- UuidText.Parse: accepts exactly the canonical form, in either letter case. The JDK's `UUID.fromString` also accepts some non-canonical texts (short or signed groups), and that is not modelled.
- NodeIdentity.Initialize: the existence check and the read are treated as one step. A failed write is assumed to leave no file behind.
- Liveness.SortByNameDesc: names compare lexicographically by code point. The store's collation may order them differently, and ties come out in an unspecified order.
- Liveness.ToNodes: the conversion of a row, `URI.create` followed by `Node.create` inside one `try` (lines 122-145), is the abstract predicate `uriParses` over the stored URI. A `Node.create` failure for other columns of the row is not modelled separately.
- SQL and JDBI plumbing, and logging, are not modelled.
- Cluster broadcast: `sendToAllOnlineNodes` appears only as a call site outside this core.
- Outside the core: REST resources, DTOs, row mappers and the web interface.
