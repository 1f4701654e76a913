/**
 * The liveness query: the nodes seen within the last 24 hours, ordered by name
 * descending, each converted into a node view. A row whose conversion fails
 * (in practice: its external URI does not parse) is skipped, so one bad row
 * never fails the query; a failure of the query itself does. Time is in
 * milliseconds.
 */
module Liveness {

  import opened Wrappers
  import opened Seqs
  import opened UuidText
  import opened NodeRegistry

  const LIVENESS_WINDOW: int := 24 * 60 * 60 * 1000

  /** Strictly inside the window: `last_seen` after `now` minus 24 hours. */
  predicate IsActive(row: NodeRow, now: int) {
    row.lastSeen > now - LIVENESS_WINDOW
  }

  /** Lexicographic order on names, by code point. */
  predicate NameLe(a: string, b: string)
    decreases |a|
  {
    |a| == 0 || (|b| > 0 && (a[0] < b[0] || (a[0] == b[0] && NameLe(a[1..], b[1..]))))
  }

  lemma {:induction false} NameLeTotal(a: string, b: string)
    ensures NameLe(a, b) || NameLe(b, a)
    decreases |a|
  {
    if |a| > 0 && |b| > 0 && a[0] == b[0] {
      NameLeTotal(a[1..], b[1..]);
    }
  }

  lemma {:induction false} NameLeTransitive(a: string, b: string, c: string)
    requires NameLe(a, b) && NameLe(b, c)
    ensures NameLe(a, c)
    decreases |a|
  {
    if |a| > 0 && a[0] == b[0] && b[0] == c[0] {
      NameLeTransitive(a[1..], b[1..], c[1..]);
    }
  }

  /** Ordered by name, descending. */
  predicate SortedByNameDesc(rows: seq<NodeRow>) {
    forall i, j :: 0 <= i < j < |rows| ==> NameLe(rows[j].name, rows[i].name)
  }

  function InsertByName(x: NodeRow, rows: seq<NodeRow>): (r: seq<NodeRow>)
    requires SortedByNameDesc(rows)
    ensures SortedByNameDesc(r)
    ensures multiset(r) == multiset(rows) + multiset{x}
    decreases |rows|
  {
    if |rows| == 0 then [x]
    else if NameLe(rows[0].name, x.name) then
      assert forall j :: 0 <= j < |rows| ==> NameLe(rows[j].name, x.name) by {
        forall j | 0 <= j < |rows| ensures NameLe(rows[j].name, x.name) {
          if j > 0 { NameLeTransitive(rows[j].name, rows[0].name, x.name); }
        }
      }
      [x] + rows
    else
      NameLeTotal(rows[0].name, x.name);
      var rest := InsertByName(x, rows[1..]);
      assert rows == [rows[0]] + rows[1..];
      assert forall y :: y in rest ==> NameLe(y.name, rows[0].name) by {
        forall y | y in rest ensures NameLe(y.name, rows[0].name) {
          assert y in multiset(rest);
          if y != x {
            assert y in multiset(rows[1..]);
            var j :| 0 <= j < |rows[1..]| && rows[1..][j] == y;
            assert rows[j + 1] == y;
          }
        }
      }
      [rows[0]] + rest
  }

  /** The query's ORDER BY name DESC: a reordering of its input. */
  function SortByNameDesc(rows: seq<NodeRow>): (r: seq<NodeRow>)
    ensures SortedByNameDesc(r)
    ensures multiset(r) == multiset(rows)
    decreases |rows|
  {
    if |rows| == 0 then []
    else
      assert rows == [rows[0]] + rows[1..];
      InsertByName(rows[0], SortByNameDesc(rows[1..]))
  }

  /** The URI an active node is reachable at, once it has parsed. */
  datatype Uri = Uri(text: string)

  /** The view of an active node handed to callers. */
  datatype Node = Node(
    uuid: Uuid,
    name: string,
    httpExternalUri: Uri,
    info: NodeInfo,
    version: string,
    lastSeen: int)

  function ToNode(row: NodeRow): (n: Node)
    ensures n.name == row.name
  {
    Node(row.uuid, row.name, Uri(row.httpExternalUri), row.info, row.version, row.lastSeen)
  }

  /** The row a node view was built from; ToNode's inverse. */
  function ToRow(n: Node): (row: NodeRow)
    ensures ToNode(row) == n
  {
    NodeRow(n.uuid, n.name, n.httpExternalUri.text, n.version, n.lastSeen, n.info)
  }

  /** Building the view loses nothing of the row. */
  lemma ViewRoundTrip(row: NodeRow)
    ensures ToRow(ToNode(row)) == row
  {
  }

  /** The rows the nodes of `ns` were built from, in the same order. */
  function RowsOf(ns: seq<Node>): seq<NodeRow>
    decreases |ns|
  {
    if |ns| == 0 then [] else [ToRow(ns[0])] + RowsOf(ns[1..])
  }

  /** Converts rows in order, skipping those whose conversion fails; `uriParses`
      says whether it succeeds, which in practice is whether the URI parses. */
  function ToNodes(rows: seq<NodeRow>, uriParses: string -> bool): (r: seq<Node>)
    ensures |r| <= |rows|
    ensures forall i :: 0 <= i < |rows| && uriParses(rows[i].httpExternalUri) ==> ToNode(rows[i]) in r
    ensures forall n :: n in r ==> ToRow(n) in rows && uriParses(n.httpExternalUri.text)
    // Each node appears as often as its row does, if its URI parses, and not otherwise ...
    ensures forall n :: multiset(r)[n] == if uriParses(n.httpExternalUri.text) then multiset(rows)[ToRow(n)] else 0
    // ... and in the order of the rows.
    ensures Subsequence(RowsOf(r), rows)
    ensures SortedByNameDesc(rows) ==> NodesSortedByNameDesc(r)
    decreases |rows|
  {
    if |rows| == 0 then []
    else
      var head := rows[0];
      var rest := ToNodes(rows[1..], uriParses);
      assert rows == [head] + rows[1..];
      var r := if uriParses(head.httpExternalUri) then [ToNode(head)] + rest else rest;
      ToNodesCountStep(head, rows[1..], rest, uriParses);
      ToNodesOrderStep(head, rows[1..], rest, uriParses);
      ToNodesSortedStep(head, rows[1..], rest, uriParses);
      CountGivesMembership(rows, r, uriParses);
      r
  }

  /** The count characterisation of ToNodes determines which nodes are listed. */
  lemma CountGivesMembership(rows: seq<NodeRow>, r: seq<Node>, uriParses: string -> bool)
    requires forall n :: multiset(r)[n] == if uriParses(n.httpExternalUri.text) then multiset(rows)[ToRow(n)] else 0
    ensures forall i :: 0 <= i < |rows| && uriParses(rows[i].httpExternalUri) ==> ToNode(rows[i]) in r
    ensures forall n :: n in r ==> ToRow(n) in rows && uriParses(n.httpExternalUri.text)
  {
  }

  /** One step of ToNodes keeps the count characterisation. */
  lemma ToNodesCountStep(head: NodeRow, tail: seq<NodeRow>, rest: seq<Node>, uriParses: string -> bool)
    requires forall n :: multiset(rest)[n] == if uriParses(n.httpExternalUri.text) then multiset(tail)[ToRow(n)] else 0
    ensures var r := if uriParses(head.httpExternalUri) then [ToNode(head)] + rest else rest;
            forall n :: multiset(r)[n] ==
              if uriParses(n.httpExternalUri.text) then multiset([head] + tail)[ToRow(n)] else 0
  {
  }

  /** Ordered by name, descending. */
  predicate NodesSortedByNameDesc(ns: seq<Node>) {
    forall i, j :: 0 <= i < j < |ns| ==> NameLe(ns[j].name, ns[i].name)
  }

  /** One step of ToNodes keeps a sorted input's nodes sorted. */
  lemma ToNodesSortedStep(head: NodeRow, tail: seq<NodeRow>, rest: seq<Node>, uriParses: string -> bool)
    requires forall n :: n in rest ==> ToRow(n) in tail
    requires SortedByNameDesc(tail) ==> NodesSortedByNameDesc(rest)
    ensures var r := if uriParses(head.httpExternalUri) then [ToNode(head)] + rest else rest;
            SortedByNameDesc([head] + tail) ==> NodesSortedByNameDesc(r)
  {
    var rows := [head] + tail;
    if !SortedByNameDesc(rows) {
      return;
    }
    assert SortedByNameDesc(tail) by {
      forall i, j | 0 <= i < j < |tail| ensures NameLe(tail[j].name, tail[i].name) {
        assert tail[i] == rows[i + 1] && tail[j] == rows[j + 1];
      }
    }
    forall n | n in rest ensures NameLe(n.name, head.name) {
      var j :| 0 <= j < |tail| && tail[j] == ToRow(n);
      assert rows[j + 1] == ToRow(n) && rows[0] == head;
      assert NameLe(rows[j + 1].name, rows[0].name);
    }
    if uriParses(head.httpExternalUri) {
      var r := [ToNode(head)] + rest;
      forall i, j | 0 <= i < j < |r| ensures NameLe(r[j].name, r[i].name) {
        if i == 0 {
          assert r[j] in rest;
        } else {
          assert r[i] == rest[i - 1] && r[j] == rest[j - 1];
        }
      }
    }
  }

  /** One step of ToNodes keeps the nodes in row order. */
  lemma ToNodesOrderStep(head: NodeRow, tail: seq<NodeRow>, rest: seq<Node>, uriParses: string -> bool)
    requires Subsequence(RowsOf(rest), tail)
    ensures var r := if uriParses(head.httpExternalUri) then [ToNode(head)] + rest else rest;
            Subsequence(RowsOf(r), [head] + tail)
  {
  }

  datatype QueryError = QueryFailed

  /** The active nodes at time `now`; `selectSucceeds` is the outcome of the SELECT. */
  function GetActiveNodes(rows: seq<NodeRow>, now: int, uriParses: string -> bool, selectSucceeds: bool)
    : (r: Result<seq<Node>, QueryError>)
    ensures r.Failure? <==> !selectSucceeds
    // Only nodes seen strictly within the window, with a parsable URI, are listed ...
    ensures r.Success? ==> forall n :: n in r.value ==>
              ToRow(n) in rows && IsActive(ToRow(n), now) && uriParses(n.httpExternalUri.text)
    // ... and every such node is.
    ensures r.Success? ==> forall row :: row in rows && IsActive(row, now) && uriParses(row.httpExternalUri) ==>
              ToNode(row) in r.value
    // Each listed node appears exactly as often as its row.
    ensures r.Success? ==>
              forall n :: multiset(r.value)[n] ==
                (if IsActive(ToRow(n), now) && uriParses(n.httpExternalUri.text) then multiset(rows)[ToRow(n)] else 0)
    ensures r.Success? ==> NodesSortedByNameDesc(r.value)
  {
    var selected := SortByNameDesc(Filter(rows, (row: NodeRow) => IsActive(row, now)));
    assert forall row :: row in selected <==> row in rows && IsActive(row, now) by {
      forall row ensures row in selected <==> row in rows && IsActive(row, now) {
        assert row in selected <==> row in multiset(selected);
        assert row in rows <==> row in multiset(rows);
      }
    }
    if selectSucceeds then Success(ToNodes(selected, uriParses)) else Failure(QueryFailed)
  }

  /** With no rows, or once every node has been silent for the whole window,
      the query returns nothing; the rows themselves remain in the table. */
  lemma NoneActiveGivesEmpty(rows: seq<NodeRow>, now: int, uriParses: string -> bool)
    requires forall i :: 0 <= i < |rows| ==> rows[i].lastSeen <= now - LIVENESS_WINDOW
    ensures GetActiveNodes(rows, now, uriParses, true) == Success([])
  {
  }

  /** The window is strict: a node last seen exactly 24 hours ago is not listed,
      one seen a millisecond later is (given a parsable URI). */
  lemma WindowBoundary(rows: seq<NodeRow>, row: NodeRow, now: int, uriParses: string -> bool)
    requires row in rows && uriParses(row.httpExternalUri)
    ensures row.lastSeen == now - LIVENESS_WINDOW ==> ToNode(row) !in GetActiveNodes(rows, now, uriParses, true).value
    ensures row.lastSeen == now - LIVENESS_WINDOW + 1 ==> ToNode(row) in GetActiveNodes(rows, now, uriParses, true).value
  {
  }
}
