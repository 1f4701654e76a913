/** The life of one node, end to end: install, register, be listed, go silent. */
module Scenarios {

  import opened Wrappers
  import opened UuidText
  import opened NodeIdentity
  import opened NodeRegistry
  import opened Liveness

  const HOUR: int := 60 * 60 * 1000

  /**
   * On a fresh install the node mints identifier `a`, registers itself and is
   * the only active node; 25 hours later, with no further registration, it is
   * no longer listed although its row is still in the table.
   */
  lemma FreshInstallLifecycle(a: Uuid, name: string, uri: string, version: string, info: NodeInfo,
                              now: int, uriParses: string -> bool)
    requires uriParses(uri)
    ensures var init := Initialize(Uninitialised, Missing, a, true);
            GetLocalNodeId(init.manager) == Some(a)
            && var rows := RegisterSelf(init.manager, [], name, uri, version, Some(info), true, now);
            rows.Success?
            && rows.value == [NodeRow(a, name, uri, version, now, info)]
            && GetActiveNodes(rows.value, now, uriParses, true) == Success([ToNode(rows.value[0])])
            && GetActiveNodes(rows.value, now + 25 * HOUR, uriParses, true) == Success([])
  {
    var row := NodeRow(a, name, uri, version, now, info);
    var listed := GetActiveNodes([row], now, uriParses, true).value;
    ViewRoundTrip(row);
    assert multiset(listed)[ToNode(row)] == 1;
    assert |listed| == 1 by {
      forall n | n in listed ensures n == ToNode(row) {
        ViewRoundTrip(row);
        assert ToRow(n) == row;
      }
      assert |listed| == |multiset(listed)|;
      assert multiset(listed) == multiset{ToNode(row)};
    }
    NoneActiveGivesEmpty([row], now + 25 * HOUR, uriParses);
    var init := Initialize(Uninitialised, Missing, a, true);
    assert GetLocalNodeId(init.manager) == Some(a);
    var rows := RegisterSelf(init.manager, [], name, uri, version, Some(info), true, now);
    assert rows.Success?;
    assert rows.value == [row];
    assert listed == [ToNode(row)];
  }
}
