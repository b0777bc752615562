/**
 * One bucket's pass of the program: list its objects into the totals map
 * (with the program's fixed object limit), then print the object count and
 * the report lines (with the program's fixed depth limit).
 */
module DiskUsage {
  import opened JavaSplit
  import opened Seqs
  import opened PathAggregator
  import opened ReportBuilder

  /** The per-bucket object limit; 0 switches the limit off. */
  const ObjectLimit: int := 0

  /** The deepest key (in `split("/")` segments) that the report shows. */
  const MaxDepth: int := 3

  /**
   * The iteration order of the totals map: some enumeration of its keys, each
   * once. The hash map does not fix which one, so neither does this method.
   */
  method IterationOrder(m: map<string, nat>) returns (order: seq<string>)
    ensures Enumerates(m, order)
  {
    var remaining := m.Keys;
    order := [];
    while remaining != {}
      invariant remaining <= m.Keys
      invariant forall k :: k in m ==> k in remaining || k in order
      invariant forall i :: 0 <= i < |order| ==> order[i] in m && order[i] !in remaining
      invariant Distinct(order)
      decreases |remaining|
    {
      var k :| k in remaining;
      order := order + [k];
      remaining := remaining - {k};
    }
  }

  /**
   * The output for one bucket: `objects` is every object listed, and `lines`
   * holds each prefix of depth at most 3 that some object generated, once,
   * with the sum of the sizes of the objects that generated it, largest
   * total first.
   */
  method BucketReport(records: seq<ObjectRecord>) returns (objects: nat, lines: seq<Entry>)
    ensures objects == |records|
    ensures forall i :: 0 <= i < |lines| ==>
      Generated(records, lines[i].key) && lines[i].total == RolledUp(records, lines[i].key) &&
      Depth(lines[i].key) <= MaxDepth
    ensures forall p :: Generated(records, p) && Depth(p) <= MaxDepth ==> p in Keys(lines)
    ensures forall i, j :: 0 <= i < j < |lines| ==> lines[i].total >= lines[j].total
    ensures Distinct(Keys(lines))
  {
    var keyMap;
    keyMap, objects := ScanBucket(records, ObjectLimit);
    assert records[..objects] == records;
    IngestedIsRollup(records);
    var order := IterationOrder(keyMap);
    lines := Report(keyMap, order, MaxDepth);
    forall i | 0 <= i < |lines|
      ensures lines[i].total == RolledUp(records, lines[i].key)
    {
      assert Lookup(keyMap, lines[i].key) == keyMap[lines[i].key];
    }
  }

  /** A distinct list all of whose elements are `v`, and which holds `v`, is `[v]`. */
  lemma OnlyElement(r: seq<string>, v: string)
    requires Distinct(r) && v in r
    requires forall i :: 0 <= i < |r| ==> r[i] == v
    ensures r == [v]
  {
    DistinctCardinality(r);
    assert (set k | k in r) == {v};
  }

  /**
   * A map with one key of depth 1 and another of depth 2: limit 1 shows the
   * first alone, limit 2 shows both.
   */
  lemma TwoLevelReport(totals: map<string, nat>, order: seq<string>, p: string, q: string)
    requires Enumerates(totals, order)
    requires forall k :: k in totals <==> k == p || k == q
    requires Depth(p) == 1 && Depth(q) == 2
    ensures ShownKeys(totals, order, 1) == [p]
    ensures forall k :: k in ShownKeys(totals, order, 2) <==> k == p || k == q
  {
    var shallow := ShownKeys(totals, order, 1);
    ShownKeysSpec(totals, order, 1);
    ShownKeysSpec(totals, order, 2);
    forall i | 0 <= i < |shallow| ensures shallow[i] == p {
      assert shallow[i] in shallow;
    }
    OnlyElement(shallow, p);
  }

  /**
   * Two objects `a/b/c` and `a/b/d`: with depth limit 1 the report shows
   * `a/` alone; with depth limit 2 it shows `a/` and `a/b/` (in either order,
   * their totals being equal), whatever the map's iteration order.
   */
  lemma NestedReport(a: string, b: string, c: string, d: string, x: nat, y: nat, order: seq<string>)
    requires Sep !in a && Sep !in b && Sep !in c && Sep !in d && a != "" && b != "" && c != "" && d != ""
    requires Enumerates(Ingested([ObjectRecord(a + "/" + b + "/" + c, x), ObjectRecord(a + "/" + b + "/" + d, y)]), order)
    ensures ShownKeys(Ingested([ObjectRecord(a + "/" + b + "/" + c, x), ObjectRecord(a + "/" + b + "/" + d, y)]), order, 1)
      == [a + "/"]
    ensures forall k ::
      k in ShownKeys(Ingested([ObjectRecord(a + "/" + b + "/" + c, x), ObjectRecord(a + "/" + b + "/" + d, y)]), order, 2)
      <==> k == a + "/" || k == a + "/" + b + "/"
  {
    NestedTotals(a, b, c, d, x, y);
    assert Join([a]) == a;
    SplitSlashTerminated([a]);
    assert [a, b][1..] == [b];
    assert Join([a, b]) == a + [Sep] + b;
    SplitSlashTerminated([a, b]);
    TwoLevelReport(map[a + "/" := x + y, a + "/" + b + "/" := x + y], order, a + "/", a + "/" + b + "/");
  }
}
