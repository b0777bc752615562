/**
 * The per-bucket ingest loop of `s3du.main`: every listed object is counted,
 * its key is split on `/`, and its size is added to the running total of
 * every leading-segment prefix of the key.
 *
 * The prefixes one key generates (`Prefixes`) follow the code exactly:
 *  - split length n > 1: the n - 1 prefixes `seg0/`, `seg0/seg1/`, ...,
 *    `seg0/.../seg(n-2)/`; the last segment, the object's own name, is never one;
 *  - split length 1: the single segment, with no trailing separator (a
 *    root-level object is counted under its own name; `"a/"` splits to
 *    `["a"]` and so is counted under `"a"`);
 *  - split length 0 (`"/"`, `"///"`): no prefix at all; the object is still counted.
 */
module PathAggregator {
  import opened JavaSplit
  import opened Seqs

  /** One entry of a bucket listing: an object key and its size in bytes. */
  datatype ObjectRecord = ObjectRecord(key: string, size: nat)

  /** The prefixes whose totals one object with this key adds its size to, in the order they are built. */
  function Prefixes(key: string): seq<string> {
    var seg := Split(key);
    if |seg| == 0 then []
    else if |seg| == 1 then [seg[0]]
    else seq(|seg| - 1, i requires 0 <= i < |seg| - 1 => Join(seg[..i + 1]) + [Sep])
  }

  /** The running total of a prefix, zero when it has none yet. */
  function Lookup(m: map<string, nat>, p: string): nat {
    if p in m then m[p] else 0
  }

  /** Java's `Map.putIfAbsent`: bind `p` to `v` unless it is bound already. */
  function PutIfAbsent(m: map<string, nat>, p: string, v: nat): (r: map<string, nat>)
    ensures p in r
  {
    if p in m then m else m[p := v]
  }

  /** `putIfAbsent(p, 0)` followed by `put(p, get(p) + size)`. */
  function AddOne(m: map<string, nat>, p: string, size: nat): map<string, nat> {
    var m' := PutIfAbsent(m, p, 0);
    m'[p := m'[p] + size]
  }

  /** `AddOne` is the two map calls in sequence. */
  lemma AddOneSteps(m: map<string, nat>, present: map<string, nat>, p: string, size: nat)
    requires present == PutIfAbsent(m, p, 0)
    ensures p in present && AddOne(m, p, size) == present[p := present[p] + size]
  {
  }

  /** The map after adding `size` to each of `ps`, in order. */
  function AddAll(m: map<string, nat>, ps: seq<string>, size: nat): map<string, nat> {
    if ps == [] then m else AddOne(AddAll(m, ps[..|ps| - 1], size), ps[|ps| - 1], size)
  }

  lemma AddAllStep(m: map<string, nat>, ps: seq<string>, i: nat, size: nat)
    requires i < |ps|
    ensures AddAll(m, ps[..i + 1], size) == AddOne(AddAll(m, ps[..i], size), ps[i], size)
  {
    assert ps[..i + 1][..i] == ps[..i];
  }

  /** The totals after ingesting `records` in order into an empty map. */
  function Ingested(records: seq<ObjectRecord>): map<string, nat> {
    if records == [] then map[]
    else
      var last := records[|records| - 1];
      AddAll(Ingested(records[..|records| - 1]), Prefixes(last.key), last.size)
  }

  // ---------------------------------------------------------------------
  // The reference meaning of a total: a sum over the records, per prefix.

  /** Some record of `records` generates the prefix `p`. */
  predicate Generated(records: seq<ObjectRecord>, p: string) {
    exists i :: 0 <= i < |records| && p in Prefixes(records[i].key)
  }

  /** The sum of the sizes of the records that generate the prefix `p`. */
  function RolledUp(records: seq<ObjectRecord>, p: string): nat {
    if records == [] then 0
    else (if p in Prefixes(records[0].key) then records[0].size else 0) + RolledUp(records[1..], p)
  }

  // ---------------------------------------------------------------------
  // The prefixes of one key.

  /** A key whose split has one segment is counted under that segment alone, which is the key itself when it has no `/`. */
  lemma SingleSegmentPrefix(key: string)
    requires |Split(key)| == 1
    ensures Prefixes(key) == [Split(key)[0]]
    ensures Sep !in Prefixes(key)[0] && Prefixes(key)[0] <= key
    ensures Sep !in key ==> Prefixes(key) == [key]
  {
    if Sep in key {
      JoinRawSplit(key);
      var raw := RawSplit(key);
      assert raw[0] == Split(key)[0];
      if |raw| > 1 {
        assert Join(raw) == raw[0] + [Sep] + Join(raw[1..]);
      }
    }
  }

  /**
   * A key whose split has n > 1 segments generates exactly n - 1 prefixes:
   * the first i + 1 segments, each followed by the separator. Every one of
   * them ends in the separator, and the last segment is never among them.
   */
  lemma MultiSegmentPrefixes(key: string)
    requires |Split(key)| > 1
    ensures |Prefixes(key)| == |Split(key)| - 1
    ensures forall i :: 0 <= i < |Prefixes(key)| ==>
      Prefixes(key)[i] == Join(Split(key)[..i + 1]) + [Sep]
    ensures forall i :: 0 <= i < |Prefixes(key)| ==>
      |Prefixes(key)[i]| > 0 && Prefixes(key)[i][|Prefixes(key)[i]| - 1] == Sep
  {
    var seg := Split(key);
    var ps := Prefixes(key);
    forall i | 0 <= i < |ps|
      ensures ps[i] == Join(seg[..i + 1]) + [Sep]
      ensures |ps[i]| > 0 && ps[i][|ps[i]| - 1] == Sep
    {
    }
  }

  /**
   * The prefixes are built by appending to one buffer: each is the previous
   * one followed by the next segment and the separator (the first one is its
   * segment followed by the separator, or alone for a one-segment key).
   */
  lemma {:induction false} PrefixChain(key: string)
    ensures |Split(key)| > 1 ==> forall i :: 0 < i < |Prefixes(key)| ==>
      Prefixes(key)[i] == Prefixes(key)[i - 1] + Split(key)[i] + [Sep]
    ensures |Split(key)| > 1 ==> Prefixes(key)[0] == Split(key)[0] + [Sep]
    ensures |Split(key)| == 1 ==> Prefixes(key)[0] == Split(key)[0]
  {
    var seg := Split(key);
    var ps := Prefixes(key);
    if |seg| > 1 {
      assert seg[..1] == [seg[0]];
      assert ps[0] == Join(seg[..1]) + [Sep];
      forall i | 0 < i < |ps|
        ensures ps[i] == ps[i - 1] + seg[i] + [Sep]
      {
        JoinPrefixStep(seg, i);
      }
    }
  }

  lemma JoinPrefixStep(seg: seq<string>, i: nat)
    requires 0 < i < |seg|
    ensures Join(seg[..i + 1]) + [Sep] == Join(seg[..i]) + [Sep] + seg[i] + [Sep]
  {
    assert seg[..i + 1] == seg[..i] + [seg[i]];
    JoinSnoc(seg[..i], seg[i]);
  }

  lemma PrefixCount(key: string)
    ensures |Split(key)| == 0 ==> Prefixes(key) == []
    ensures |Split(key)| == 1 ==> |Prefixes(key)| == 1
    ensures |Split(key)| > 1 ==> |Prefixes(key)| == |Split(key)| - 1
  {
  }

  /** The i-th prefix is the one before it followed by segment i and, for a key of several segments, the separator. */
  lemma PrefixStep(key: string, i: nat, path: string, separator: string)
    requires i < |Prefixes(key)|
    requires path == if i == 0 then "" else Prefixes(key)[i - 1]
    requires separator == if |Split(key)| == 1 then "" else [Sep]
    ensures i < |Split(key)|
    ensures path + Split(key)[i] + separator == Prefixes(key)[i]
  {
    PrefixChain(key);
  }

  /** Within one record each generated prefix is a proper string prefix of every later one. */
  lemma PrefixNesting(key: string)
    ensures forall i, j :: 0 <= i < j < |Prefixes(key)| ==> Prefixes(key)[i] < Prefixes(key)[j]
  {
    var seg := Split(key);
    var ps := Prefixes(key);
    forall i, j | 0 <= i < j < |ps|
      ensures ps[i] < ps[j]
    {
      assert seg[..j + 1] == seg[..i + 1] + seg[i + 1..j + 1];
      JoinAppend(seg[..i + 1], seg[i + 1..j + 1]);
      assert ps[j] == ps[i] + Join(seg[i + 1..j + 1]) + [Sep];
    }
  }

  /** No prefix is generated twice by one record, so each gets the size once. */
  lemma PrefixesDistinct(key: string)
    ensures Distinct(Prefixes(key))
  {
    PrefixNesting(key);
  }

  /**
   * Every prefix a record generates is a string prefix of its key, and a
   * proper one when the key splits into several segments: the object's own
   * key is then never one of its prefixes.
   */
  lemma PrefixesOfKey(key: string)
    ensures forall i :: 0 <= i < |Prefixes(key)| ==> Prefixes(key)[i] <= key
    ensures |Split(key)| > 1 ==> forall i :: 0 <= i < |Prefixes(key)| ==> Prefixes(key)[i] < key
  {
    var seg := Split(key);
    var ps := Prefixes(key);
    if |seg| == 1 {
      SingleSegmentPrefix(key);
    } else if |seg| > 1 {
      var raw := RawSplit(key);
      JoinRawSplit(key);
      assert seg <= raw;
      forall i | 0 <= i < |ps|
        ensures ps[i] < key
      {
        var tail := raw[i + 1..];
        assert raw == raw[..i + 1] + tail;
        assert raw[..i + 1] == seg[..i + 1];
        JoinAppend(raw[..i + 1], tail);
        assert key == ps[i] + Join(tail);
        if |tail| == 1 {
          assert |seg| == i + 2;
          assert tail[0] == seg[|seg| - 1];
        }
        assert |Join(tail)| > 0;
      }
    }
  }

  /**
   * The depth the report computes for a generated prefix: the i-th prefix
   * (counting from 0) has depth at most i + 1, and exactly i + 1 when its
   * last segment is not empty (`"a//"` has depth 1, `"/"` depth 0).
   */
  lemma PrefixDepth(key: string)
    ensures forall i :: 0 <= i < |Prefixes(key)| ==> Depth(Prefixes(key)[i]) <= i + 1
    ensures forall i :: 0 <= i < |Prefixes(key)| && Split(key)[i] != "" ==>
      Depth(Prefixes(key)[i]) == i + 1
  {
    var seg := Split(key);
    var ps := Prefixes(key);
    if |seg| == 1 {
      SplitNoSeparator(seg[0]);
    } else if |seg| > 1 {
      forall i | 0 <= i < |ps|
        ensures Depth(ps[i]) <= i + 1 && (seg[i] != "" ==> Depth(ps[i]) == i + 1)
      {
        var parts := seg[..i + 1];
        assert NoSeparators(parts) by {
          forall k | 0 <= k < |parts| ensures Sep !in parts[k] {
            assert parts[k] == seg[k];
          }
        }
        assert parts[|parts| - 1] == seg[i];
        assert ps[i] == Join(parts) + [Sep];
        SplitSlashTerminated(parts);
      }
    }
  }

  // ---------------------------------------------------------------------
  // Accumulation.

  /**
   * Adding a size along distinct prefixes creates the missing entries,
   * raises exactly those prefixes by the size and leaves every other key
   * as it was.
   */
  lemma {:induction false} AddAllSpec(m: map<string, nat>, ps: seq<string>, size: nat)
    requires Distinct(ps)
    ensures forall q :: q in AddAll(m, ps, size) <==> q in m || q in ps
    ensures forall q :: Lookup(AddAll(m, ps, size), q) == Lookup(m, q) + (if q in ps then size else 0)
    decreases |ps|
  {
    if ps != [] {
      var init := ps[..|ps| - 1];
      var last := ps[|ps| - 1];
      assert Distinct(init);
      AddAllSpec(m, init, size);
      assert ps == init + [last];
      assert last !in init;
    }
  }

  /** What ingesting one key does to the totals: its prefixes gain the size, nothing else changes. */
  lemma IngestEffect(m: map<string, nat>, key: string, size: nat)
    ensures forall q :: q in AddAll(m, Prefixes(key), size) <==> q in m || q in Prefixes(key)
    ensures forall q :: Lookup(AddAll(m, Prefixes(key), size), q) == Lookup(m, q) + (if q in Prefixes(key) then size else 0)
  {
    PrefixesDistinct(key);
    AddAllSpec(m, Prefixes(key), size);
  }

  lemma {:induction false} RolledUpSnoc(records: seq<ObjectRecord>, r: ObjectRecord, p: string)
    ensures RolledUp(records + [r], p) == RolledUp(records, p) + (if p in Prefixes(r.key) then r.size else 0)
    decreases |records|
  {
    if records != [] {
      assert (records + [r])[1..] == records[1..] + [r];
      RolledUpSnoc(records[1..], r, p);
    } else {
      assert ([r])[1..] == [];
    }
  }

  lemma GeneratedSnoc(records: seq<ObjectRecord>, r: ObjectRecord, p: string)
    ensures Generated(records + [r], p) <==> Generated(records, p) || p in Prefixes(r.key)
  {
    var all := records + [r];
    if Generated(all, p) {
      var i :| 0 <= i < |all| && p in Prefixes(all[i].key);
      if i < |records| {
        assert all[i] == records[i];
      }
    }
    if Generated(records, p) {
      var i :| 0 <= i < |records| && p in Prefixes(records[i].key);
      assert all[i] == records[i];
    }
    if p in Prefixes(r.key) {
      assert all[|records|] == r;
    }
  }

  /**
   * Rollup: after ingesting any sequence of records, the map holds exactly
   * the prefixes some record generated, and each one's total is the sum of
   * the sizes of the records that generated it.
   */
  lemma {:induction false} IngestedIsRollup(records: seq<ObjectRecord>)
    ensures forall p :: p in Ingested(records) <==> Generated(records, p)
    ensures forall p :: Lookup(Ingested(records), p) == RolledUp(records, p)
    decreases |records|
  {
    if records != [] {
      var init := records[..|records| - 1];
      var last := records[|records| - 1];
      IngestedIsRollup(init);
      PrefixesDistinct(last.key);
      AddAllSpec(Ingested(init), Prefixes(last.key), last.size);
      assert records == init + [last];
      forall p
        ensures Lookup(Ingested(records), p) == RolledUp(records, p)
        ensures p in Ingested(records) <==> Generated(records, p)
      {
        RolledUpSnoc(init, last, p);
        GeneratedSnoc(init, last, p);
      }
    }
  }

  /** Ingesting more records never removes an entry or lowers a total. */
  lemma {:induction false} IngestedGrows(records: seq<ObjectRecord>, n: nat)
    requires n <= |records|
    ensures forall p :: p in Ingested(records[..n]) ==>
      p in Ingested(records) && Ingested(records[..n])[p] <= Ingested(records)[p]
    decreases |records|
  {
    if n < |records| {
      var init := records[..|records| - 1];
      var last := records[|records| - 1];
      assert init[..n] == records[..n];
      IngestedGrows(init, n);
      PrefixesDistinct(last.key);
      AddAllSpec(Ingested(init), Prefixes(last.key), last.size);
      assert Ingested(records) == AddAll(Ingested(init), Prefixes(last.key), last.size);
      forall p | p in Ingested(records[..n])
        ensures p in Ingested(records) && Ingested(records[..n])[p] <= Ingested(records)[p]
      {
        assert Lookup(Ingested(init), p) <= Lookup(Ingested(records), p);
      }
    } else {
      assert records[..n] == records;
    }
  }

  // ---------------------------------------------------------------------
  // The ingest loop.

  /** The path buffer after `n` turns of the prefix loop: each of the first `n` segments followed by `separator`. */
  function PathAfter(splitKey: seq<string>, separator: string, n: nat): string
    requires n <= |splitKey|
  {
    if n == 0 then "" else PathAfter(splitKey, separator, n - 1) + splitKey[n - 1] + separator
  }

  /** The totals after `n` turns of the prefix loop. */
  function MapAfter(keyMap: map<string, nat>, splitKey: seq<string>, separator: string, n: nat, size: nat): map<string, nat>
    requires n <= |splitKey|
  {
    if n == 0 then keyMap
    else AddOne(MapAfter(keyMap, splitKey, separator, n - 1, size), PathAfter(splitKey, separator, n), size)
  }

  /** After `n` turns the path buffer holds the n-th prefix and the totals are those of the first `n` prefixes. */
  lemma {:induction false} LoopBuildsPrefixes(keyMap: map<string, nat>, key: string, size: nat, separator: string, n: nat)
    requires separator == if |Split(key)| == 1 then "" else [Sep]
    requires n <= |Prefixes(key)|
    ensures n <= |Split(key)|
    ensures PathAfter(Split(key), separator, n) == if n == 0 then "" else Prefixes(key)[n - 1]
    ensures MapAfter(keyMap, Split(key), separator, n, size) == AddAll(keyMap, Prefixes(key)[..n], size)
    decreases n
  {
    PrefixCount(key);
    if n > 0 {
      LoopBuildsPrefixes(keyMap, key, size, separator, n - 1);
      PrefixStep(key, n - 1, PathAfter(Split(key), separator, n - 1), separator);
      AddAllStep(keyMap, Prefixes(key), n - 1, size);
    }
  }

  /** When the loop ends (after one turn for a one-segment key, n-1 turns for n segments) the totals are `AddAll` over the prefixes. */
  lemma LoopComputesPrefixes(keyMap: map<string, nat>, key: string, size: nat, separator: string, n: nat)
    requires separator == if |Split(key)| == 1 then "" else [Sep]
    requires n == if |Split(key)| <= 1 then |Split(key)| else |Split(key)| - 1
    ensures n <= |Split(key)|
    ensures MapAfter(keyMap, Split(key), separator, n, size) == AddAll(keyMap, Prefixes(key), size)
  {
    PrefixCount(key);
    LoopBuildsPrefixes(keyMap, key, size, separator, n);
    assert Prefixes(key)[..n] == Prefixes(key);
  }

  /**
   * The body of the per-object loop after the count: walk the key's
   * segments, appending each (with the separator, or without it for a
   * one-segment key) to the path buffer, and add the size to the total of
   * the path built so far (`putIfAbsent(path, 0)`, then `put(path, get + size)`).
   */
  method IngestObject(keyMap: map<string, nat>, key: string, size: nat) returns (updated: map<string, nat>)
    ensures updated == AddAll(keyMap, Prefixes(key), size)
  {
    updated := keyMap;
    var s3Path: string := "";
    var splitKey := Split(key);
    var separator: string := [Sep];
    var splitKeyLength := |splitKey| - 1;
    if splitKeyLength == 0 {
      splitKeyLength := 1;
      separator := "";
    }
    var i := 0;
    while i < splitKeyLength
      invariant 0 <= i <= |splitKey| && (i == 0 || i <= splitKeyLength)
      invariant s3Path == PathAfter(splitKey, separator, i)
      invariant updated == MapAfter(keyMap, splitKey, separator, i, size)
    {
      s3Path := s3Path + splitKey[i] + separator;
      var keyPath := s3Path;
      ghost var before := updated;
      updated := PutIfAbsent(updated, keyPath, 0);
      ghost var present := updated;
      updated := updated[keyPath := updated[keyPath] + size];
      AddOneSteps(before, present, keyPath, size);
      i := i + 1;
    }
    LoopComputesPrefixes(keyMap, key, size, separator, i);
  }

  /**
   * One bucket: a fresh map and counter; for every record of the listing,
   * in order, count it and ingest it, stopping right after the record that
   * makes the count exceed a positive `objectLimit`.
   */
  method ScanBucket(records: seq<ObjectRecord>, objectLimit: int) returns (keyMap: map<string, nat>, objectCount: nat)
    ensures objectCount <= |records|
    ensures objectLimit <= 0 ==> objectCount == |records|
    ensures objectLimit > 0 ==> objectCount == if |records| <= objectLimit then |records| else objectLimit + 1
    ensures keyMap == Ingested(records[..objectCount])
  {
    keyMap := map[];
    objectCount := 0;
    var n := 0;
    while n < |records|
      invariant 0 <= n <= |records|
      invariant objectCount == n
      invariant keyMap == Ingested(records[..n])
      invariant objectLimit > 0 ==> n <= objectLimit
    {
      var record := records[n];
      objectCount := objectCount + 1;
      keyMap := IngestObject(keyMap, record.key, record.size);
      assert records[..n + 1][..n] == records[..n];
      n := n + 1;
      if objectLimit > 0 && objectCount > objectLimit {
        break;
      }
    }
  }

  // ---------------------------------------------------------------------
  // Worked examples, for keys of every shape.

  /** The prefixes of a key with three non-empty segments. */
  lemma ThreeSegmentPrefixes(a: string, b: string, c: string)
    requires Sep !in a && Sep !in b && Sep !in c && c != ""
    ensures Prefixes(a + "/" + b + "/" + c) == [a + "/", a + "/" + b + "/"]
  {
    var key := a + "/" + b + "/" + c;
    assert [a, b, c][1..] == [b, c] && [b, c][1..] == [c];
    assert Join([b, c]) == b + [Sep] + c;
    assert Join([a, b, c]) == a + [Sep] + (b + [Sep] + c);
    assert Join([a, b, c]) == key;
    RawSplitJoin([a, b, c]);
    assert key[|a|] == Sep;
    assert Split(key) == [a, b, c];
    var ps := Prefixes(key);
    assert [a, b, c][..1] == [a] && [a, b, c][..2] == [a, b];
    assert ps[0] == Join([a]) + "/";
    assert ps[1] == Join([a, b]) + "/";
  }

  /** A directory marker `a/b/` generates only `a/`, never its own key. */
  lemma DirectoryMarkerPrefixes(a: string, b: string)
    requires Sep !in a && Sep !in b && b != ""
    ensures Prefixes(a + [Sep] + b + [Sep]) == [a + [Sep]]
  {
    assert [a, b][1..] == [b];
    assert Join([a, b]) == a + [Sep] + b;
    SplitSlashTerminated([a, b]);
    assert Split(a + [Sep] + b + [Sep]) == [a, b];
    assert [a, b][..1] == [a];
    assert Prefixes(a + [Sep] + b + [Sep])[0] == Join([a]) + [Sep];
  }

  /** A root-level marker `a/` splits to `["a"]` and is counted under `a`, without the separator. */
  lemma RootMarkerPrefixes(a: string)
    requires Sep !in a && a != ""
    ensures Prefixes(a + [Sep]) == [a]
  {
    assert Join([a]) == a;
    SplitSlashTerminated([a]);
  }

  lemma {:induction false} RawSplitOfSeparators(key: string)
    requires forall k :: 0 <= k < |key| ==> key[k] == Sep
    ensures forall k :: 0 <= k < |RawSplit(key)| ==> RawSplit(key)[k] == ""
    decreases |key|
  {
    if |key| > 0 {
      RawSplitOfSeparators(key[1..]);
    }
  }

  /** A key made only of separators splits to nothing: the object is counted but generates no prefix. */
  lemma SeparatorsOnlyPrefixes(key: string)
    requires |key| >= 1 && forall k :: 0 <= k < |key| ==> key[k] == Sep
    ensures Split(key) == [] && Prefixes(key) == []
  {
    assert key[0] == Sep;
    RawSplitOfSeparators(key);
  }

  lemma IngestedSingle(r: ObjectRecord)
    ensures Ingested([r]) == AddAll(map[], Prefixes(r.key), r.size)
  {
    assert [r][..0] == [];
  }

  lemma AddAllSingle(m: map<string, nat>, p: string, size: nat)
    ensures AddAll(m, [p], size) == m[p := Lookup(m, p) + size]
  {
    assert [p][..0] == [];
  }

  /** A root-level object alone gives one entry, its key, holding its size. */
  lemma RootObjectTotals(key: string, size: nat)
    requires Sep !in key
    ensures Ingested([ObjectRecord(key, size)]) == map[key := size]
  {
    IngestedSingle(ObjectRecord(key, size));
    SingleSegmentPrefix(key);
    AddAllSingle(map[], key, size);
  }

  /** A directory marker alone counts only toward its parent directory. */
  lemma DirectoryMarkerTotals(a: string, b: string, size: nat)
    requires Sep !in a && Sep !in b && b != ""
    ensures Ingested([ObjectRecord(a + [Sep] + b + [Sep], size)]) == map[a + [Sep] := size]
  {
    IngestedSingle(ObjectRecord(a + [Sep] + b + [Sep], size));
    DirectoryMarkerPrefixes(a, b);
    AddAllSingle(map[], a + [Sep], size);
  }

  lemma IngestedPair(r: ObjectRecord, t: ObjectRecord)
    ensures Ingested([r, t]) == AddAll(AddAll(map[], Prefixes(r.key), r.size), Prefixes(t.key), t.size)
  {
    assert [r, t][..1] == [r];
    IngestedSingle(r);
  }

  lemma AddAllTwiceOverPair(p: string, q: string, x: nat, y: nat)
    requires p != q
    ensures AddAll(AddAll(map[], [p, q], x), [p, q], y) == map[p := x + y, q := x + y]
  {
    assert [p, q][..1] == [p];
    AddAllSingle(map[], p, x);
    AddAllSingle(map[p := x], q, x);
    var first := map[p := x, q := x];
    assert AddAll(map[], [p, q], x) == first;
    AddAllSingle(first, p, y);
    AddAllSingle(first[p := x + y], q, y);
  }

  /**
   * Two objects in the same two-level directory: both directory levels hold
   * the sum of both sizes, and neither object's own key is an entry.
   */
  lemma NestedTotals(a: string, b: string, c: string, d: string, x: nat, y: nat)
    requires Sep !in a && Sep !in b && Sep !in c && Sep !in d && c != "" && d != ""
    ensures Ingested([ObjectRecord(a + "/" + b + "/" + c, x), ObjectRecord(a + "/" + b + "/" + d, y)])
      == map[a + "/" := x + y, a + "/" + b + "/" := x + y]
  {
    ThreeSegmentPrefixes(a, b, c);
    ThreeSegmentPrefixes(a, b, d);
    IngestedPair(ObjectRecord(a + "/" + b + "/" + c, x), ObjectRecord(a + "/" + b + "/" + d, y));
    assert |a + "/"| < |a + "/" + b + "/"|;
    AddAllTwiceOverPair(a + "/", a + "/" + b + "/", x, y);
  }
}
