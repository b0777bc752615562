/**
 * The report of one bucket: `sortByValue` orders the totals map's entries
 * by ascending total, the key list is reversed in place (giving descending
 * order), and the keys whose `split("/").length` exceeds `maxDepth` are
 * dropped, the rest being emitted in order with their totals.
 *
 * The totals map is a hash map whose iteration order the program does not
 * fix; that order is the parameter `order`, any duplicate-free enumeration of
 * the map's keys. Only sortedness and "same pairs" are promised, so the
 * order among equal totals is whatever the sort leaves.
 */
module ReportBuilder {
  import opened JavaSplit
  import opened Seqs

  /** One key/value pair of the totals map, and one emitted report line `<total> : <key>`. */
  datatype Entry = Entry(key: string, total: nat)

  /** `order` enumerates exactly the keys of `totals`, each once. */
  predicate Enumerates(totals: map<string, nat>, order: seq<string>) {
    (forall k :: k in totals ==> k in order) &&
    (forall i :: 0 <= i < |order| ==> order[i] in totals) &&
    Distinct(order)
  }

  /** The map's entries in its iteration order. */
  function EntriesOf(totals: map<string, nat>, order: seq<string>): seq<Entry>
    requires forall i :: 0 <= i < |order| ==> order[i] in totals
  {
    seq(|order|, i requires 0 <= i < |order| => Entry(order[i], totals[order[i]]))
  }

  /** The keys of a list of entries, in order (`keySet()` of a `LinkedHashMap`). */
  function Keys(es: seq<Entry>): seq<string> {
    seq(|es|, i requires 0 <= i < |es| => es[i].key)
  }

  predicate Ascending(es: seq<Entry>) {
    forall i, j :: 0 <= i < j < |es| ==> es[i].total <= es[j].total
  }

  /** Keys of `totals` listed by non-increasing total. */
  predicate DescendingBy(ks: seq<string>, totals: map<string, nat>) {
    forall i, j :: 0 <= i < j < |ks| && ks[i] in totals && ks[j] in totals ==> totals[ks[i]] >= totals[ks[j]]
  }

  // ---------------------------------------------------------------------
  // sortByValue.

  /** An entry no larger than any of an ascending list can head it. */
  lemma AscendingCons(x: Entry, s: seq<Entry>)
    requires Ascending(s)
    requires forall k :: 0 <= k < |s| ==> x.total <= s[k].total
    ensures Ascending([x] + s)
  {
    var r := [x] + s;
    forall i, j | 0 <= i < j < |r| ensures r[i].total <= r[j].total {
      if i > 0 {
        assert r[i] == s[i - 1];
      }
      assert r[j] == s[j - 1];
    }
  }

  /** Dropping the head of an ascending list leaves it ascending. */
  lemma AscendingTail(s: seq<Entry>)
    requires |s| >= 1 && Ascending(s)
    ensures Ascending(s[1..])
  {
    forall i, j | 0 <= i < j < |s| - 1 ensures s[1..][i].total <= s[1..][j].total {
      assert s[1..][i] == s[i + 1] && s[1..][j] == s[j + 1];
    }
  }

  /**
   * The step of `Insert` past a smaller head `x`: if `rest` is `e` inserted
   * into the tail, then `x` followed by `rest` is still ascending and holds
   * the old list plus `e`.
   */
  lemma InsertPastHead(x: Entry, e: Entry, tail: seq<Entry>, rest: seq<Entry>)
    requires Ascending([x] + tail)
    requires x.total < e.total
    requires Ascending(rest) && multiset(rest) == multiset(tail) + multiset{e}
    ensures Ascending([x] + rest)
    ensures multiset([x] + rest) == multiset([x] + tail) + multiset{e}
  {
    forall k | 0 <= k < |rest| ensures x.total <= rest[k].total {
      assert rest[k] in multiset(rest);
      if rest[k] != e {
        assert rest[k] in multiset(tail);
        var m :| 0 <= m < |tail| && tail[m] == rest[k];
        assert ([x] + tail)[0] == x && ([x] + tail)[m + 1] == tail[m];
      }
    }
    AscendingCons(x, rest);
  }

  /** Put `e` into an ascending list, before the first entry whose total is not smaller. */
  function Insert(e: Entry, sorted: seq<Entry>): (r: seq<Entry>)
    requires Ascending(sorted)
    ensures Ascending(r)
    ensures multiset(r) == multiset(sorted) + multiset{e}
  {
    if sorted == [] then [e]
    else if e.total <= sorted[0].total then
      AscendingCons(e, sorted);
      [e] + sorted
    else
      AscendingTail(sorted);
      var rest := Insert(e, sorted[1..]);
      assert sorted == [sorted[0]] + sorted[1..];
      InsertPastHead(sorted[0], e, sorted[1..], rest);
      [sorted[0]] + rest
  }

  /**
   * `sortByValue`: the same entries (as a multiset: a permutation), ordered by
   * non-decreasing total. Stable, as the library sort is.
   */
  function SortByValue(es: seq<Entry>): (r: seq<Entry>)
    ensures Ascending(r)
    ensures multiset(r) == multiset(es)
  {
    if es == [] then []
    else
      assert es == [es[0]] + es[1..];
      Insert(es[0], SortByValue(es[1..]))
  }

  /** A rearrangement of a map's entries holds exactly its key/value pairs, each key once. */
  lemma EntriesRearranged(sorted: seq<Entry>, totals: map<string, nat>, order: seq<string>)
    requires Enumerates(totals, order)
    requires multiset(sorted) == multiset(EntriesOf(totals, order))
    ensures forall i :: 0 <= i < |sorted| ==> sorted[i].key in totals && sorted[i].total == totals[sorted[i].key]
    ensures forall k :: k in Keys(sorted) <==> k in totals
    ensures Distinct(Keys(sorted))
  {
    var es := EntriesOf(totals, order);
    forall k | k in Keys(sorted) ensures k in totals {
      var i :| 0 <= i < |sorted| && Keys(sorted)[i] == k;
      assert sorted[i] in multiset(es);
    }
    forall i | 0 <= i < |sorted|
      ensures sorted[i].key in totals && sorted[i].total == totals[sorted[i].key]
    {
      assert sorted[i] in multiset(es);
    }
    forall k | k in totals
      ensures k in Keys(sorted)
    {
      var j :| 0 <= j < |order| && order[j] == k;
      assert es[j] in multiset(sorted);
      var i :| 0 <= i < |sorted| && sorted[i] == es[j];
      assert Keys(sorted)[i] == k;
    }
    assert Distinct(es) by {
      forall i, j | 0 <= i < j < |es| ensures es[i] != es[j] {
        assert es[i].key == order[i] && es[j].key == order[j];
      }
    }
    DistinctPermutation(sorted, es);
    forall i, j | 0 <= i < j < |sorted|
      ensures Keys(sorted)[i] != Keys(sorted)[j]
    {
      assert sorted[i] != sorted[j];
    }
  }

  /** An enumeration of a map's keys is as long as the map is large. */
  lemma EnumerationSize(totals: map<string, nat>, order: seq<string>)
    requires Enumerates(totals, order)
    ensures |order| == |totals|
  {
    assert totals.Keys == set k | k in order;
    DistinctCardinality(order);
  }

  /**
   * Sorting the map's entries gives back exactly its key/value pairs: as many
   * entries as keys, every sorted entry a pair of the map, every key of the
   * map present, and no key twice.
   */
  lemma SortedEntriesOfMap(totals: map<string, nat>, order: seq<string>)
    requires Enumerates(totals, order)
    ensures |SortByValue(EntriesOf(totals, order))| == |totals|
    ensures forall i :: 0 <= i < |SortByValue(EntriesOf(totals, order))| ==>
      var e := SortByValue(EntriesOf(totals, order))[i];
      e.key in totals && e.total == totals[e.key]
    ensures forall k :: k in Keys(SortByValue(EntriesOf(totals, order))) <==> k in totals
    ensures Distinct(Keys(SortByValue(EntriesOf(totals, order))))
  {
    var sorted := SortByValue(EntriesOf(totals, order));
    assert |multiset(sorted)| == |multiset(EntriesOf(totals, order))|;
    EnumerationSize(totals, order);
    EntriesRearranged(sorted, totals, order);
  }

  lemma {:induction false} DistinctCardinality(s: seq<string>)
    requires Distinct(s)
    ensures |set k | k in s| == |s|
  {
    if s != [] {
      var rest := s[1..];
      assert Distinct(rest) by {
        forall i, j | 0 <= i < j < |rest| ensures rest[i] != rest[j] {
          assert rest[i] == s[i + 1] && rest[j] == s[j + 1];
        }
      }
      DistinctCardinality(rest);
      assert s[0] !in rest by {
        forall j | 0 <= j < |rest| ensures rest[j] != s[0] {
          assert rest[j] == s[j + 1];
        }
      }
      assert (set k | k in s) == (set k | k in rest) + {s[0]};
    }
  }

  // ---------------------------------------------------------------------
  // Collections.reverse.

  /** The list back to front. */
  function Reversed(s: seq<string>): (r: seq<string>)
    ensures |r| == |s|
  {
    seq(|s|, i requires 0 <= i < |s| => s[|s| - 1 - i])
  }

  /** `Collections.reverse`: swap the i-th and j-th elements, moving inward from both ends. */
  method Reverse(a: array<string>)
    modifies a
    ensures a[..] == Reversed(old(a[..]))
  {
    var i, j := 0, a.Length - 1;
    while i < a.Length / 2
      invariant 0 <= i <= a.Length / 2 && j == a.Length - 1 - i
      invariant forall k :: 0 <= k < i ==> a[k] == old(a[a.Length - 1 - k]) && a[a.Length - 1 - k] == old(a[k])
      invariant forall k :: i <= k < a.Length - i ==> a[k] == old(a[k])
    {
      a[i], a[j] := a[j], a[i];
      i, j := i + 1, j - 1;
    }
  }

  /** Reversing keys listed by ascending total lists them by descending total. */
  lemma ReversedIsDescending(sorted: seq<Entry>, totals: map<string, nat>)
    requires Ascending(sorted)
    requires forall i :: 0 <= i < |sorted| ==> sorted[i].key in totals && sorted[i].total == totals[sorted[i].key]
    ensures DescendingBy(Reversed(Keys(sorted)), totals)
  {
    var ks := Reversed(Keys(sorted));
    var n := |sorted|;
    forall i, j | 0 <= i < j < |ks| && ks[i] in totals && ks[j] in totals
      ensures totals[ks[i]] >= totals[ks[j]]
    {
      assert ks[i] == sorted[n - 1 - i].key && ks[j] == sorted[n - 1 - j].key;
    }
  }

  /** Reversal keeps exactly the same keys, each as often. */
  lemma ReversedSameKeys(s: seq<string>)
    ensures forall k :: k in Reversed(s) <==> k in s
    ensures Distinct(s) ==> Distinct(Reversed(s))
  {
    var r := Reversed(s);
    forall k | k in s ensures k in r {
      var i :| 0 <= i < |s| && s[i] == k;
      assert r[|s| - 1 - i] == k;
    }
  }

  // ---------------------------------------------------------------------
  // The depth filter.

  /** The keys with `split("/").length <= maxDepth`, in their original order. */
  function FilterByDepth(keys: seq<string>, maxDepth: int): (r: seq<string>)
    ensures forall k :: k in r <==> k in keys && Depth(k) <= maxDepth
    ensures |r| <= |keys|
    ensures Distinct(keys) ==> Distinct(r)
  {
    if keys == [] then []
    else
      var rest := FilterByDepth(keys[1..], maxDepth);
      assert keys == [keys[0]] + keys[1..];
      assert Distinct(keys) ==> keys[0] !in keys[1..] && Distinct(keys[1..]) by {
        if Distinct(keys) {
          forall j | 0 <= j < |keys| - 1 ensures keys[1..][j] != keys[0] {
            assert keys[1..][j] == keys[j + 1];
          }
          forall i, j | 0 <= i < j < |keys| - 1 ensures keys[1..][i] != keys[1..][j] {
            assert keys[1..][i] == keys[i + 1];
          }
        }
      }
      (if Depth(keys[0]) <= maxDepth then [keys[0]] else []) + rest
  }

  /** The filter neither adds nor reorders: filtering a concatenation concatenates the filtered parts. */
  lemma {:induction false} FilterAppend(a: seq<string>, b: seq<string>, maxDepth: int)
    ensures FilterByDepth(a + b, maxDepth) == FilterByDepth(a, maxDepth) + FilterByDepth(b, maxDepth)
    decreases |a|
  {
    if a != [] {
      assert (a + b)[1..] == a[1..] + b;
      FilterAppend(a[1..], b, maxDepth);
    } else {
      assert a + b == b;
    }
  }

  /** A key no smaller than any later one can head a list by descending total. */
  lemma DescendingCons(x: string, s: seq<string>, totals: map<string, nat>)
    requires DescendingBy(s, totals)
    requires forall y :: y in s && y in totals && x in totals ==> totals[x] >= totals[y]
    ensures DescendingBy([x] + s, totals)
  {
    var r := [x] + s;
    forall i, j | 0 <= i < j < |r| && r[i] in totals && r[j] in totals
      ensures totals[r[i]] >= totals[r[j]]
    {
      if i > 0 {
        assert r[i] == s[i - 1];
      }
      assert r[j] == s[j - 1];
    }
  }

  /** The head of a list by descending total is no smaller than anything after it, and the tail is still descending. */
  lemma DescendingHead(keys: seq<string>, totals: map<string, nat>)
    requires |keys| >= 1 && DescendingBy(keys, totals)
    ensures DescendingBy(keys[1..], totals)
    ensures forall y :: y in keys[1..] && y in totals && keys[0] in totals ==> totals[keys[0]] >= totals[y]
  {
    var rest := keys[1..];
    forall i, j | 0 <= i < j < |rest| && rest[i] in totals && rest[j] in totals
      ensures totals[rest[i]] >= totals[rest[j]]
    {
      assert rest[i] == keys[i + 1] && rest[j] == keys[j + 1];
    }
    forall y | y in rest && y in totals && keys[0] in totals
      ensures totals[keys[0]] >= totals[y]
    {
      var m :| 0 <= m < |rest| && rest[m] == y;
      assert keys[m + 1] == y;
    }
  }

  /** Dropping keys keeps a list that was by descending total in that order. */
  lemma {:induction false} FilterKeepsDescending(keys: seq<string>, totals: map<string, nat>, maxDepth: int)
    requires DescendingBy(keys, totals)
    ensures DescendingBy(FilterByDepth(keys, maxDepth), totals)
    decreases |keys|
  {
    if keys != [] {
      DescendingHead(keys, totals);
      FilterKeepsDescending(keys[1..], totals, maxDepth);
      if Depth(keys[0]) <= maxDepth {
        DescendingCons(keys[0], FilterByDepth(keys[1..], maxDepth), totals);
      }
    }
  }

  // ---------------------------------------------------------------------
  // The whole report.

  /** The keys the report shows, in the order it shows them. */
  function ShownKeys(totals: map<string, nat>, order: seq<string>, maxDepth: int): seq<string>
    requires Enumerates(totals, order)
  {
    FilterByDepth(Reversed(Keys(SortByValue(EntriesOf(totals, order)))), maxDepth)
  }

  /**
   * Reversing the keys of an ascending list of a map's pairs and filtering
   * them gives the map's keys within `maxDepth`, each once, by
   * non-increasing total.
   */
  lemma ShownFromSorted(sorted: seq<Entry>, totals: map<string, nat>, maxDepth: int)
    requires Ascending(sorted)
    requires forall i :: 0 <= i < |sorted| ==> sorted[i].key in totals && sorted[i].total == totals[sorted[i].key]
    requires forall k :: k in Keys(sorted) <==> k in totals
    requires Distinct(Keys(sorted))
    ensures forall k :: k in FilterByDepth(Reversed(Keys(sorted)), maxDepth) <==> k in totals && Depth(k) <= maxDepth
    ensures Distinct(FilterByDepth(Reversed(Keys(sorted)), maxDepth))
    ensures DescendingBy(FilterByDepth(Reversed(Keys(sorted)), maxDepth), totals)
  {
    ReversedIsDescending(sorted, totals);
    ReversedSameKeys(Keys(sorted));
    FilterKeepsDescending(Reversed(Keys(sorted)), totals, maxDepth);
  }

  /**
   * The shown keys are exactly the keys of the map within `maxDepth`, each
   * once, by non-increasing total.
   */
  lemma ShownKeysSpec(totals: map<string, nat>, order: seq<string>, maxDepth: int)
    requires Enumerates(totals, order)
    ensures forall k :: k in ShownKeys(totals, order, maxDepth) <==> k in totals && Depth(k) <= maxDepth
    ensures Distinct(ShownKeys(totals, order, maxDepth))
    ensures DescendingBy(ShownKeys(totals, order, maxDepth), totals)
  {
    SortedEntriesOfMap(totals, order);
    ShownFromSorted(SortByValue(EntriesOf(totals, order)), totals, maxDepth);
  }

  /** The emitted lines: each shown key with its total. */
  function LinesOf(shown: seq<string>, totals: map<string, nat>): seq<Entry>
    requires forall i :: 0 <= i < |shown| ==> shown[i] in totals
  {
    seq(|shown|, i requires 0 <= i < |shown| => Entry(shown[i], totals[shown[i]]))
  }

  /**
   * Lines for keys that are exactly the map's keys within `maxDepth`, each
   * once, by non-increasing total: each line is a pair of the map within the
   * depth, every such key has a line, totals never increase, no key repeats.
   */
  lemma LinesOfSpec(shown: seq<string>, totals: map<string, nat>, maxDepth: int)
    requires forall k :: k in shown <==> k in totals && Depth(k) <= maxDepth
    requires Distinct(shown)
    requires DescendingBy(shown, totals)
    ensures forall i :: 0 <= i < |shown| ==> shown[i] in totals
    ensures Keys(LinesOf(shown, totals)) == shown
    ensures forall i :: 0 <= i < |LinesOf(shown, totals)| ==>
      var line := LinesOf(shown, totals)[i];
      line.key in totals && line.total == totals[line.key] && Depth(line.key) <= maxDepth
    ensures forall k :: k in totals && Depth(k) <= maxDepth ==> k in Keys(LinesOf(shown, totals))
    ensures forall i, j :: 0 <= i < j < |LinesOf(shown, totals)| ==>
      LinesOf(shown, totals)[i].total >= LinesOf(shown, totals)[j].total
    ensures Distinct(Keys(LinesOf(shown, totals)))
  {
    forall i | 0 <= i < |shown| ensures shown[i] in totals {
      assert shown[i] in shown;
    }
    var lines := LinesOf(shown, totals);
    assert Keys(lines) == shown;
    forall i, j | 0 <= i < j < |lines|
      ensures lines[i].total >= lines[j].total
    {
      assert shown[i] in totals && shown[j] in totals;
    }
  }

  /**
   * The report lines of one bucket: sort the entries by value, take the key
   * list, reverse it in place, keep the keys within `maxDepth` and emit each
   * with its total (`sortedKeyMap.get(key)`, which holds the same pairs as
   * `totals`, by SortedEntriesOfMap).
   */
  method Report(totals: map<string, nat>, order: seq<string>, maxDepth: int) returns (lines: seq<Entry>)
    requires Enumerates(totals, order)
    ensures Keys(lines) == ShownKeys(totals, order, maxDepth)
    ensures forall i :: 0 <= i < |lines| ==>
      lines[i].key in totals && lines[i].total == totals[lines[i].key] && Depth(lines[i].key) <= maxDepth
    ensures forall k :: k in totals && Depth(k) <= maxDepth ==> k in Keys(lines)
    ensures forall i, j :: 0 <= i < j < |lines| ==> lines[i].total >= lines[j].total
    ensures Distinct(Keys(lines))
  {
    var sortedKeyMap := SortByValue(EntriesOf(totals, order));
    var sortedKeys := new string[|sortedKeyMap|](i requires 0 <= i < |sortedKeyMap| => sortedKeyMap[i].key);
    assert sortedKeys[..] == Keys(sortedKeyMap);
    Reverse(sortedKeys);
    var shown := FilterByDepth(sortedKeys[..], maxDepth);
    assert shown == ShownKeys(totals, order, maxDepth);
    ShownKeysSpec(totals, order, maxDepth);
    LinesOfSpec(shown, totals, maxDepth);
    lines := LinesOf(shown, totals);
  }
}
