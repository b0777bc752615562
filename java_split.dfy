/**
 * Java's `String.split("/")` on object keys, and the segment count ("depth")
 * that the report filters on.
 *
 * `split` with a one-character, non-regex separator and no limit behaves as
 * follows: a string with no separator at all comes back whole, as a
 * one-element array (so `""` gives `[""]`); otherwise the string is cut at
 * every separator and the trailing empty pieces are dropped (so `"a/b/"`
 * gives `["a", "b"]` and `"///"` gives the empty array). Leading and inner
 * empty pieces are kept (`"/a"` gives `["", "a"]`).
 */
module JavaSplit {

  const Sep: char := '/'

  /** True when no element of `parts` contains the separator. */
  predicate NoSeparators(parts: seq<string>) {
    forall k :: 0 <= k < |parts| ==> Sep !in parts[k]
  }

  /** The pieces joined back together with the separator between them. */
  function Join(parts: seq<string>): string
    requires |parts| >= 1
  {
    if |parts| == 1 then parts[0] else parts[0] + [Sep] + Join(parts[1..])
  }

  /**
   * The string cut at every separator, keeping every piece, empty ones
   * included (what `split("/", -1)` returns). Defined one character at a time.
   */
  function RawSplit(s: string): (r: seq<string>)
    ensures |r| >= 1
    ensures NoSeparators(r)
    decreases |s|
  {
    if |s| == 0 then [""]
    else
      var rest := RawSplit(s[1..]);
      if s[0] == Sep then [""] + rest
      else [[s[0]] + rest[0]] + rest[1..]
  }

  /** `parts` with its trailing empty strings removed. */
  function DropTrailingEmpty(parts: seq<string>): (r: seq<string>)
    ensures r <= parts
    ensures r == [] || r[|r| - 1] != ""
    ensures forall k :: |r| <= k < |parts| ==> parts[k] == ""
  {
    if |parts| == 0 then []
    else if parts[|parts| - 1] == "" then DropTrailingEmpty(parts[..|parts| - 1])
    else parts
  }

  /** Java's `s.split("/")`. */
  function Split(s: string): (r: seq<string>)
    ensures NoSeparators(r)
  {
    if Sep !in s then [s] else DropTrailingEmpty(RawSplit(s))
  }

  /** The depth the report filters on: `s.split("/").length`. */
  function Depth(s: string): nat {
    |Split(s)|
  }

  // ---------------------------------------------------------------------
  // Join and RawSplit are inverse to each other.

  lemma {:induction false} JoinSnoc(parts: seq<string>, x: string)
    requires |parts| >= 1
    ensures Join(parts + [x]) == Join(parts) + [Sep] + x
    decreases |parts|
  {
    if |parts| == 1 {
      assert parts + [x] == [parts[0], x];
    } else {
      assert (parts + [x])[1..] == parts[1..] + [x];
      JoinSnoc(parts[1..], x);
    }
  }

  /** Joining two non-empty runs of pieces puts one separator between them. */
  lemma {:induction false} JoinAppend(a: seq<string>, b: seq<string>)
    requires |a| >= 1 && |b| >= 1
    ensures Join(a + b) == Join(a) + [Sep] + Join(b)
    decreases |a|
  {
    if |a| == 1 {
      assert (a + b)[1..] == b;
    } else {
      assert (a + b)[1..] == a[1..] + b;
      JoinAppend(a[1..], b);
    }
  }

  /** Splitting and re-joining gives the string back. */
  lemma {:induction false} JoinRawSplit(s: string)
    ensures Join(RawSplit(s)) == s
    decreases |s|
  {
    if |s| > 0 {
      var rest := RawSplit(s[1..]);
      JoinRawSplit(s[1..]);
      assert s == [s[0]] + s[1..];
      if s[0] != Sep && |rest| > 1 {
        var r := RawSplit(s);
        assert r[1..] == rest[1..];
        assert rest == [rest[0]] + rest[1..];
      }
    }
  }

  lemma {:induction false} RawSplitNoSeparator(w: string)
    requires Sep !in w
    ensures RawSplit(w) == [w]
    decreases |w|
  {
    if |w| > 0 {
      RawSplitNoSeparator(w[1..]);
      assert w == [w[0]] + w[1..];
    }
  }

  lemma {:induction false} RawSplitCons(w: string, t: string)
    requires Sep !in w
    ensures RawSplit(w + [Sep] + t) == [w] + RawSplit(t)
    decreases |w|
  {
    if |w| > 0 {
      assert (w + [Sep] + t)[1..] == w[1..] + [Sep] + t;
      RawSplitCons(w[1..], t);
      assert [w[0]] + w[1..] == w;
    } else {
      assert w + [Sep] + t == [Sep] + t;
      assert ([Sep] + t)[1..] == t;
    }
  }

  /** Joining pieces that hold no separator and cutting again gives the pieces back. */
  lemma {:induction false} RawSplitJoin(parts: seq<string>)
    requires |parts| >= 1 && NoSeparators(parts)
    ensures RawSplit(Join(parts)) == parts
    decreases |parts|
  {
    if |parts| == 1 {
      RawSplitNoSeparator(parts[0]);
    } else {
      RawSplitJoin(parts[1..]);
      RawSplitCons(parts[0], Join(parts[1..]));
      assert parts == [parts[0]] + parts[1..];
    }
  }

  // ---------------------------------------------------------------------
  // Split and Depth.

  /** A string without a separator is one segment of depth 1, itself. */
  lemma SplitNoSeparator(s: string)
    requires Sep !in s
    ensures Split(s) == [s] && Depth(s) == 1
  {
  }

  /** The raw pieces of a string in which the separator occurs are two or more. */
  lemma {:induction false} RawSplitHasSeparator(s: string)
    requires Sep in s
    ensures |RawSplit(s)| >= 2
    decreases |s|
  {
    JoinRawSplit(s);
  }

  /**
   * A separator-terminated path: `p0/p1/.../pn/` splits into its pieces minus
   * the trailing empty ones. In particular its depth is the number of pieces
   * when the last piece is not empty, and never more.
   */
  lemma SplitSlashTerminated(parts: seq<string>)
    requires |parts| >= 1 && NoSeparators(parts)
    ensures Split(Join(parts) + [Sep]) == DropTrailingEmpty(parts)
    ensures Depth(Join(parts) + [Sep]) <= |parts|
    ensures parts[|parts| - 1] != "" ==> Depth(Join(parts) + [Sep]) == |parts|
  {
    var s := Join(parts) + [Sep];
    JoinSnoc(parts, "");
    assert s == Join(parts + [""]);
    assert NoSeparators(parts + [""]);
    RawSplitJoin(parts + [""]);
    assert s[|s| - 1] == Sep;
    assert Sep in s;
    assert (parts + [""])[..|parts|] == parts;
  }

  /** Splitting never yields more segments than the raw cut. */
  lemma SplitWithinRaw(s: string)
    ensures Split(s) <= RawSplit(s)
  {
    if Sep !in s {
      RawSplitNoSeparator(s);
    }
  }

  /** The worked examples of `split` that the aggregation depends on. */
  lemma SplitExamples()
    ensures Split("") == [""]
    ensures Split("a/b/") == ["a", "b"] && Depth("a/b/") == 2
    ensures Split("/") == [] && Split("///") == []
    ensures Split("/a") == ["", "a"]
  {
    assert Join(["a", "b"]) == "a/b";
    SplitSlashTerminated(["a", "b"]);
    assert Join(["a", "b"]) + [Sep] == "a/b/";

    assert Join(["", ""]) == "/";
    RawSplitJoin(["", ""]);
    assert '/' in "/";

    assert Join(["", "", "", ""]) == "///";
    RawSplitJoin(["", "", "", ""]);
    assert "///"[0] == '/';
    assert DropTrailingEmpty(["", "", "", ""]) == [];

    assert Join(["", "a"]) == "/a";
    RawSplitJoin(["", "a"]);
    assert "/a"[0] == '/';
  }
}
