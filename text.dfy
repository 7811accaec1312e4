/**
  The window's text: every buffered line followed by the platform's line
  terminator (StringBuilder.AppendLine), and ordinal substring search
  (String.IndexOf with StringComparison.Ordinal) used to re-anchor a search.
 */
module TextJoin {

  /** Environment.NewLine on the Windows desktop the viewer runs on. */
  const NewLine: string := "\r\n"

  /** The first n lines, each followed by NewLine. */
  function JoinFirst(lines: seq<string>, n: nat): (text: string)
    requires n <= |lines|
  {
    if n == 0 then "" else JoinFirst(lines, n - 1) + lines[n - 1] + NewLine
  }

  /** The lines, each followed by NewLine, the last one included. */
  function Join(lines: seq<string>): (text: string)
  {
    JoinFirst(lines, |lines|)
  }

  /** Offset in Join(lines) at which line i begins. */
  function LineStart(lines: seq<string>, i: nat): (start: nat)
    requires i <= |lines|
  {
    |JoinFirst(lines, i)|
  }

  /** `value` occurs in `text` at offset k. */
  predicate OccursAt(text: string, value: string, k: nat)
  {
    k + |value| <= |text| && text[k..k + |value|] == value
  }

  /** The first offset at or after `from` where `value` occurs, or -1. */
  function IndexOfFrom(text: string, value: string, from: nat): (r: int)
    requires from <= |text|
    ensures r == -1 || from <= r <= |text|
    ensures r == -1 ==> forall k :: from <= k <= |text| ==> !OccursAt(text, value, k)
    ensures r >= 0 ==> OccursAt(text, value, r) && forall k :: from <= k < r ==> !OccursAt(text, value, k)
    decreases |text| - from
  {
    if OccursAt(text, value, from) then from
    else if from == |text| then -1
    else IndexOfFrom(text, value, from + 1)
  }

  /** String.IndexOf(value, StringComparison.Ordinal): the first occurrence, or -1.
      An empty `value` occurs at offset 0. */
  function IndexOf(text: string, value: string): (r: int)
    ensures r == -1 <==> forall k :: 0 <= k <= |text| ==> !OccursAt(text, value, k)
    ensures r >= 0 ==> OccursAt(text, value, r) && forall k :: 0 <= k < r ==> !OccursAt(text, value, k)
  {
    IndexOfFrom(text, value, 0)
  }

  // ---------------------------------------------------------------------

  /** JoinFirst(lines, n) looks at the first n lines only. */
  lemma {:induction false} JoinFirstAgree(s: seq<string>, t: seq<string>, n: nat)
    requires n <= |s| && n <= |t| && s[..n] == t[..n]
    ensures JoinFirst(s, n) == JoinFirst(t, n)
  {
    if n > 0 {
      assert s[..n - 1] == s[..n][..n - 1] == t[..n][..n - 1] == t[..n - 1];
      assert s[n - 1] == s[..n][n - 1] == t[..n][n - 1] == t[n - 1];
      JoinFirstAgree(s, t, n - 1);
    }
  }

  /** The text of the first n lines is a prefix of the text of the first m. */
  lemma {:induction false} JoinFirstPrefix(lines: seq<string>, n: nat, m: nat)
    requires n <= m <= |lines|
    ensures |JoinFirst(lines, n)| <= |JoinFirst(lines, m)|
    ensures JoinFirst(lines, m)[..|JoinFirst(lines, n)|] == JoinFirst(lines, n)
    decreases m
  {
    if n < m {
      JoinFirstPrefix(lines, n, m - 1);
      var a, b := JoinFirst(lines, n), JoinFirst(lines, m - 1);
      assert JoinFirst(lines, m) == b + lines[m - 1] + NewLine;
      assert (b + lines[m - 1] + NewLine)[..|a|] == b[..|a|];
    }
  }

  /** Joining is compatible with concatenation of line lists. */
  lemma {:induction false} JoinConcat(a: seq<string>, b: seq<string>)
    ensures Join(a + b) == Join(a) + Join(b)
    decreases |b|
  {
    if b == [] {
      assert a + b == a;
    } else {
      var init := b[..|b| - 1];
      JoinConcat(a, init);
      var ab := a + b;
      assert ab[..|ab| - 1] == a + init;
      JoinFirstAgree(ab, a + init, |ab| - 1);
      JoinFirstAgree(b, init, |b| - 1);
      assert ab[|ab| - 1] == b[|b| - 1];
    }
  }

  /** Line i sits in the text at LineStart(lines, i), followed by NewLine, and
      the next line starts right after that terminator. */
  lemma JoinLineAt(lines: seq<string>, i: nat)
    requires i < |lines|
    ensures LineStart(lines, i) + |lines[i]| + |NewLine| == LineStart(lines, i + 1)
    ensures LineStart(lines, i + 1) <= |Join(lines)|
    ensures OccursAt(Join(lines), lines[i], LineStart(lines, i))
    ensures OccursAt(Join(lines), NewLine, LineStart(lines, i) + |lines[i]|)
  {
    JoinFirstPrefix(lines, i + 1, |lines|);
    var text := Join(lines);
    var before := JoinFirst(lines, i);
    var upto := JoinFirst(lines, i + 1);
    assert upto == before + lines[i] + NewLine;
    SlicesOfThree(before, lines[i], NewLine);
    var s, e := |before|, |before| + |lines[i]|;
    SliceOfPrefix(text, upto, s, e);
    SliceOfPrefix(text, upto, e, |upto|);
  }

  lemma SlicesOfThree(a: string, b: string, c: string)
    ensures (a + b + c)[|a|..|a| + |b|] == b
    ensures (a + b + c)[|a| + |b|..] == c
  {
  }

  lemma SliceOfPrefix(text: string, prefix: string, i: nat, j: nat)
    requires |prefix| <= |text| && text[..|prefix|] == prefix && i <= j <= |prefix|
    ensures text[i..j] == prefix[i..j]
  {
    assert forall k :: i <= k < j ==> text[k] == text[..|prefix|][k];
  }

  /** Where the re-anchoring scan starts: the first occurrence of the newest
      line's content, which exists and is at or before the newest line's own
      start; it is that start exactly when the content occurs nowhere earlier. */
  lemma AnchorAtOrBeforeNewestLine(lines: seq<string>)
    requires |lines| > 0
    ensures 0 <= IndexOf(Join(lines), lines[|lines| - 1]) <= LineStart(lines, |lines| - 1)
    ensures var text, newest := Join(lines), lines[|lines| - 1];
      IndexOf(text, newest) == LineStart(lines, |lines| - 1) <==>
      forall k :: 0 <= k < LineStart(lines, |lines| - 1) ==> !OccursAt(text, newest, k)
  {
    JoinLineAt(lines, |lines| - 1);
  }

  /** The scan start can fall inside an earlier line: with lines "xbar" and
      "bar", the newest line starts at offset 6 but its content is first
      found at offset 1. */
  lemma AnchorCanPrecedeNewestLine()
    ensures LineStart(["xbar", "bar"], 1) == 6
    ensures IndexOf(Join(["xbar", "bar"]), "bar") == 1
  {
    var lines := ["xbar", "bar"];
    assert JoinFirst(lines, 1) == "xbar\r\n";
    var text := Join(lines);
    assert text == "xbar\r\nbar\r\n";
    assert !OccursAt(text, "bar", 0) by { assert text[0] != 'b'; }
    assert OccursAt(text, "bar", 1);
  }
}
