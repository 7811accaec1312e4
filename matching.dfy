/**
  The search cursor of MainWindowModel, as pure functions.

  The regular-expression engine (System.Text.RegularExpressions with
  IgnoreCase | Singleline) is not modelled: it enters as a RegexEngine value
  holding two uninterpreted functions, `isMatch` (Regex.IsMatch on one line)
  and `matches` (Regex.Matches on a text from a start offset, an ordered list
  of spans). Everything below holds for every such engine.
 */
module Matching {
  import opened Wrappers

  /** A Match: where it starts in the searched text and how long it is. */
  datatype Span = Span(index: nat, length: nat)

  datatype RegexEngine = RegexEngine(
    isMatch: (string, string) -> bool,
    matches: (string, string, nat) -> seq<Span>)

  /** The held match list (null when none is held) and the index of the
      match most recently returned. */
  datatype Cursor = Cursor(matches: Option<seq<Span>>, index: nat)

  const Cleared := Cursor(None, 0)

  /** One call of Search(pattern) on the given text. Without an open reader or
      with a null pattern it clears. With a held list and a further entry it
      advances, without looking at the pattern or the text again. With a held
      list and no further entry it clears (it never wraps). With no held list
      it scans the whole text and returns the first match, or clears. */
  function SearchStep(readerOpen: bool, pattern: Option<string>, text: string,
                      cursor: Cursor, engine: RegexEngine): (r: (Cursor, Option<Span>))
    ensures r.1.None? <==> r.0 == Cleared
  {
    if !readerOpen || pattern.None? then (Cleared, None)
    else match cursor.matches
      case Some(held) =>
        if cursor.index + 1 < |held| then (Cursor(Some(held), cursor.index + 1), Some(held[cursor.index + 1]))
        else (Cleared, None)
      case None =>
        var found := engine.matches(pattern.value, text, 0);
        if |found| > 0 then (Cursor(Some(found), 0), Some(found[0])) else (Cleared, None)
  }

  /** The results of `k` consecutive Search calls with the same arguments,
      and the cursor they leave. */
  function SearchRun(k: nat, readerOpen: bool, pattern: Option<string>, text: string,
                     cursor: Cursor, engine: RegexEngine): (r: (seq<Option<Span>>, Cursor))
    ensures |r.0| == k
  {
    if k == 0 then ([], cursor)
    else
      var (next, r) := SearchStep(readerOpen, pattern, text, cursor, engine);
      var (rest, last) := SearchRun(k - 1, readerOpen, pattern, text, next, engine);
      ([r] + rest, last)
  }

  function Hits(spans: seq<Span>): (r: seq<Option<Span>>)
    ensures |r| == |spans| && forall i :: 0 <= i < |spans| ==> r[i] == Some(spans[i])
  {
    if spans == [] then [] else [Some(spans[0])] + Hits(spans[1..])
  }

  /** A Search with a held list and a further entry returns that entry whatever
      pattern and text it is given. */
  lemma SearchIgnoresPatternWhileHolding(p1: string, p2: string, t1: string, t2: string,
                                         cursor: Cursor, engine: RegexEngine)
    requires cursor.matches.Some? && cursor.index + 1 < |cursor.matches.value|
    ensures SearchStep(true, Some(p1), t1, cursor, engine) == SearchStep(true, Some(p2), t2, cursor, engine)
    ensures SearchStep(true, Some(p1), t1, cursor, engine).1 == Some(cursor.matches.value[cursor.index + 1])
  {
  }

  /** From a held list at entry i, further Search calls return the remaining
      entries in order and then one null, leaving the cursor cleared. */
  lemma {:induction false} SearchDrainsHeld(readerOpen: bool, pattern: Option<string>, text: string,
                                            held: seq<Span>, i: nat, engine: RegexEngine)
    requires readerOpen && pattern.Some? && i < |held|
    ensures SearchRun(|held| - i, readerOpen, pattern, text, Cursor(Some(held), i), engine)
      == (Hits(held[i + 1..]) + [None], Cleared)
    decreases |held| - i
  {
    if i + 1 == |held| {
      assert held[i + 1..] == [];
      assert SearchStep(readerOpen, pattern, text, Cursor(Some(held), i), engine) == (Cleared, None);
      assert SearchRun(0, readerOpen, pattern, text, Cleared, engine) == ([], Cleared);
      var none: seq<Option<Span>> := [None];
      assert none + [] == none;
      assert Hits(held[i + 1..]) + none == none;
      assert SearchRun(1, readerOpen, pattern, text, Cursor(Some(held), i), engine) == ([None], Cleared);
    } else {
      var k := |held| - i;
      var cursor := Cursor(Some(held), i);
      var next := Cursor(Some(held), i + 1);
      assert SearchStep(readerOpen, pattern, text, cursor, engine) == (next, Some(held[i + 1]));
      var rest := SearchRun(k - 1, readerOpen, pattern, text, next, engine);
      assert SearchRun(k, readerOpen, pattern, text, cursor, engine) == ([Some(held[i + 1])] + rest.0, rest.1);
      SearchDrainsHeld(readerOpen, pattern, text, held, i + 1, engine);
      assert held[i + 1..][1..] == held[i + 2..];
      assert Hits(held[i + 1..]) == [Some(held[i + 1])] + Hits(held[i + 2..]);
      assert [Some(held[i + 1])] + (Hits(held[i + 2..]) + [None])
          == ([Some(held[i + 1])] + Hits(held[i + 2..])) + [None];
    }
  }

  /** Starting without a held list on a text with n > 0 matches, n + 1 Search
      calls return every match in order and then null (no wrap-around), and
      the call after that starts over at the first match. */
  lemma SearchVisitsEveryMatchOnce(pattern: string, text: string, engine: RegexEngine)
    requires |engine.matches(pattern, text, 0)| > 0
    ensures var all := engine.matches(pattern, text, 0);
      SearchRun(|all| + 1, true, Some(pattern), text, Cleared, engine) == (Hits(all) + [None], Cleared)
    ensures var all := engine.matches(pattern, text, 0);
      SearchRun(|all| + 2, true, Some(pattern), text, Cleared, engine).0[|all| + 1] == Some(all[0])
  {
    var all := engine.matches(pattern, text, 0);
    var held := Cursor(Some(all), 0);
    assert SearchStep(true, Some(pattern), text, Cleared, engine) == (held, Some(all[0]));
    SearchDrainsHeld(true, Some(pattern), text, all, 0, engine);
    var drained := SearchRun(|all|, true, Some(pattern), text, held, engine);
    assert SearchRun(|all| + 1, true, Some(pattern), text, Cleared, engine) == ([Some(all[0])] + drained.0, drained.1);
    assert Hits(all) == [Some(all[0])] + Hits(all[1..]);
    assert [Some(all[0])] + (Hits(all[1..]) + [None]) == ([Some(all[0])] + Hits(all[1..])) + [None];
    SearchRunSplit(|all| + 1, 1, true, Some(pattern), text, Cleared, engine);
    var again := SearchRun(1, true, Some(pattern), text, Cleared, engine);
    assert again.0 == [Some(all[0])];
  }

  /** Running k + m calls is running k, then m from where they left off. */
  lemma {:induction false} SearchRunSplit(k: nat, m: nat, readerOpen: bool, pattern: Option<string>,
                                          text: string, cursor: Cursor, engine: RegexEngine)
    ensures var head := SearchRun(k, readerOpen, pattern, text, cursor, engine);
      var tail := SearchRun(m, readerOpen, pattern, text, head.1, engine);
      SearchRun(k + m, readerOpen, pattern, text, cursor, engine) == (head.0 + tail.0, tail.1)
  {
    if k == 0 {
      var tail := SearchRun(m, readerOpen, pattern, text, cursor, engine);
      assert [] + tail.0 == tail.0;
    } else {
      var step := SearchStep(readerOpen, pattern, text, cursor, engine);
      SearchRunSplit(k - 1, m, readerOpen, pattern, text, step.0, engine);
      var head := SearchRun(k - 1, readerOpen, pattern, text, step.0, engine);
      var tail := SearchRun(m, readerOpen, pattern, text, head.1, engine);
      var whole := SearchRun(k - 1 + m, readerOpen, pattern, text, step.0, engine);
      assert SearchRun(k, readerOpen, pattern, text, cursor, engine) == ([step.1] + head.0, head.1);
      assert SearchRun(k + m, readerOpen, pattern, text, cursor, engine) == ([step.1] + whole.0, whole.1);
      assert [step.1] + (head.0 + tail.0) == ([step.1] + head.0) + tail.0;
    }
  }

  /** The first line at or after `from` that the pattern matches on its own,
      or |lines| when there is none: where ReadAndSearch stops reading. */
  function FirstMatchingLine(engine: RegexEngine, pattern: string, lines: seq<string>, from: nat): (k: nat)
    requires from <= |lines|
    ensures from <= k <= |lines|
    ensures forall i :: from <= i < k ==> !engine.isMatch(pattern, lines[i])
    ensures k < |lines| ==> engine.isMatch(pattern, lines[k])
    decreases |lines| - from
  {
    if from == |lines| || engine.isMatch(pattern, lines[from]) then from
    else FirstMatchingLine(engine, pattern, lines, from + 1)
  }

  /** The three properties of FirstMatchingLine determine it: any line number
      with no match before it, and a match at it unless it is the end, is it. */
  lemma FirstMatchingLineUnique(engine: RegexEngine, pattern: string, lines: seq<string>, from: nat, j: nat)
    requires from <= j <= |lines|
    requires forall i :: from <= i < j ==> !engine.isMatch(pattern, lines[i])
    requires j < |lines| ==> engine.isMatch(pattern, lines[j])
    ensures FirstMatchingLine(engine, pattern, lines, from) == j
  {
  }
}
