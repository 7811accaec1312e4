/**
  MainWindowModel: a window of at most MaxLines consecutive lines of a line
  source, the window's text, the number of the newest line read, and the
  search cursor over the text.

  The opened stream and its StreamReader become one LineSource value (the
  file's lines and how many have been read). The Items.CollectionChanged
  handler that rebuilds Text is the method OnItemsChanged, called after every
  change of Items that raises CollectionChanged.
 */
module Window {
  import opened Wrappers
  import opened RingSpec
  import opened ObservableDeques
  import opened TextJoin
  import opened Matching

  const MaxLines: nat := 20

  /** A reader over a stream of lines: the lines and the number read so far. */
  datatype LineSource = LineSource(lines: seq<string>, position: nat) {
    predicate Valid() { position <= |lines| }

    predicate EndOfStream()
      requires Valid()
    {
      position == |lines|
    }

    /** ReadLine: the next line and the reader advanced past it. */
    function ReadLine(): (r: (string, LineSource))
      requires Valid() && !EndOfStream()
      ensures r.1.Valid()
    {
      (lines[position], LineSource(lines, position + 1))
    }
  }

  /** `window` is the run of consecutive lines of `src` that ends with the
      last line read. */
  ghost predicate IsWindowOf(window: seq<string>, src: LineSource)
  {
    src.Valid() && |window| <= src.position && window == LastLines(src.lines, src.position, |window|)
  }

  /** Appending the next line read to a window gives the window one line on. */
  lemma WindowAfterRead(window: seq<string>, src: LineSource)
    requires IsWindowOf(window, src) && !src.EndOfStream() && |window| <= MaxLines
    ensures var next := LineSource(src.lines, src.position + 1);
      var w := PushBack(window, src.lines[src.position], MaxLines);
      IsWindowOf(w, next) && |w| == Min(|window| + 1, MaxLines)
  {
    var p, c := src.position, |window|;
    LastLinesIsSlice(src.lines, p, c);
    LastLinesIsSlice(src.lines, p + 1, Min(c + 1, MaxLines));
    WindowStep(src.lines, p, c, MaxLines);
  }

  /** What ReadAndSearch returns: a Match, null, or the
      ArgumentOutOfRangeException that indexing an empty match list throws. */
  datatype Outcome = Found(span: Span) | NotFound | IndexOutOfRange

  function FromMatch(m: Option<Span>): (r: Outcome)
    ensures r != IndexOutOfRange && (r.Found? <==> m.Some?)
  {
    if m.Some? then Found(m.value) else NotFound
  }

  class MainWindowModel {
    const Items: ObservableDeque<string>
    const engine: RegexEngine
    var CurrentLineNumber: Option<int>
    var Text: string
    var reader: Option<LineSource>
    var matches: Option<seq<Span>>
    var matchIndex: nat

    /** The pattern and start offset the held match list was computed from. */
    ghost var scanPattern: string
    ghost var scanStart: nat

    /** A held match list belongs to the current Text, and the index points
        into it. */
    ghost predicate CursorValid()
      reads this
    {
      && (matches.Some? ==> matches.value == engine.matches(scanPattern, Text, scanStart))
      && (matches.None? ==> matchIndex == 0)
      && (matches.Some? && |matches.value| > 0 ==> matchIndex < |matches.value|)
    }

    ghost predicate Valid()
      reads this, Items, Items.items
    {
      && Items.Valid() && Items.items.Length == MaxLines
      // Text always shows the buffer as it is now
      && Text == Join(Items.Contents)
      && CursorValid()
      // while a reader is open the buffer is the window ending at the last line
      // read, and CurrentLineNumber counts the lines read
      && (reader.Some? ==>
            IsWindowOf(Items.Contents, reader.value) && CurrentLineNumber == Some(reader.value.position))
    }

    constructor (engine: RegexEngine)
      ensures Valid() && fresh(Items) && fresh(Items.items)
      ensures Items.Contents == [] && Text == "" && CurrentLineNumber == None && reader == None
      ensures matches == None && matchIndex == 0 && this.engine == engine
    {
      Items := new ObservableDeque<string>(MaxLines);
      this.engine := engine;
      CurrentLineNumber := None;
      Text := "";
      reader := None;
      matches, matchIndex := None, 0;
      scanPattern, scanStart := "", 0;
    }

    /** The 1-based number of the oldest buffered line. */
    function CurrentStartLineNumber(): (r: Option<int>)
      reads this, Items, Items.items
      requires Valid()
      ensures r.Some? <==> CurrentLineNumber.Some?
      ensures reader.Some? ==> r == Some(reader.value.position - |Items.Contents| + 1) && r.value >= 1
      ensures reader.Some? && Items.Count > 0 ==> Items.Contents[0] == reader.value.lines[r.value - 1]
    {
      if CurrentLineNumber.None? then None
      else if reader.None? then Some(CurrentLineNumber.value - Items.Count + 1)
      else
        LastLinesIsSlice(reader.value.lines, reader.value.position, Items.Count);
        Some(CurrentLineNumber.value - Items.Count + 1)
    }

    /** Whether a reader is open and has nothing left to read. */
    function EndOfFile(): (r: bool)
      reads this, Items, Items.items
      requires Valid()
      ensures r ==> reader.Some? && CurrentLineNumber == Some(|reader.value.lines|)
      ensures reader.None? ==> !r
    {
      reader.Some? && reader.value.EndOfStream()
    }

    /** The Items.CollectionChanged handler: Text becomes the joined buffer,
        and assigning Text drops the held match list. */
    method OnItemsChanged()
      requires Items.Valid()
      modifies this
      ensures Text == Join(Items.Contents) && matches == None && matchIndex == 0
      ensures reader == old(reader) && CurrentLineNumber == old(CurrentLineNumber)
    {
      var lines := Items.Enumerate();
      Text := Join(lines);
      matches := None;
      matchIndex := 0;
    }

    /** One step of the reading loops of Open and ReadNext: the next line is
        appended to Items, Text follows, and the line counter advances. */
    method ReadLineIntoItems()
      requires Items.Valid() && Items.items.Length == MaxLines
      requires reader.Some? && IsWindowOf(Items.Contents, reader.value) && !reader.value.EndOfStream()
      requires CurrentLineNumber == Some(reader.value.position)
      modifies this, Items, Items.items
      ensures Items.Valid() && Items.items == old(Items.items)
      ensures reader == Some(LineSource(old(reader).value.lines, old(reader).value.position + 1))
      ensures CurrentLineNumber == Some(reader.value.position)
      ensures IsWindowOf(Items.Contents, reader.value)
      ensures |Items.Contents| == Min(old(|Items.Contents|) + 1, MaxLines)
      ensures Text == Join(Items.Contents) && matches == None && matchIndex == 0
    {
      ghost var src := reader.value;
      var next := reader.value.ReadLine();
      reader := Some(next.1);
      WindowAfterRead(Items.Contents, src);
      Items.AddLast(next.0);
      OnItemsChanged();
      CurrentLineNumber := Some(CurrentLineNumber.value + 1);
    }

    /** Clears the buffer, drops the old reader, then reads up to MaxLines lines. */
    method Open(source: seq<string>)
      requires Valid()
      modifies this, Items, Items.items
      ensures Valid() && Items.items == old(Items.items)
      ensures var m := Min(|source|, MaxLines);
        && Items.Contents == source[..m]
        && CurrentLineNumber == Some(m)
        && reader == Some(LineSource(source, m))
      ensures CurrentStartLineNumber() == Some(1)
      ensures old(Items.Count) > 0 || |source| > 0 ==> matches == None && matchIndex == 0
      ensures old(Items.Count) == 0 && |source| == 0 ==>
        matches == old(matches) && matchIndex == old(matchIndex) && Text == old(Text)
    {
      var hadItems := Items.Count > 0;
      Items.Clear();
      if hadItems {
        OnItemsChanged();
      }
      Dispose();
      reader := Some(LineSource(source, 0));
      CurrentLineNumber := Some(0);
      ReadFirstLines();
    }

    /** The reading loop of Open: from a fresh reader and an empty buffer,
        reads until MaxLines lines are buffered or the stream ends. */
    method ReadFirstLines()
      requires Items.Valid() && Items.items.Length == MaxLines && Items.Contents == []
      requires reader.Some? && reader.value.position == 0 && CurrentLineNumber == Some(0)
      requires Text == Join(Items.Contents) && CursorValid()
      modifies this, Items, Items.items
      ensures Items.Valid() && Items.items == old(Items.items)
      ensures var src := old(reader).value; var m := Min(|src.lines|, MaxLines);
        && Items.Contents == src.lines[..m]
        && CurrentLineNumber == Some(m)
        && reader == Some(LineSource(src.lines, m))
      ensures IsWindowOf(Items.Contents, reader.value)
      ensures Text == Join(Items.Contents) && CursorValid()
      ensures |old(reader).value.lines| > 0 ==> matches == None && matchIndex == 0
      ensures |old(reader).value.lines| == 0 ==>
        matches == old(matches) && matchIndex == old(matchIndex) && Text == old(Text)
    {
      ghost var source := reader.value.lines;
      while CurrentLineNumber.value < MaxLines
        invariant reader.Some? && reader.value.lines == source
        invariant Items.Valid() && Items.items == old(Items.items)
        invariant IsWindowOf(Items.Contents, reader.value) && |Items.Contents| == reader.value.position
        invariant CurrentLineNumber == Some(reader.value.position) && reader.value.position <= MaxLines
        invariant Text == Join(Items.Contents) && CursorValid()
        invariant reader.value.position > 0 ==> matches == None && matchIndex == 0
        invariant reader.value.position == 0 ==>
          matches == old(matches) && matchIndex == old(matchIndex) && Text == old(Text)
        decreases MaxLines - CurrentLineNumber.value
      {
        if reader.value.EndOfStream() {
          break;
        }
        ReadLineIntoItems();
      }
      LastLinesIsSlice(source, reader.value.position, reader.value.position);
    }

    /** Reads up to `count` further lines, stopping at the end of the stream;
        nothing happens without an open reader. */
    method ReadNext(count: int)
      requires Valid()
      modifies this, Items, Items.items
      ensures Valid() && Items.items == old(Items.items)
      ensures old(reader).None? ==>
        && Items.Contents == old(Items.Contents) && Text == old(Text)
        && reader == old(reader) && CurrentLineNumber == old(CurrentLineNumber)
        && matches == old(matches) && matchIndex == old(matchIndex)
      ensures old(reader).Some? ==>
        var src := old(reader).value;
        var j := Min(if count < 0 then 0 else count, |src.lines| - src.position);
        && reader == Some(LineSource(src.lines, src.position + j))
        && CurrentLineNumber == Some(src.position + j)
        && Items.Count == Min(old(Items.Count) + j, MaxLines)
        && (j > 0 ==> matches == None && matchIndex == 0)
        && (j == 0 ==> matches == old(matches) && matchIndex == old(matchIndex) && Text == old(Text))
      ensures old(reader).Some? && old(Items.Count) == MaxLines ==>
        Items.Count == MaxLines && CurrentStartLineNumber().value
          == old(CurrentStartLineNumber()).value + (CurrentLineNumber.value - old(CurrentLineNumber).value)
    {
      if reader.None? {
        return;
      }
      ghost var L := reader.value.lines;
      ghost var p0 := reader.value.position;
      ghost var c0 := |Items.Contents|;
      var i := 0;
      while i < count
        invariant 0 <= i && (count >= 0 ==> i <= count) && (count < 0 ==> i == 0)
        invariant reader == Some(LineSource(L, p0 + i)) && CurrentLineNumber == Some(p0 + i)
        invariant Items.Valid() && Items.items == old(Items.items)
        invariant IsWindowOf(Items.Contents, reader.value) && |Items.Contents| == Min(c0 + i, MaxLines)
        invariant Text == Join(Items.Contents) && CursorValid()
        invariant i > 0 ==> matches == None && matchIndex == 0
        invariant i == 0 ==> matches == old(matches) && matchIndex == old(matchIndex) && Text == old(Text)
      {
        if reader.value.EndOfStream() {
          break;
        }
        ReadLineIntoItems();
        i := i + 1;
      }
    }

    /** Drops the reader and the stream; the buffer, Text, the line number and
        the search cursor stay as they are. */
    method Dispose()
      requires Valid()
      modifies this
      ensures Valid() && reader == None && !EndOfFile()
      ensures Text == old(Text) && CurrentLineNumber == old(CurrentLineNumber)
      ensures matches == old(matches) && matchIndex == old(matchIndex)
    {
      reader := None;
    }

    /** The next match of the held list, or the first match of a fresh scan
        of the whole Text; see SearchStep. */
    method Search(pattern: Option<string>) returns (r: Option<Span>)
      requires Valid()
      modifies this
      ensures Valid()
      ensures (Cursor(matches, matchIndex), r)
        == SearchStep(reader.Some?, pattern, Text, Cursor(old(matches), old(matchIndex)), engine)
      ensures Text == old(Text) && reader == old(reader) && CurrentLineNumber == old(CurrentLineNumber)
    {
      if reader.Some? && pattern.Some? {
        if matches.Some? {
          if matchIndex < |matches.value| - 1 {
            matchIndex := matchIndex + 1;
            return Some(matches.value[matchIndex]);
          }
        } else {
          var found := engine.matches(pattern.value, Text, 0);
          matches := Some(found);
          scanPattern, scanStart := pattern.value, 0;
          if |found| > 0 {
            matchIndex := 0;
            return Some(found[0]);
          }
        }
      }
      matches := None;
      matchIndex := 0;
      return None;
    }

    /** The reading loop of ReadAndSearch: lines from `src` go into `clone`
        until one matches the pattern on its own or the stream ends. */
    method ScanAhead(clone: ObservableDeque<string>, src: LineSource, pattern: string)
      returns (next: LineSource, matched: bool)
      requires clone.Valid() && clone.items.Length == MaxLines && IsWindowOf(clone.Contents, src)
      modifies clone, clone.items
      ensures var k := FirstMatchingLine(engine, pattern, src.lines, src.position);
        var stop := if k < |src.lines| then k + 1 else k;
        && (matched <==> k < |src.lines|)
        && next == LineSource(src.lines, stop)
        && clone.Valid() && clone.items == old(clone.items)
        && IsWindowOf(clone.Contents, next)
        && |clone.Contents| == Min(old(|clone.Contents|) + (stop - src.position), MaxLines)
    {
      ghost var c0 := |clone.Contents|;
      next := src;
      matched := false;
      while !next.EndOfStream()
        invariant next.lines == src.lines && src.position <= next.position
        invariant clone.Valid() && clone.items == old(clone.items)
        invariant IsWindowOf(clone.Contents, next)
        invariant |clone.Contents| == Min(c0 + (next.position - src.position), MaxLines)
        invariant forall i :: src.position <= i < next.position ==> !engine.isMatch(pattern, src.lines[i])
        decreases |src.lines| - next.position
      {
        ghost var pos := next.position;
        WindowAfterRead(clone.Contents, next);
        var read := next.ReadLine();
        next := read.1;
        clone.AddLast(read.0);
        assert next == LineSource(src.lines, pos + 1);
        var newest := clone.Item(clone.Count - 1);
        assert newest == src.lines[pos];
        if engine.isMatch(pattern, newest) {
          matched := true;
          FirstMatchingLineUnique(engine, pattern, src.lines, src.position, pos);
          return;
        }
      }
      FirstMatchingLineUnique(engine, pattern, src.lines, src.position, |src.lines|);
    }

    /** The first half of ReadAndSearch: reads into a clone of Items until a
        line matches on its own or the stream ends, then commits the clone to
        Items, which raises CollectionChanged. */
    method ReadIntoClone(pattern: string) returns (matched: bool)
      requires Valid() && reader.Some?
      modifies this, Items
      ensures Valid() && fresh(Items.items)
      ensures var src := old(reader).value;
        var k := FirstMatchingLine(engine, pattern, src.lines, src.position);
        var stop := if k < |src.lines| then k + 1 else k;
        && (matched <==> k < |src.lines|)
        && reader == Some(LineSource(src.lines, stop))
        && CurrentLineNumber == Some(stop)
        && Items.Count == Min(old(Items.Count) + (stop - src.position), MaxLines)
        && (matched ==> Items.Count > 0 && Items.Contents[Items.Count - 1] == src.lines[k])
      ensures matches == None && matchIndex == 0
    {
      var clone := Items.Clone();
      var next;
      next, matched := ScanAhead(clone, reader.value, pattern);
      reader, CurrentLineNumber := Some(next), Some(next.position);
      Items.CopyFrom(clone);
      OnItemsChanged();
    }

    /** The second half of ReadAndSearch when the line read last before the
        call is still buffered: a new match list, scanned from the first
        occurrence of the newest line's content. */
    method Reanchor(pattern: string) returns (r: Outcome)
      requires Valid() && Items.Count > 0
      modifies this
      ensures Valid()
      ensures Text == old(Text) && reader == old(reader) && CurrentLineNumber == old(CurrentLineNumber)
      ensures var at := IndexOf(Text, Items.Contents[Items.Count - 1]);
        && 0 <= at <= LineStart(Items.Contents, Items.Count - 1)
        && matches == Some(engine.matches(pattern, Text, at)) && matchIndex == 0
        && r == (if |matches.value| > 0 then Found(matches.value[0]) else IndexOutOfRange)
    {
      var lines := Items.Enumerate();
      AnchorAtOrBeforeNewestLine(lines);
      var at := IndexOf(Text, lines[|lines| - 1]);
      var found := engine.matches(pattern, Text, at);
      matches := Some(found);
      scanPattern, scanStart := pattern, at;
      matchIndex := 0;
      if |found| == 0 {
        return IndexOutOfRange;
      }
      return Found(found[0]);
    }

    /** Reads lines into a copy of the buffer until a line matches on its own
        or the stream ends, commits the copy, and reports a match. */
    method ReadAndSearch(pattern: Option<string>) returns (r: Outcome)
      requires Valid()
      modifies this, Items
      ensures Valid()
      ensures old(reader).None? || pattern.None? ==>
        && r == NotFound && matches == None && matchIndex == 0
        && Items.Contents == old(Items.Contents) && Text == old(Text)
        && reader == old(reader) && CurrentLineNumber == old(CurrentLineNumber)
      ensures old(reader).Some? && pattern.Some? ==>
        var src := old(reader).value;
        var k := FirstMatchingLine(engine, pattern.value, src.lines, src.position);
        var stop := if k < |src.lines| then k + 1 else k;
        && reader == Some(LineSource(src.lines, stop))
        && CurrentLineNumber == Some(stop)
        && Items.Count == Min(old(Items.Count) + (stop - src.position), MaxLines)
        // no line matched: the lines read are kept, the cursor is cleared
        && (k == |src.lines| ==> r == NotFound && matches == None && matchIndex == 0)
        // a line matched and the line read last before the call has been
        // evicted: a fresh Search
        && (k < |src.lines| && src.position < stop - Items.Count + 1 ==>
              var step := SearchStep(true, pattern, Text, Cleared, engine);
              Cursor(matches, matchIndex) == step.0 && r == FromMatch(step.1))
        // a line matched: it is the newest line buffered
        && (k < |src.lines| ==> Items.Count > 0 && Items.Contents[Items.Count - 1] == src.lines[k])
        // a line matched and the line read last before the call is still
        // buffered: scan from the first occurrence of the newest line's content
        && (k < |src.lines| && src.position >= stop - Items.Count + 1 ==>
              var at := IndexOf(Text, Items.Contents[Items.Count - 1]);
              && 0 <= at <= LineStart(Items.Contents, Items.Count - 1)
              && matches == Some(engine.matches(pattern.value, Text, at)) && matchIndex == 0
              && r == (if |matches.value| > 0 then Found(matches.value[0]) else IndexOutOfRange))
    {
      if reader.None? || pattern.None? {
        matches := None;
        matchIndex := 0;
        return NotFound;
      }
      var readLineNumber := CurrentLineNumber.value;
      var matched := ReadIntoClone(pattern.value);
      if !matched {
        return NotFound;
      }
      r := SearchAfterRead(pattern.value, readLineNumber);
    }

    /** The second half of ReadAndSearch once a line has matched: a fresh
        Search when the line read last before the call (`readLineNumber`) has
        been evicted, otherwise a scan re-anchored at the newest line. */
    method SearchAfterRead(pattern: string, readLineNumber: int) returns (r: Outcome)
      requires Valid() && reader.Some? && Items.Count > 0 && matches == None && matchIndex == 0
      modifies this
      ensures Valid()
      ensures Text == old(Text) && reader == old(reader) && CurrentLineNumber == old(CurrentLineNumber)
      ensures readLineNumber < reader.value.position - Items.Count + 1 ==>
        var step := SearchStep(true, Some(pattern), Text, Cleared, engine);
        Cursor(matches, matchIndex) == step.0 && r == FromMatch(step.1)
      ensures readLineNumber >= reader.value.position - Items.Count + 1 ==>
        var at := IndexOf(Text, Items.Contents[Items.Count - 1]);
        && 0 <= at <= LineStart(Items.Contents, Items.Count - 1)
        && matches == Some(engine.matches(pattern, Text, at)) && matchIndex == 0
        && r == (if |matches.value| > 0 then Found(matches.value[0]) else IndexOutOfRange)
    {
      var start := CurrentStartLineNumber();
      if readLineNumber < start.value {
        ghost var step := SearchStep(true, Some(pattern), Text, Cleared, engine);
        var found := Search(Some(pattern));
        assert Cursor(matches, matchIndex) == step.0 && found == step.1;
        return FromMatch(found);
      }
      r := Reanchor(pattern);
    }
  }
}
