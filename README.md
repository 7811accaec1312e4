# Lazy line reader: the line window and its search

Lazy Line Reader is a desktop viewer for very large text files. It never
loads a whole file. It keeps a window of at most 20 consecutive lines in a
fixed-capacity circular buffer, shows those lines joined as one text, and
searches that text with a regular expression. It can also read further down
the file until a single line matches, then search again.

This project models that core and proves properties of it:

- `wrappers.dfy` (module `Wrappers`): `Option`, which stands for the C#
  nullable values.
- `ring_spec.dfy` (module `RingSpec`): what the circular buffers mean.
  - `PushBack` appends one element and `PushAll` appends a run of them; both
    drop the oldest element once the buffer is at capacity. `LastN` and
    `LastLines` give the same results as suffixes and windows of a sequence.
  - The notifications the buffers raise.
  - The modular arithmetic of array slots.
- `observable_deque.dfy` (module `ObservableDeques`): the class
  `ObservableDeque`. It holds an array, an unbounded `offset` and `Count`. The offset is
  never reduced modulo the capacity: AddLast increments it at capacity,
  AddFirst decrements it at capacity, Clear resets it to 0, and CopyFrom
  adopts another buffer's.
  Ghost fields give the logical contents and the notifications raised so far.
- `deque.dfy` (module `Deques`): the class `Deque`. It is the same buffer with
  a private `count` field behind the read-only `Count`.
- `text.dfy` (module `TextJoin`): the window text. Every line is followed by
  `"\r\n"` (StringBuilder.AppendLine on Windows). Ordinal `IndexOf` is
  included, and lemmas locate each line inside the text.
- `matching.dfy` (module `Matching`): the search cursor as pure functions.
  - The regular-expression engine is a pair of uninterpreted functions:
    `isMatch` for one line and `matches` for a text and a start offset.
  - `SearchStep` is one call of Search and `SearchRun` is k calls in a row.
  - `FirstMatchingLine` is where ReadAndSearch stops reading.
- `window.dfy` (module `Window`): the class `MainWindowModel`.
  - The open stream and its reader are one `LineSource` value: the lines and
    how many have been read.
  - Its invariant: Text is always the joined buffer, and a held match list
    belongs to the current Text. While a reader is open, the buffer is the
    window of consecutive lines ending at the last line read, and
    CurrentLineNumber counts the lines read.

## Model

| member | source | states |
|---|---|---|
| ObservableDeques.ObservableDeque.constructor | src/ObservableDeque.cs:9-12 | an empty buffer over a fresh array of the given capacity, offset 0, no notifications |
| ObservableDeques.ObservableDeque.Item | src/ObservableDeque.cs:14 | the indexer returns the element at logical position `index`, oldest first |
| ObservableDeques.ObservableDeque.Enumerate | src/ObservableDeque.cs:20-24 | enumeration yields exactly the logical contents, oldest first |
| ObservableDeques.ObservableDeque.AddLast | src/ObservableDeque.cs:26-43 | the contents become PushBack(old contents, item): appended, and at capacity the oldest is dropped; Count grows only below capacity, and offset grows by one only at capacity; the notifications are Remove(oldest, 0) at capacity or Count changed below it, then Item[] and Add(item, Count - 1); the slot invariant is kept |
| ObservableDeques.ObservableDeque.AddFirst | src/ObservableDeque.cs:45-62 | as written: offset and Count change as AddFirstFields says; at capacity it is a prepend that evicts the newest element (Remove at Count - 1), and offset steps back; below capacity Count grows, offset stays, the old elements keep their positions, and the new last position shows whatever its slot held |
| ObservableDeques.ObservableDeque.AddFirstCorrected | src/ObservableDeque.cs:45-62 | the intended prepend: the contents become PushFront(old contents, item) with the item at index 0, in both cases |
| ObservableDeques.AddFirstMisplacesItem | src/ObservableDeque.cs:45-62 | on a buffer of capacity 3 holding "p", AddFirst("x") leaves "p" at index 0 with Count 2 |
| ObservableDeques.AddFirstCorrectedPrepends | src/ObservableDeque.cs:45-62 | the same calls with the corrected prepend leave "x" at index 0 |
| ObservableDeques.CSharpSlot | src/ObservableDeque.cs:14 | C#'s truncating `%` gives the model's slot for a non-negative sum, and a slot at or below zero for a negative one |
| ObservableDeques.AddFirstFields | src/ObservableDeque.cs:50-59 | the field update of AddFirst on an int offset: at capacity (and only then) the offset drops by one with no wrap-around; Count never exceeds the capacity |
| ObservableDeques.AddFirstOffsetGoesNegative | src/ObservableDeque.cs:47-59 | for every capacity n >= 2, AddFirst on a full buffer with offset 0 leaves offset -1, and the indexer then computes slot -1 for index 0; the corrected prepend puts index 0 in slot n - 1 |
| ObservableDeques.FullWithOffsetZeroReachable | src/ObservableDeque.cs:26-43 | AddLast("a"), AddLast("b") on a new buffer of capacity 2 leave it full with offset 0, the state from which the as-written AddFirst takes offset to -1 |
| ObservableDeques.ObservableDeque.Clear | src/ObservableDeque.cs:64-77 | empty and offset 0, every slot overwritten with the same value; Count, Item[] and Reset are raised only if the buffer was not empty |
| ObservableDeques.ObservableDeque.Clone | src/ObservableDeque.cs:79-88 | a fresh buffer with fresh storage of the same capacity and the same contents, laid out from slot 0 |
| ObservableDeques.ObservableDeque.CopyFrom | src/ObservableDeque.cs:90-99 | adopts the other buffer's array (shared, not copied), offset, Count and contents; raises Count, Item[] and Reset |
| ObservableDeques.ObservableDeque.CopyTo | src/ObservableDeque.cs:114-118 | the target holds the contents from `arrayIndex` on, and is unchanged before and after that range |
| ObservableDeques.ObservableDeque.Contains | src/ObservableDeque.cs:120-128 | true exactly when the item is among the contents |
| ObservableDeques.ObservableDeque.Add | src/ObservableDeque.cs:130 | the same contents, Count, offset and notifications as AddLast |
| ObservableDeques.ObservableDeque.Remove | src/ObservableDeque.cs:132 | always reports failure |
| Deques.Deque.constructor | src/Deque.cs:13-16 | an empty buffer over a fresh array of the given capacity |
| Deques.Deque.Count | src/Deque.cs:20 | the read-only Count is the number of elements held |
| Deques.Deque.Item | src/Deque.cs:18 | the element at logical position `index` |
| Deques.Deque.Enumerate | src/Deque.cs:24-28 | enumeration yields exactly the contents, oldest first |
| Deques.Deque.AddLast | src/Deque.cs:30-47 | the contents become PushBack(old contents, item); count grows only below capacity and offset grows by one only at capacity; the same notifications as ObservableDeque.AddLast |
| Deques.Deque.AddFirst | src/Deque.cs:49-66 | as written, with the same behaviour as ObservableDeque.AddFirst |
| Deques.Deque.Clear | src/Deque.cs:68-81 | empty, offset 0, every slot overwritten with one value; notifications only if it was not empty |
| Deques.Deque.Clone | src/Deque.cs:83-92 | a fresh compacted copy with the same capacity and contents |
| Deques.Deque.CopyFrom | src/Deque.cs:94-103 | adopts the other buffer's array, offset, count and contents; raises Count, Item[] and Reset |
| Deques.Deque.CopyTo | src/Deque.cs:124-128 | the target holds the contents from `arrayIndex` on; the rest of it is unchanged |
| Deques.Deque.Contains | src/Deque.cs:130-138 | true exactly when the item is among the contents |
| Deques.Deque.Add | src/Deque.cs:140 | the same contents, count, offset and notifications as AddLast |
| Deques.Deque.Remove | src/Deque.cs:142 | always reports failure |
| RingSpec.PushBack | src/ObservableDeque.cs:26-43 | one append yields min(n + 1, capacity) elements, the new one last |
| RingSpec.PushAll | src/ObservableDeque.cs:26-43 | k appends yield min(n + k, capacity) elements |
| RingSpec.PushBackLastN | src/ObservableDeque.cs:26-43 | appending to the last `capacity` elements of u gives the last `capacity` elements of u + [x] |
| RingSpec.PushAllIsLastN | src/ObservableDeque.cs:26-43 | after appending xs to a buffer holding s, it holds the last `capacity` elements of s + xs, oldest first |
| RingSpec.PushAllFromEmpty | src/ObservableDeque.cs:26-43 | after k appends to an empty buffer, it holds the last min(k, capacity) values pushed, oldest first |
| RingSpec.WindowAdvance | src/MainWindowModel.cs:100-107 | a window of consecutive lines extended by the following lines is the window of consecutive lines ending at the new end |
| RingSpec.LastLinesIsSlice | src/MainWindowModel.cs:85-91 | the window of n lines ending at `end` is the slice lines[end - n..end] |
| RingSpec.WindowStep | src/MainWindowModel.cs:100-107 | appending the next line to the window of the last c lines gives the window of the last min(c + 1, capacity) lines |
| RingSpec.SlotWrap | src/ObservableDeque.cs:28-33 | at capacity, the slot of position Count is the slot of position 0, the oldest element's |
| RingSpec.SlotsDistinct | src/ObservableDeque.cs:14 | distinct positions below the capacity live in distinct slots, whatever the offset |
| RingSpec.SlotShiftBack | src/ObservableDeque.cs:45-62 | moving the offset back one slot, with wrap-around, moves each position up by one and away from the newest element's slot |
| TextJoin.JoinConcat | src/MainWindowModel.cs:20-28 | the text of a concatenation of line lists is the concatenation of their texts |
| TextJoin.JoinFirstPrefix | src/MainWindowModel.cs:20-28 | the text of the first n lines is a prefix of the text of the first m lines when n <= m |
| TextJoin.JoinFirstAgree | src/MainWindowModel.cs:20-28 | the text of the first n lines depends only on those lines |
| TextJoin.JoinLineAt | src/MainWindowModel.cs:20-28 | line i occurs in the text at its start offset, followed by the terminator, and the next line starts right after the terminator |
| TextJoin.IndexOfFrom | src/MainWindowModel.cs:181 | the first offset at or after `from` where the value occurs, or -1 when it occurs nowhere after `from` |
| TextJoin.IndexOf | src/MainWindowModel.cs:181 | ordinal IndexOf: -1 exactly when the value occurs nowhere; otherwise an occurrence with none before it |
| TextJoin.AnchorAtOrBeforeNewestLine | src/MainWindowModel.cs:181 | the first occurrence of the newest line's content exists and is at or before that line's own start; it is that start exactly when the content occurs nowhere earlier |
| TextJoin.AnchorCanPrecedeNewestLine | src/MainWindowModel.cs:181 | with lines "xbar" and "bar", the newest line starts at offset 6, but the re-anchored scan starts at offset 1 |
| Matching.SearchRun | src/MainWindowModel.cs:119-146 | the results of k consecutive Search calls with the same arguments, one per call, and the cursor they leave; what those results are is proved by SearchDrainsHeld and SearchVisitsEveryMatchOnce |
| Matching.SearchIgnoresPatternWhileHolding | src/MainWindowModel.cs:123-129 | while a held list has a further entry, Search returns that entry whatever pattern and text it is given |
| Matching.SearchDrainsHeld | src/MainWindowModel.cs:123-146 | from entry i of a held list, the calls return the remaining entries in order, then one null, and the cursor ends up cleared |
| Matching.SearchVisitsEveryMatchOnce | src/MainWindowModel.cs:119-146 | starting from a cleared cursor, n + 1 calls return all n matches in order and then null without wrapping; the next call starts over at the first match |
| Matching.SearchRunSplit | src/MainWindowModel.cs:119-146 | k + m calls are k calls followed by m calls from where the first k left off |
| Matching.FirstMatchingLine | src/MainWindowModel.cs:162-172 | the first line at or after `from` that matches on its own, or the end: no line before it matches, and it matches unless it is the end |
| Matching.FirstMatchingLineUnique | src/MainWindowModel.cs:162-172 | any line number with those two properties is FirstMatchingLine |
| Window.WindowAfterRead | src/MainWindowModel.cs:105 | appending the line just read to the window keeps it the window ending at the last line read, with min(n + 1, 20) lines |
| Window.MainWindowModel.constructor | src/MainWindowModel.cs:18-29 | an empty buffer of capacity 20, empty Text, no line number, no reader, no held matches |
| Window.MainWindowModel.CurrentStartLineNumber | src/MainWindowModel.cs:53 | null exactly when CurrentLineNumber is null; with a reader it is the 1-based number of the oldest buffered line, at least 1, and the oldest buffered element is that line of the file |
| Window.MainWindowModel.EndOfFile | src/MainWindowModel.cs:55 | true only with an open reader at the end of its stream, and then CurrentLineNumber is the number of lines in the file |
| Window.MainWindowModel.OnItemsChanged | src/MainWindowModel.cs:20-28 | the CollectionChanged handler: Text becomes the joined buffer, and assigning Text drops the held match list (lines 61-72) |
| Window.MainWindowModel.ReadLineIntoItems | src/MainWindowModel.cs:100-107 | one loop step: the next line is appended, the window still ends at the last line read, Text follows, and the line number advances |
| Window.MainWindowModel.Open | src/MainWindowModel.cs:77-93 | the buffer holds the first min(n, 20) lines, the line number and reader are at that line, the start line is 1; the cursor is cleared unless neither the old buffer nor the file had a line |
| Window.MainWindowModel.ReadFirstLines | src/MainWindowModel.cs:85-91 | from an empty buffer, reads until 20 lines are buffered or the stream ends, and the buffer is that prefix of the file |
| Window.MainWindowModel.ReadNext | src/MainWindowModel.cs:95-108 | without a reader nothing changes; otherwise min(count, lines left) lines are read, the buffer stays the window ending at the last line read, and its size is min(old + read, 20); a full buffer advances its start line by the number of lines read; the cursor is cleared exactly when something was read |
| Window.MainWindowModel.Dispose | src/MainWindowModel.cs:110-117 | the reader is dropped, so EndOfFile is false; the buffer, Text, line number and cursor are kept |
| Window.MainWindowModel.Search | src/MainWindowModel.cs:119-146 | the new cursor and the result are exactly SearchStep of the old cursor; Text, reader and line number are unchanged |
| Window.MainWindowModel.ScanAhead | src/MainWindowModel.cs:162-172 | reads into the clone up to and including FirstMatchingLine; it reports a match exactly when a line matched, and the clone is the window ending at the last line read |
| Window.MainWindowModel.ReadIntoClone | src/MainWindowModel.cs:157-174 | after committing the clone, the reader and line number are just past the matching line (or at the end), Count is min(old + read, 20), the matching line is the newest element, and the cursor is cleared |
| Window.MainWindowModel.Reanchor | src/MainWindowModel.cs:181-183 | the new match list is the scan of Text from the first occurrence of the newest line's content; the result is its first match, or the out-of-range error when it is empty |
| Window.MainWindowModel.SearchAfterRead | src/MainWindowModel.cs:176-183 | a fresh Search when the line read last before the call has left the window; otherwise Reanchor |
| Window.MainWindowModel.ReadAndSearch | src/MainWindowModel.cs:148-191 | no reader or no pattern: clears and returns null; otherwise it reads to the first matching line; with no match it returns null and clears the cursor; with a match that line is the newest buffered, followed by a fresh Search or a re-anchored scan depending on whether the previously read line is still buffered |

## Left out

- ObservableDeques.ObservableDeque.Item: requires `index < Count`. The C#
  indexer returns whatever the slot holds beyond Count, and C#'s truncating
  `%` gives a negative slot for a negative index.
- Deques.Deque.Item: requires `index < count`, for the same reason as
  ObservableDeque.Item.
- ObservableDeques.ObservableDeque.AddFirst: requires `offset >= 1` when the
  buffer is full. In C#, offset 0 goes to -1 there, and the indexer then
  computes negative slots (see Findings; AddFirstFields and
  AddFirstOffsetGoesNegative show that path on an int offset).
- Deques.Deque.AddFirst: requires `offset >= 1` when the buffer is full, for
  the same reason as ObservableDeque.AddFirst.
- ObservableDeques.ObservableDeque.AddLast: the offset is an unbounded `nat`.
  In C# it is an `int` that grows by one on every eviction; after about 2^31
  evictions `Count + offset` overflows and AddLast and the indexer compute a
  negative slot. The same holds for Deques.Deque.AddLast.
- ObservableDeques.ObservableDeque.AddLast: requires a capacity above 0. With
  capacity 0 the C# `%` divides by zero. The same holds for AddFirst, Add and
  the Deque versions.
- ObservableDeques.ObservableDeque.Clear: `Array.Clear` writes `default(T)`.
  The model only states that every slot receives the same value.
- Deques.Deque.Clear: as for ObservableDeque.Clear, the value written into
  every slot is not pinned down to `default(T)`.
- ObservableDeques.ObservableDeque.CopyTo: requires room in the target and a
  target other than the buffer's own array. C# throws part-way when the room
  runs out.
- Deques.Deque.CopyTo: requires room in the target and a target other than
  the buffer's own array, as ObservableDeque.CopyTo does.
- Events: the buffers' notifications are recorded in the ghost field
  `Events`. MainWindowModel's own PropertyChanged notifications (FilePath,
  CurrentLineNumber, CurrentStartLineNumber, EndOfFile, Text, Encoding) are
  not modelled.
- Window.MainWindowModel.ReadAndSearch: states the final state only. In C#
  each `CurrentLineNumber++` of the reading loop (line 165) raises
  PropertyChanged for CurrentLineNumber, CurrentStartLineNumber and
  EndOfFile, so observers see every intermediate line number while Items
  still holds the old lines. The model does not state those intermediate
  states or notifications, nor the clone's own notifications. The buffer
  after ReadNext and ReadAndSearch is stated as the window of consecutive
  lines (`IsWindowOf`); RingSpec.WindowAdvance and RingSpec.PushAllIsLastN
  tie that to runs of `PushBack`.
- Window.MainWindowModel.ReadAndSearch: malformed patterns are not modelled.
  C#'s Regex constructor (CreateRegex, lines 281-284) throws
  ArgumentException on a malformed pattern, so ReadAndSearch throws at line
  157 before reading anything, and Search throws at line 133 when it holds no
  match list. The model treats every pattern as well formed: it reads and
  commits lines, and Search scans.
- I/O: the Stream and StreamReader become the value `LineSource`, whose
  ReadLine returns the next line and advances by one. Encoding detection,
  FilePath, closing streams and I/O errors are not modelled. Lines are
  assumed to be given already split.
- Regular expressions: the engine (IgnoreCase, Singleline) is uninterpreted.
  Every property holds for any engine.
- `long` overflow of CurrentLineNumber: integers are unbounded.
- Text offsets (`Span.index`, `IndexOf`, `LineStart`) count Dafny `char`s,
  that is Unicode scalar values. C#'s `Match.Index` and `String.IndexOf`
  count UTF-16 code units, so for text outside the Basic Multilingual Plane
  the Span handed to the view differs. Every offset only goes back into the
  uninterpreted engine, so no stated property depends on this.
- SearchAsync and ReadAndSearchAsync: not modelled. They do not repeat Search
  and ReadAndSearch. Both throw ArgumentNullException on a null pattern
  (lines 195, 230), where the synchronous versions clear and return null.
  ReadAndSearchAsync clones Items and copies CurrentLineNumber before its
  task runs (lines 233-234). It commits the line number together with the
  clone on the UI context (lines 264-265). On a match it always calls a
  fresh Search (line 269) and never re-anchors. Tasks, cancellation and the
  synchronisation context are outside this model.
- App.xaml.cs and MainWindow.xaml.cs (the WPF front end) are not part of this
  model.
- The line terminator is fixed to `"\r\n"`, Environment.NewLine on the
  Windows desktop this viewer targets.

## Behaviour of the code worth noting

- An empty search pattern is not special: only a null pattern clears the
  cursor, and an empty one is handed to the regular-expression engine like
  any other.
- Search checks the current reader, not whether a file was ever opened.
  After Dispose it clears and returns null.
- The re-anchored scan starts at the first occurrence of the newest line's
  content anywhere in Text. That can be earlier than the newest line itself
  (TextJoin.AnchorCanPrecedeNewestLine).

## Findings

| source | as written | input that shows it | evidently intended | confidence | as-written member | corrected member |
|---|---|---|---|---|---|---|
| src/ObservableDeque.cs:45-62 | for capacity >= 2, below capacity AddFirst writes the item into the slot before `offset` but leaves `offset` unchanged, so the item is not at index 0 | capacity 3, AddLast("p"), AddFirst("x"): index 0 is still "p" | the item becomes the oldest element (a prepend) | high, not executed | ObservableDeques.AddFirstMisplacesItem | ObservableDeques.ObservableDeque.AddFirstCorrected |
| src/ObservableDeque.cs:47-59 | at capacity with offset 0, `offset--` makes offset -1, and the indexer's `(index + offset) % Length` is then negative | capacity 2, AddLast("a"), AddLast("b") (reachable: FullWithOffsetZeroReachable), AddFirst("c"), then this[0]: slot -1 | offset wraps to Length - 1 | high, not executed | ObservableDeques.AddFirstOffsetGoesNegative | ObservableDeques.ObservableDeque.AddFirstCorrected |
