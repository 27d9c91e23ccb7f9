# JumpToLine, modelled in Dafny

`JumpToLine` (package `com.kolich.common.util.io`) is a forward-only line
cursor. It wraps a byte stream in a line iterator and keeps a counter,
`lastLineRead_`. It can skip forward to a line number (`seek(line)`), skip
again by the counter (`seek()`), read the next line (`readLine()`), ask
whether a line is left (`hasNext()`), read the counter
(`getLastLineRead()`) and release the stream (`close()`).

The model has two modules:

- `CursorSpec` (`cursor_spec.dfy`) states the cursor as a value. A
  `Cursor` holds the lines the iterator has not yet delivered and the
  counter. `SkipLoop` follows the discarding loop of `seek` one iteration
  per call. `SeekStep` and `ReadLineStep` give the new cursor and the
  outcome of `seek(line)` and `readLine()`. `ReadLines` repeats
  `readLine()` n times, and `Drain` reads while `hasNext()` holds. The
  lemmas give closed forms for these functions and prove the class's
  promised behaviour from them.
- `Io` (`jump_to_line.dfy`) holds the class `JumpToLine`. Its fields are
  `remaining` (the iterator, as the sequence of lines still to come),
  `lastLineRead` and `closed`. `Seek` keeps the source's `while` loop.
  Each state-changing method ties its new state and result to the
  `CursorSpec` function for that operation.

Both Java failures are `NoSuchElementException`. The model tells them
apart: `OutOfRange` is the one `seek` throws, and `NoSuchElement` is the
one the iterator throws from `readLine`.

What the code does, and the model with it:

- `seek(k)` counts from where the iterator is now, not from the start of
  the stream. It discards `k - 1` lines.
- `seek(k)` with `k <= 1` discards nothing and returns 1. This includes
  zero and negative `k`.
- A failed `seek` has used up every remaining line, so `hasNext()` is then
  false.
- `seek()` with counter `n` discards `n - 1` more lines. On a fresh
  cursor, after `k` reads it discards `k` more (`SeekAgainAfterReads`).
  It does not stay on the current line.

Three consequences of the code are worth stating on their own:

- **The counter can go down.** `seek(2)` with the counter at 5 sets it to
  2 (`SeekLands`). The counter does stay at 1 or above: the class
  invariant `Valid()` says so, and `CounterStaysPositive` proves it on
  values.
- **A seek can use up the stream.** Over `"a"`, `"b"`, `"c"`, `readLine()`
  gives `"a"`. Then `seek(3)` discards `"b"` and `"c"`, so the next
  `readLine()` fails and `hasNext()` is false (`ThreeLineWalk`,
  `Io.ThreeLineClient`).
- **Seek then read gives line `k`.** On a fresh cursor, `readLine()` after
  `seek(k)` gives the element at index `k - 1`, and the counter becomes
  `k + 1` (`SeekThenReadLine`).

The Javadoc of `seek()` (JumpToLine.java:81-83) says it "seeks to the last
line read". As the code is written, it discards further lines from the
current position instead (`SeekAgainAfterReads`). The model keeps the
code's behaviour.

## Model

| member | source | states |
|---|---|---|
| Io.JumpToLine.constructor | src/main/java/com/kolich/common/util/io/JumpToLine.java:55-66 | a new cursor has consumed no lines, its counter is 1 (so `Valid()` holds) and it is not closed |
| Io.JumpToLine.Seek | src/main/java/com/kolich/common/util/io/JumpToLine.java:92-107 | the discarding loop yields exactly `SeekStep` of the old state. It succeeds iff `line <= remaining + 1`. On success it returns `max(line, 1)`, which is also the new counter, and drops that many minus one lines from the front. On failure the result is `OutOfRange`, every line is used up and the counter is unchanged. `closed` is untouched |
| Io.JumpToLine.SeekAgain | src/main/java/com/kolich/common/util/io/JumpToLine.java:84-86 | `seek()` is `seek` with the counter `n` as argument, counted from the current position. With at least `n - 1` lines left it drops exactly `n - 1` of them, returns `n` and keeps the counter. Otherwise `OutOfRange`, with nothing left and the counter kept. `Valid()` is preserved |
| Io.JumpToLine.Close | src/main/java/com/kolich/common/util/io/JumpToLine.java:113-116 | sets the closed flag from any state, so a second call is allowed; lines and counter are unchanged |
| Io.JumpToLine.HasNext | src/main/java/com/kolich/common/util/io/JumpToLine.java:123-125 | true iff a line is left; changes nothing |
| Io.JumpToLine.ReadLine | src/main/java/com/kolich/common/util/io/JumpToLine.java:131-142 | with a line left: returns the first line, removes it and raises the counter by exactly 1. With none: `NoSuchElement`, and lines and counter are unchanged |
| Io.JumpToLine.GetLastLineRead | src/main/java/com/kolich/common/util/io/JumpToLine.java:144-146 | returns the counter, which is at least 1 on a valid cursor; changes nothing |
| CursorSpec.Discards | src/main/java/com/kolich/common/util/io/JumpToLine.java:93-97 | the number of lines the loop drops: none when `line <= lineCount`, otherwise either every available line or just enough to bring `lineCount` to `line` |
| CursorSpec.SkipLoop | src/main/java/com/kolich/common/util/io/JumpToLine.java:93-97 | one loop iteration per call. The final `lineCount` is the start plus the number of lines dropped, and the loop stops with lines still left only once `lineCount >= line` |
| CursorSpec.SeekStep | src/main/java/com/kolich/common/util/io/JumpToLine.java:92-107 | `seek(line)` on a value. A success returns the new counter, which is at least 1 and at least `line`. A failure is `OutOfRange` with nothing left and the counter kept |
| CursorSpec.ReadLineStep | src/main/java/com/kolich/common/util/io/JumpToLine.java:131-142 | `readLine()` on a value. It succeeds iff a line is left. A success returns a line that, put back in front of the new remainder, gives the old remainder, and adds 1 to the counter. A failure is `NoSuchElement` and changes nothing |
| CursorSpec.ReadLines | src/main/java/com/kolich/common/util/io/JumpToLine.java:131-142 | `n` calls of `readLine()` give `n` outcomes. The lines left never grow, and the counter rises by exactly the number of lines consumed |
| CursorSpec.Drain | src/main/java/com/kolich/common/util/io/JumpToLine.java:123-142 | reading while `hasNext()` holds receives as many lines as were left and ends with none left |
| CursorSpec.CounterStaysPositive | src/main/java/com/kolich/common/util/io/JumpToLine.java:92-142 | from a counter of at least 1, no outcome of `seek` or `readLine` takes it below 1 |
| CursorSpec.SkipLoopClosedForm | src/main/java/com/kolich/common/util/io/JumpToLine.java:93-97 | the loop drops exactly `min(line - lineCount, available)` lines from the front (0 when `line <= lineCount`) and adds that number to `lineCount` |
| CursorSpec.SeekAtOrBelowOne | src/main/java/com/kolich/common/util/io/JumpToLine.java:92-106 | `seek(line)` with `line <= 1` consumes nothing, returns 1 and sets the counter to 1 |
| CursorSpec.SeekLands | src/main/java/com/kolich/common/util/io/JumpToLine.java:93-106 | with `1 <= line <= remaining + 1`: `seek(line)` drops exactly `line - 1` lines from the front and keeps the rest in order. It returns `line` and sets the counter to `line`, whatever it was before |
| CursorSpec.SeekOutOfRange | src/main/java/com/kolich/common/util/io/JumpToLine.java:94-104 | with fewer than `line - 1` lines left: `OutOfRange`, every line is used up and the counter is unchanged |
| CursorSpec.SeekOutcomes | src/main/java/com/kolich/common/util/io/JumpToLine.java:92-107 | for every line number: success iff `line <= remaining + 1`. A success returns the new counter (at least 1). A failure is `OutOfRange` and keeps the counter. What is left is always a suffix of what was left |
| CursorSpec.SeekAgainDropsCounterMinusOne | src/main/java/com/kolich/common/util/io/JumpToLine.java:84-86 | `seek()` with counter `n >= 1` drops a further `n - 1` lines and keeps the counter. It fails (`OutOfRange`, all lines used up) when fewer are left |
| CursorSpec.ReadLinesInOrder | src/main/java/com/kolich/common/util/io/JumpToLine.java:131-142 | `n` calls of `readLine()` deliver the remaining lines in order, one each, and count each one. Every call after the lines run out fails with `NoSuchElement` and changes nothing |
| CursorSpec.DrainDeliversEveryLine | src/main/java/com/kolich/common/util/io/JumpToLine.java:123-142 | reading while `hasNext()` holds delivers every remaining line exactly once, in order. It ends with no lines left and the counter raised by their number |
| CursorSpec.SeekThenReadLine | src/main/java/com/kolich/common/util/io/JumpToLine.java:92-142 | on a fresh cursor, `seek(k)` for `1 <= k <= N` returns `k`. The next `readLine()` gives the element at index `k - 1` and sets the counter to `k + 1` |
| CursorSpec.SeekAgainAfterReads | src/main/java/com/kolich/common/util/io/JumpToLine.java:84-142 | on a fresh cursor, after `k` reads the counter is `k + 1`. `seek()` then lands only while `2k` lines exist, leaving the lines from index `2k` on. Otherwise it fails with `OutOfRange` |
| CursorSpec.ThreeLineWalk | src/main/java/com/kolich/common/util/io/JumpToLine.java:92-142 | over "a", "b", "c": `readLine()` gives "a" with counter 2. `seek(3)` discards "b" and "c" and returns 3. The next `readLine()` fails |
| CursorSpec.OneLineSeekPastEnd | src/main/java/com/kolich/common/util/io/JumpToLine.java:92-107 | over one line: `seek(5)` fails with `OutOfRange`, the counter stays 1 and nothing is left |

## Left out

- Decoding bytes and splitting them into lines is done by Apache Commons
  IO's `IOUtils.lineIterator`, a library that is not part of this model.
  The constructor takes the list of decoded lines, with the line
  terminators removed.
- The constructors that open a `FileInputStream`, the charset name and the
  UTF-8 default are I/O plumbing. So is the `IOException` path of the
  constructor, which closes the stream and rethrows.
- Io.JumpToLine.Close: releasing the stream and the iterator through
  `closeQuietly` is a foreign call. The model only sets a flag.
- Behaviour after `close()` depends on the line iterator's internals and
  the source does not guard against it. The model's other operations
  ignore the flag and keep acting on the remaining lines.
- The counter and `lineCount` are Java `long`s. The model uses unbounded
  integers, so 64-bit overflow is not modelled.
- The `it_ != null` test in the loop of `seek` is left out. `it_` is final
  and is always set once a constructor returns normally, so the test never
  fails on a constructed object.
- The field initialiser `lastLineRead_ = -1L` is left out. Every
  constructor overwrites it with 1 before the object can be used.
