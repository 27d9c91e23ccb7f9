/** JumpToLine: a forward-only line cursor over a decoded text stream.
    The line iterator it owns is the sequence `remaining` of lines it has
    not yet delivered; every call that advances the iterator drops the
    first of them. */
module Io {
  import opened CursorSpec

  class JumpToLine {
    /** The lines the iterator has yet to deliver, in order. */
    var remaining: seq<string>
    /** The counter `lastLineRead_`. */
    var lastLineRead: int
    /** Whether `close()` has been called. */
    var closed: bool

    /** The counter is 1-based: it starts at 1, `seek` stores at least 1
        and `readLine` adds 1. */
    predicate Valid()
      reads this
    {
      lastLineRead >= 1
    }

    /** The cursor this object holds, as a value. */
    function Model(): Cursor
      reads this
    {
      Cursor(remaining, lastLineRead)
    }

    /** Wraps a stream already split into `lines`: nothing consumed yet,
        counter 1. */
    constructor (lines: seq<string>)
      ensures Valid() && Model() == Open(lines)
      ensures remaining == lines && lastLineRead == 1 && !closed
    {
      remaining := lines;
      lastLineRead := 1;
      closed := false;
    }

    /** `seek(line)`: discards lines while any are left and fewer than
        `line` have been counted (the count starts at 1), then fails with
        `OutOfRange` if the count fell short, or stores the count in the
        counter and returns it. */
    method Seek(line: int) returns (r: Result<int>)
      requires Valid()
      modifies this
      ensures Valid()
      ensures (Model(), r) == SeekStep(old(Model()), line)
      ensures r.Ok? <==> line <= |old(remaining)| + 1
      ensures r.Ok? ==> r.value == lastLineRead == (if line <= 1 then 1 else line)
                        && remaining == old(remaining)[lastLineRead - 1..]
      ensures r.Err? ==> r.error == OutOfRange && remaining == [] && lastLineRead == old(lastLineRead)
      ensures closed == old(closed)
    {
      ghost var before := Model();
      var lineCount := 1;
      while remaining != [] && lineCount < line
        invariant SkipLoop(remaining, lineCount, line) == SkipLoop(before.remaining, 1, line)
        invariant lineCount >= 1
        invariant lastLineRead == before.lastLineRead && closed == old(closed)
        decreases |remaining|
      {
        remaining := remaining[1..];
        lineCount := lineCount + 1;
      }
      if line <= 1 {
        SeekAtOrBelowOne(before, line);
      } else if line <= |before.remaining| + 1 {
        SeekLands(before, line);
      } else {
        SeekOutOfRange(before, line);
      }
      if lineCount < line {
        return Err(OutOfRange);
      }
      lastLineRead := lineCount;
      return Ok(lineCount);
    }

    /** `seek()`: `seek` with the counter as the line number, counted from
        where the iterator stands now. */
    method SeekAgain() returns (r: Result<int>)
      requires Valid()
      modifies this
      ensures Valid()
      ensures (Model(), r) == SeekStep(old(Model()), old(lastLineRead))
      ensures old(lastLineRead) - 1 <= |old(remaining)| ==>
                r == Ok(old(lastLineRead)) && lastLineRead == old(lastLineRead)
                && remaining == old(remaining)[old(lastLineRead) - 1..]
      ensures old(lastLineRead) - 1 > |old(remaining)| ==>
                r == Err(OutOfRange) && lastLineRead == old(lastLineRead) && remaining == []
      ensures closed == old(closed)
    {
      SeekAgainDropsCounterMinusOne(Model());
      r := Seek(lastLineRead);
    }

    /** `close()`: releases the stream; never fails and may be repeated.
        The lines and the counter are left as they are. */
    method Close()
      requires Valid()
      modifies this
      ensures Valid() && closed
      ensures remaining == old(remaining) && lastLineRead == old(lastLineRead)
    {
      closed := true;
    }

    /** `hasNext()`: whether a line is left. */
    method HasNext() returns (b: bool)
      ensures b <==> remaining != []
    {
      b := remaining != [];
    }

    /** `readLine()`: delivers the next line and counts it; with no line
        left it fails with `NoSuchElement` and changes nothing. */
    method ReadLine() returns (r: Result<string>)
      requires Valid()
      modifies this
      ensures Valid()
      ensures (Model(), r) == ReadLineStep(old(Model()))
      ensures old(remaining) != [] ==>
                r == Ok(old(remaining)[0]) && remaining == old(remaining)[1..]
                && lastLineRead == old(lastLineRead) + 1
      ensures old(remaining) == [] ==>
                r == Err(NoSuchElement) && remaining == old(remaining) && lastLineRead == old(lastLineRead)
      ensures closed == old(closed)
    {
      if remaining == [] {
        return Err(NoSuchElement);
      }
      r := Ok(remaining[0]);
      remaining := remaining[1..];
      lastLineRead := lastLineRead + 1;
    }

    /** `getLastLineRead()`: the counter. */
    method GetLastLineRead() returns (n: int)
      requires Valid()
      ensures n == lastLineRead && n >= 1
    {
      n := lastLineRead;
    }
  }

  /** What a caller can conclude from the contracts alone, over the three
      lines "a", "b", "c". */
  method ThreeLineClient()
  {
    var j := new JumpToLine(["a", "b", "c"]);
    var more := j.HasNext();
    assert more;
    var line := j.ReadLine();
    assert line == Ok("a");
    var n := j.GetLastLineRead();
    assert n == 2;
    var landed := j.Seek(3);
    assert landed == Ok(3);
    more := j.HasNext();
    assert !more;
    line := j.ReadLine();
    assert line == Err(NoSuchElement);
    n := j.GetLastLineRead();
    assert n == 3;
    j.Close();
    j.Close();
    assert j.closed;
  }
}
