/** The line iterator `Rows` of src/lib.rs: a cursor over a byte buffer that
    yields one line per call with its '\n' stripped; the last line need not
    be terminated. */
module LineIterator {
  import opened Bytes

  /** The lines of `s` in order, as the iterator yields them from a cursor at 0. */
  function Lines(s: seq<byte>): seq<seq<byte>>
    decreases |s|
  {
    if |s| == 0 then []
    else match IndexOf(s, NEWLINE)
      case Some(i) => [s[..i]] + Lines(s[i + 1..])
      case None => [s]
  }

  /** One step of the iterator: the first line, then the lines after its '\n'. */
  lemma {:induction false} LinesStep(s: seq<byte>, i: nat)
    requires IndexOf(s, NEWLINE) == Some(i)
    ensures Lines(s) == [s[..i]] + Lines(s[i + 1..])
    ensures s == s[..i] + [NEWLINE] + s[i + 1..]
  {
    assert |s| > 0;
    SplitAt(s, i);
  }

  lemma LinesNonEmpty(s: seq<byte>)
    requires |s| > 0
    ensures |Lines(s)| > 0
  {
  }

  /** `s` ends with a line terminator. */
  predicate EndsWithNewline(s: seq<byte>)
  {
    |s| > 0 && s[|s| - 1] == NEWLINE
  }

  /** No line contains the terminator. */
  lemma {:induction false} LinesHaveNoNewline(s: seq<byte>)
    ensures forall k :: 0 <= k < |Lines(s)| ==> NEWLINE !in Lines(s)[k]
    decreases |s|
  {
    if |s| > 0 {
      match IndexOf(s, NEWLINE)
      case Some(i) => LinesHaveNoNewline(s[i + 1..]);
      case None =>
    }
  }

  /** Joining the lines with '\n' rebuilds the input, minus one final '\n' if it
      has one: no empty trailing line is produced for a terminated input. */
  lemma {:induction false} LinesJoin(s: seq<byte>)
    ensures Join(Lines(s), [NEWLINE]) + (if EndsWithNewline(s) then [NEWLINE] else []) == s
    decreases |s|
  {
    if |s| > 0 {
      match IndexOf(s, NEWLINE)
      case None =>
      case Some(i) =>
        var line, rest := s[..i], s[i + 1..];
        LinesJoin(rest);
        LinesStep(s, i);
        if |rest| > 0 {
          LinesNonEmpty(rest);
          JoinLine(line, Lines(rest), rest);
        }
    }
  }

  /** One more line in front: its '\n' goes between it and the rest. */
  lemma JoinLine(line: seq<byte>, lines: seq<seq<byte>>, rest: seq<byte>)
    requires |lines| > 0 && |rest| > 0
    requires Join(lines, [NEWLINE]) + (if EndsWithNewline(rest) then [NEWLINE] else []) == rest
    ensures var s := line + [NEWLINE] + rest;
      Join([line] + lines, [NEWLINE]) + (if EndsWithNewline(s) then [NEWLINE] else []) == s
  {
    var s := line + [NEWLINE] + rest;
    assert EndsWithNewline(s) == EndsWithNewline(rest);
    JoinCons(line, lines, [NEWLINE]);
    var joined := Join(lines, [NEWLINE]);
    var tail: seq<byte> := if EndsWithNewline(rest) then [NEWLINE] else [];
    assert (line + [NEWLINE] + joined) + tail == line + [NEWLINE] + (joined + tail);
  }

  /** One line per terminator, plus one for an unterminated tail. */
  lemma {:induction false} LinesCount(s: seq<byte>)
    ensures |Lines(s)| == Count(s, NEWLINE) + (if |s| > 0 && !EndsWithNewline(s) then 1 else 0)
    decreases |s|
  {
    if |s| > 0 {
      match IndexOf(s, NEWLINE)
      case None =>
        CountAbsent(s, NEWLINE);
      case Some(i) =>
        var rest := s[i + 1..];
        LinesCount(rest);
        LinesStep(s, i);
        CountLine(s[..i], rest);
        if |rest| > 0 {
          assert EndsWithNewline(s) == EndsWithNewline(rest);
        }
    }
  }

  /** A line and its terminator add one '\n' to the count. */
  lemma CountLine(line: seq<byte>, rest: seq<byte>)
    requires NEWLINE !in line
    ensures Count(line + [NEWLINE] + rest, NEWLINE) == 1 + Count(rest, NEWLINE)
  {
    CountAppend(line + [NEWLINE], rest, NEWLINE);
    CountAppend(line, [NEWLINE], NEWLINE);
    CountAbsent(line, NEWLINE);
    assert Count([NEWLINE], NEWLINE) == 1;
  }

  /** The lines of a concatenation split after a terminator are the lines of
      each part. */
  lemma {:induction false} LinesAppend(a: seq<byte>, b: seq<byte>)
    requires |a| == 0 || EndsWithNewline(a)
    ensures Lines(a + b) == Lines(a) + Lines(b)
    decreases |a|
  {
    if |a| == 0 {
      assert a + b == b;
    } else {
      match IndexOf(a, NEWLINE)
      case None =>
        assert false;
      case Some(i) =>
        assert (a + b)[..i] == a[..i];
        IndexOfFirst(a + b, NEWLINE, i);
        assert (a + b)[i + 1..] == a[i + 1..] + b;
        LinesAppend(a[i + 1..], b);
    }
  }

  /** `Rows`: the buffer and the cursor `start` that `next` advances. */
  class Rows {
    const input: seq<byte>
    var start: nat

    /** `Rows::new`: a cursor at the beginning of `input`. */
    constructor (input: seq<byte>)
      ensures this.input == input && start == 0
      ensures Remaining() == Lines(input)
    {
      this.input := input;
      start := 0;
    }

    /** The lines still to come. */
    ghost function Remaining(): seq<seq<byte>>
      reads this
    {
      if start >= |input| then [] else Lines(input[start..])
    }

    /** `Rows::next`: the next line without its '\n', or None once the cursor
        has reached the end of the buffer. */
    method Next() returns (line: Option<seq<byte>>)
      modifies this
      ensures old(start) >= |input| ==> line == None && start == old(start)
      ensures old(start) < |input| ==> line.Some? && old(start) < start <= |input|
      ensures line.Some? ==> NEWLINE !in line.value
      ensures old(Remaining()) == (if line.None? then [] else [line.value] + Remaining())
    {
      if start >= |input| {
        return None;
      }
      var rest := input[start..];
      match IndexOf(rest, NEWLINE)
      case Some(end) =>
        LinesStep(rest, end);
        line := Some(rest[..end]);
        start := start + end + 1;
        assert rest[end + 1..] == input[start..];
        assert start == |input| ==> Lines(input[start..]) == [];
      case None =>
        line := Some(rest);
        start := |input|;
    }
  }
}
