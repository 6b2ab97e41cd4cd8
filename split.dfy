/** `into_chunks` of src/split.rs: cut the buffer into at most `n` contiguous
    pieces, each one ending just after a '\n' except possibly the last. */
module Split {
  import opened Bytes
  import LineIterator

  /** Where the chunk that begins at `start` ends: `chunkSize` bytes on, then
      just past the next '\n' from there, or at the end of the input. */
  function CutAfter(input: seq<byte>, start: nat, chunkSize: nat): (end: nat)
    requires start < |input|
    ensures start < end <= |input|
    ensures end < |input| ==> input[end - 1] == NEWLINE
    ensures end == |input| || end >= start + chunkSize + 1
  {
    var from := Min(start + chunkSize, |input|);
    match IndexOf(input[from..], NEWLINE)
    case Some(off) => from + off + 1
    case None => |input|
  }

  /** The chunks cut from `start` on: one per loop iteration of `into_chunks`,
      stopping once a cut lands at or after the last byte. */
  function ChunksFrom(input: seq<byte>, chunkSize: nat, start: nat): seq<seq<byte>>
    requires start < |input|
    decreases |input| - start
  {
    var end := CutAfter(input, start, chunkSize);
    if end >= |input| - 1 then [input[start..end]]
    else [input[start..end]] + ChunksFrom(input, chunkSize, end)
  }

  /** What `into_chunks(input, n)` returns. */
  function Chunks(input: seq<byte>, n: nat): seq<seq<byte>>
  {
    if |input| == 0 || n == 0 then [] else ChunksFrom(input, |input| / n, 0)
  }

  /** `into_chunks`: the loop of src/split.rs over `start` and `end`. */
  method IntoChunks(input: seq<byte>, n: nat) returns (chunks: seq<seq<byte>>)
    ensures chunks == Chunks(input, n)
  {
    chunks := [];
    var start: nat := 0;
    if |input| == 0 || n == 0 {
      return;
    }
    var chunkSize: nat := |input| / n;
    while start < |input|
      invariant start <= |input|
      invariant chunks + (if start < |input| then ChunksFrom(input, chunkSize, start) else [])
                == Chunks(input, n)
      decreases |input| - start
    {
      var end := CutAfter(input, start, chunkSize);
      ChunksFromPush(input, chunkSize, start, chunks);
      chunks := chunks + [input[start..end]];
      if end >= |input| - 1 {
        break;
      }
      start := end;
    }
  }

  /** Pushing the chunk that begins at `start` leaves the chunks after it to
      be cut, or none when its end reaches the last byte. */
  lemma ChunksFromPush(input: seq<byte>, chunkSize: nat, start: nat, done: seq<seq<byte>>)
    requires start < |input|
    ensures var end := CutAfter(input, start, chunkSize);
      done + ChunksFrom(input, chunkSize, start)
      == done + [input[start..end]] + (if end < |input| - 1 then ChunksFrom(input, chunkSize, end) else [])
  {
    var end := CutAfter(input, start, chunkSize);
    ChunksFromStep(input, chunkSize, start);
    if end < |input| - 1 {
      assert done + ([input[start..end]] + ChunksFrom(input, chunkSize, end))
          == done + [input[start..end]] + ChunksFrom(input, chunkSize, end);
    }
  }

  /** Every chunk holds at least one byte. */
  ghost predicate NonEmpty(c: seq<seq<byte>>)
  {
    forall i :: 0 <= i < |c| ==> |c[i]| >= 1
  }

  /** Every chunk but the last ends with '\n' and holds more than `size` bytes. */
  ghost predicate CutAtNewlines(c: seq<seq<byte>>, size: nat)
  {
    forall i :: 0 <= i < |c| - 1 ==> |c[i]| >= size + 1 && c[i][|c[i]| - 1] == NEWLINE
  }

  /** The chunks laid end to end from `start` are the input from `start` up
      to its end, or up to one byte short of it when that byte follows a '\n'. */
  ghost predicate CoversFrom(input: seq<byte>, start: nat, c: seq<seq<byte>>)
  {
    var covered := start + |Concat(c)|;
    && covered <= |input|
    && Concat(c) == input[start..covered]
    && (covered == |input| || (covered == |input| - 1 && |input| >= 2 && input[|input| - 2] == NEWLINE))
  }

  lemma ChunksFromStep(input: seq<byte>, chunkSize: nat, start: nat)
    requires start < |input|
    ensures var end := CutAfter(input, start, chunkSize);
      ChunksFrom(input, chunkSize, start)
      == if end >= |input| - 1 then [input[start..end]]
         else [input[start..end]] + ChunksFrom(input, chunkSize, end)
  {
  }

  lemma ConcatCons(x: seq<byte>, rest: seq<seq<byte>>)
    ensures Concat([x] + rest) == x + Concat(rest)
  {
    assert ([x] + rest)[1..] == rest;
  }

  /** The chunks cut from `start` are contiguous from `start` and reach the
      end of the input, or one byte short of it when that byte follows a '\n'. */
  lemma {:induction false} ChunksFromCover(input: seq<byte>, chunkSize: nat, start: nat)
    requires start < |input|
    ensures CoversFrom(input, start, ChunksFrom(input, chunkSize, start))
    decreases |input| - start
  {
    var end := CutAfter(input, start, chunkSize);
    var first := input[start..end];
    ChunksFromStep(input, chunkSize, start);
    if end >= |input| - 1 {
      ConcatCons(first, []);
      assert first + [] == first;
    } else {
      ChunksFromCover(input, chunkSize, end);
      CoversCons(input, start, end, ChunksFrom(input, chunkSize, end));
    }
  }

  /** A chunk from `start` to `end` in front of chunks covering from `end`. */
  lemma CoversCons(input: seq<byte>, start: nat, end: nat, rest: seq<seq<byte>>)
    requires start <= end <= |input|
    requires CoversFrom(input, end, rest)
    ensures CoversFrom(input, start, [input[start..end]] + rest)
  {
    var first := input[start..end];
    ConcatCons(first, rest);
    var covered := end + |Concat(rest)|;
    assert input[start..covered] == first + input[end..covered];
  }

  /** The chunks cut from `start` are non-empty, and all but the last end
      just after a '\n' more than `chunkSize` bytes after their start. */
  lemma {:induction false} ChunksFromCuts(input: seq<byte>, chunkSize: nat, start: nat)
    requires start < |input|
    ensures var c := ChunksFrom(input, chunkSize, start);
      |c| >= 1 && NonEmpty(c) && CutAtNewlines(c, chunkSize)
    decreases |input| - start
  {
    var end := CutAfter(input, start, chunkSize);
    ChunksFromStep(input, chunkSize, start);
    if end < |input| - 1 {
      ChunksFromCuts(input, chunkSize, end);
      CutsCons(input, start, end, ChunksFrom(input, chunkSize, end), chunkSize);
    } else {
      CutsOne(input[start..end], chunkSize);
    }
  }

  lemma CutsOne(x: seq<byte>, size: nat)
    requires |x| >= 1
    ensures NonEmpty([x]) && CutAtNewlines([x], size)
  {
  }

  /** The chunk from `start` to just after the '\n' at `end - 1`, longer than
      `size`, in front of well-cut chunks. */
  lemma CutsCons(input: seq<byte>, start: nat, end: nat, rest: seq<seq<byte>>, size: nat)
    requires start + size + 1 <= end <= |input| && input[end - 1] == NEWLINE
    requires |rest| >= 1 && NonEmpty(rest) && CutAtNewlines(rest, size)
    ensures NonEmpty([input[start..end]] + rest) && CutAtNewlines([input[start..end]] + rest, size)
  {
    var first := input[start..end];
    assert |first| == end - start && first[|first| - 1] == input[end - 1];
    var c := [first] + rest;
    forall i | 0 <= i < |c|
      ensures |c[i]| >= 1
      ensures i < |c| - 1 ==> |c[i]| >= size + 1 && c[i][|c[i]| - 1] == NEWLINE
    {
      if i > 0 {
        assert c[i] == rest[i - 1];
      }
    }
  }

  /** The last chunk is non-empty and ends with '\n', or the chunks laid end to
      end from `start` reach `len`. */
  ghost predicate LastEnds(c: seq<seq<byte>>, start: nat, len: nat)
  {
    |c| >= 1 && |c[|c| - 1]| >= 1
    && (c[|c| - 1][|c[|c| - 1]| - 1] == NEWLINE || start + |Concat(c)| == len)
  }

  /** The last chunk cut from `start` ends with '\n' or at the end of the input. */
  lemma {:induction false} ChunksFromLast(input: seq<byte>, chunkSize: nat, start: nat)
    requires start < |input|
    ensures LastEnds(ChunksFrom(input, chunkSize, start), start, |input|)
    decreases |input| - start
  {
    var end := CutAfter(input, start, chunkSize);
    var first := input[start..end];
    ChunksFromStep(input, chunkSize, start);
    if end >= |input| - 1 {
      LastEndsCons(first, [], start, |input|);
    } else {
      ChunksFromLast(input, chunkSize, end);
      LastEndsCons(first, ChunksFrom(input, chunkSize, end), start, |input|);
    }
  }

  /** A chunk in front of chunks whose last one ends well, or on its own when
      it ends with '\n' or reaches `len`. */
  lemma LastEndsCons(first: seq<byte>, rest: seq<seq<byte>>, start: nat, len: nat)
    requires |first| >= 1
    requires rest == [] ==> first[|first| - 1] == NEWLINE || start + |first| == len
    requires rest != [] ==> LastEnds(rest, start + |first|, len)
    ensures LastEnds([first] + rest, start, len)
  {
    ConcatCons(first, rest);
    var c := [first] + rest;
    if rest != [] {
      assert c[|c| - 1] == rest[|rest| - 1];
    }
  }

  /** Everything `into_chunks` promises about its result (src/split.rs:13-41):
      nothing for an empty input or `n == 0`; otherwise non-empty chunks,
      contiguous from offset 0, covering the input except possibly a last byte
      that follows a '\n', every chunk but the last ending in '\n' and longer
      than `len / n`, and a last chunk that ends in '\n' or at the end of the input. */
  lemma ChunksShape(input: seq<byte>, n: nat)
    ensures var c := Chunks(input, n);
      && (|input| == 0 || n == 0 <==> c == [])
      && NonEmpty(c)
      && (n > 0 ==> CoversFrom(input, 0, c))
      && (n > 0 ==> CutAtNewlines(c, |input| / n))
      && (|c| > 0 ==> LastEnds(c, 0, |input|))
  {
    ChunksEmpty(input, n);
    if n > 0 {
      ChunksCover(input, n);
    }
    ChunksCut(input, n);
    ChunksLast(input, n);
  }

  lemma ChunksEmpty(input: seq<byte>, n: nat)
    ensures |input| == 0 || n == 0 <==> Chunks(input, n) == []
  {
    if |input| > 0 && n > 0 {
      ChunksFromCuts(input, |input| / n, 0);
    }
  }

  lemma ChunksCover(input: seq<byte>, n: nat)
    requires n > 0
    ensures CoversFrom(input, 0, Chunks(input, n))
  {
    if |input| > 0 {
      ChunksFromCover(input, |input| / n, 0);
    } else {
      assert Concat([]) == input[0..0];
    }
  }

  lemma ChunksCut(input: seq<byte>, n: nat)
    ensures NonEmpty(Chunks(input, n))
    ensures n > 0 ==> CutAtNewlines(Chunks(input, n), |input| / n)
  {
    if |input| > 0 && n > 0 {
      ChunksFromCuts(input, |input| / n, 0);
    }
  }

  lemma ChunksLast(input: seq<byte>, n: nat)
    ensures |Chunks(input, n)| > 0 ==> LastEnds(Chunks(input, n), 0, |input|)
  {
    if |input| > 0 && n > 0 {
      ChunksFromLast(input, |input| / n, 0);
    }
  }

  /** The only byte that can be left uncovered is the last one, and only when
      the byte before it is a '\n': a last line of two or more bytes is always
      covered. */
  lemma ChunksCoverWhenLastLineLong(input: seq<byte>, n: nat)
    requires n > 0
    requires |input| >= 2 && input[|input| - 2] != NEWLINE
    ensures Concat(Chunks(input, n)) == input
  {
    ChunksShape(input, n);
    assert CoversFrom(input, 0, Chunks(input, n));
    assert input[0..|input|] == input;
  }

  /** The single-byte line after the last '\n' is dropped when the cut before
      it lands at `len - 1`: "a\nb" with n = 2 gives only "a\n". */
  lemma LastByteDropped()
    ensures Chunks([0x61, NEWLINE, 0x62], 2) == [[0x61, NEWLINE]]
  {
    var input: seq<byte> := [0x61, NEWLINE, 0x62];
    assert |input| / 2 == 1;
    assert input[1..][0] == NEWLINE;
    IndexOfFirst(input[1..], NEWLINE, 0);
    assert CutAfter(input, 0, 1) == 2;
    ChunksFromStep(input, 1, 0);
    assert input[0..2] == [0x61, NEWLINE];
  }

  lemma {:induction false} ConcatLengthLower(c: seq<seq<byte>>, m: nat)
    requires |c| >= 1 && NonEmpty(c) && CutAtNewlines(c, m)
    ensures |Concat(c)| >= (|c| - 1) * (m + 1) + 1
  {
    if |c| > 1 {
      CutsTail(c, m);
      ConcatLengthLower(c[1..], m);
      Distribute(|c| - 2, m + 1);
    }
  }

  /** Dropping the first chunk keeps the rest well cut. */
  lemma CutsTail(c: seq<seq<byte>>, m: nat)
    requires |c| >= 1 && NonEmpty(c) && CutAtNewlines(c, m)
    ensures NonEmpty(c[1..]) && CutAtNewlines(c[1..], m)
  {
    assert forall i :: 0 <= i < |c| - 1 ==> c[1..][i] == c[i + 1];
  }

  /** Arithmetic step of `ConcatLengthLower`, its only user. */
  lemma Distribute(k: nat, m: nat)
    ensures (k + 1) * m == k * m + m
  {
  }

  /** Arithmetic step of `PiecesBound`, its only user. */
  lemma MulMonotone(a: nat, b: nat, m: nat)
    requires a <= b
    ensures a * m <= b * m
  {
  }

  /** `k` pieces, all but the last longer than `len / n`, fit in `len` bytes
      only if `k <= n`. */
  lemma PiecesBound(len: nat, n: nat, k: nat)
    requires n > 0 && k >= 1
    requires (k - 1) * (len / n + 1) + 1 <= len
    ensures k <= n
  {
    var size := len / n;
    assert n * (size + 1) == n * size + n;
    assert len == n * size + len % n;
    if k > n {
      MulMonotone(n, k - 1, size + 1);
      assert false;
    }
  }

  /** Never more than `n` chunks: each one before the last is longer than
      `len / n` (src/split.rs:21-27). */
  lemma ChunkCountBound(input: seq<byte>, n: nat)
    ensures |Chunks(input, n)| <= n
  {
    var c := Chunks(input, n);
    if |c| > 0 {
      ChunksShape(input, n);
      assert CoversFrom(input, 0, c);
      ConcatLengthLower(c, |input| / n);
      PiecesBound(|input|, n, |c|);
    }
  }

  lemma {:induction false} NewlinesInConcat(c: seq<seq<byte>>)
    requires NonEmpty(c) && CutAtNewlines(c, 0)
    ensures |c| > 0 ==> Count(Concat(c), NEWLINE) >= |c| - 1
  {
    if |c| > 1 {
      NewlinesInConcat(c[1..]);
      assert forall i :: 0 <= i < |c| - 1 ==> c[1..][i] == c[i + 1];
      var head := c[0];
      assert head == head[..|head| - 1] + [NEWLINE];
      CountAppend(head[..|head| - 1], [NEWLINE], NEWLINE);
      CountAppend(head, Concat(c[1..]), NEWLINE);
    }
  }

  lemma {:induction false} CountPrefix(s: seq<byte>, k: nat, b: byte)
    requires k <= |s|
    ensures Count(s[..k], b) <= Count(s, b)
  {
    assert s == s[..k] + s[k..];
    CountAppend(s[..k], s[k..], b);
  }

  /** Fewer chunks come back when there are fewer lines: at most one more
      chunk than there are '\n' bytes (src/split.rs:83-88). */
  lemma ChunkCountByLines(input: seq<byte>, n: nat)
    ensures |Chunks(input, n)| <= Count(input, NEWLINE) + 1
  {
    var c := Chunks(input, n);
    ChunksShape(input, n);
    if n > 0 {
      assert CoversFrom(input, 0, c);
      assert CutAtNewlines(c, |input| / n);
      NewlinesInConcat(c);
      CountPrefix(input, |Concat(c)|, NEWLINE);
    }
  }

  /** Every line of the input that the chunks cover is a line of exactly one
      chunk, in order: the chunks' lines concatenated are the covered
      prefix's lines. */
  lemma {:induction false} LinesOfChunks(c: seq<seq<byte>>)
    requires CutAtNewlines(c, 0)
    ensures LineIterator.Lines(Concat(c)) == LinesOfEach(c)
  {
    if |c| > 0 {
      assert forall i :: 0 <= i < |c| - 2 ==> c[1..][i] == c[i + 1];
      LinesOfChunks(c[1..]);
      if |c| > 1 {
        LineIterator.LinesAppend(c[0], Concat(c[1..]));
      } else {
        assert Concat(c) == c[0] + [];
        assert c[0] + [] == c[0];
      }
    }
  }

  /** The lines of each chunk, one chunk after the other. */
  function LinesOfEach(c: seq<seq<byte>>): seq<seq<byte>>
  {
    if |c| == 0 then [] else LineIterator.Lines(c[0]) + LinesOfEach(c[1..])
  }
}
