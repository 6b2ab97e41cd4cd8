/** The examples of src/split.rs:47-88, worked through the model of
    `into_chunks`. */
module SplitVectors {
  import opened Bytes
  import opened Split

  const R: byte := 0x52
  const O: byte := 0x6F
  const W: byte := 0x77

  /** "RowK\n" for a digit K. */
  function Row(k: byte): seq<byte>
  {
    [R, O, W, 0x30 + k, NEWLINE]
  }

  /** A cut whose search starts at `from` and meets its first '\n' at `nl`. */
  lemma CutAt(input: seq<byte>, start: nat, size: nat, nl: nat)
    requires start < |input|
    requires Min(start + size, |input|) <= nl < |input| && input[nl] == NEWLINE
    requires NEWLINE !in input[Min(start + size, |input|)..nl]
    ensures CutAfter(input, start, size) == nl + 1
  {
    var from := Min(start + size, |input|);
    assert input[from..][nl - from] == NEWLINE;
    assert input[from..][..nl - from] == input[from..nl];
    IndexOfFirst(input[from..], NEWLINE, nl - from);
  }

  /** A cut whose search finds no '\n' before the end. */
  lemma CutAtEnd(input: seq<byte>, start: nat, size: nat)
    requires start < |input|
    requires NEWLINE !in input[Min(start + size, |input|)..]
    ensures CutAfter(input, start, size) == |input|
  {
  }

  lemma Empty()
    ensures Chunks([], 2) == []
  {
  }

  lemma OneNewline()
    ensures Chunks([NEWLINE], 2) == [[NEWLINE]]
    ensures Chunks([NEWLINE], 1) == [[NEWLINE]]
  {
    var input: seq<byte> := [NEWLINE];
    CutAt(input, 0, 0, 0);
    ChunksFromStep(input, 0, 0);
    CutAtEnd(input, 0, 1);
    ChunksFromStep(input, 1, 0);
    assert input[0..1] == input;
  }

  /** "Kunming;19.8": no '\n' at all, so one chunk holds everything. */
  lemma NoNewline()
    ensures var input: seq<byte> := [0x4B, 0x75, 0x6E, 0x6D, 0x69, 0x6E, 0x67, SEMICOLON, 0x31, 0x39, 0x2E, 0x38];
      Chunks(input, 2) == [input]
  {
    var input: seq<byte> := [0x4B, 0x75, 0x6E, 0x6D, 0x69, 0x6E, 0x67, SEMICOLON, 0x31, 0x39, 0x2E, 0x38];
    assert input[6..] == [0x67, SEMICOLON, 0x31, 0x39, 0x2E, 0x38];
    CutAtEnd(input, 0, 6);
    ChunksFromStep(input, 6, 0);
    assert input[0..12] == input;
  }

  lemma EvenlyDivisible()
    ensures Chunks(Row(1) + Row(2) + Row(3) + Row(4), 2) == [Row(1) + Row(2) + Row(3), Row(4)]
  {
    var input := Row(1) + Row(2) + Row(3) + Row(4);
    assert |input| / 2 == 10;
    assert input[10..14] == [R, O, W, 0x33];
    assert input[14] == NEWLINE;
    CutAt(input, 0, 10, 14);
    ChunksFromStep(input, 10, 0);
    assert input[20..] == [];
    CutAtEnd(input, 15, 10);
    ChunksFromStep(input, 10, 15);
    assert input[0..15] == Row(1) + Row(2) + Row(3);
    assert input[15..20] == Row(4);
  }

  lemma NotEvenlyDivisible()
    ensures Chunks(Row(1) + Row(2) + Row(3) + Row(4) + Row(5), 2) == [Row(1) + Row(2) + Row(3), Row(4) + Row(5)]
  {
    var input := Row(1) + Row(2) + Row(3) + Row(4) + Row(5);
    assert |input| / 2 == 12;
    assert input[12..14] == [W, 0x33];
    assert input[14] == NEWLINE;
    CutAt(input, 0, 12, 14);
    ChunksFromStep(input, 12, 0);
    assert input[25..] == [];
    CutAtEnd(input, 15, 12);
    ChunksFromStep(input, 12, 15);
    assert input[0..15] == Row(1) + Row(2) + Row(3);
    assert input[15..25] == Row(4) + Row(5);
  }

  /** "1\n2\n3\n" in five: only three lines, so only three chunks. */
  lemma MoreChunksThanRows()
    ensures Chunks([0x31, NEWLINE, 0x32, NEWLINE, 0x33, NEWLINE], 5)
         == [[0x31, NEWLINE], [0x32, NEWLINE], [0x33, NEWLINE]]
  {
    var input: seq<byte> := [0x31, NEWLINE, 0x32, NEWLINE, 0x33, NEWLINE];
    assert |input| / 5 == 1;
    CutAt(input, 0, 1, 1);
    ChunksFromStep(input, 1, 0);
    CutAt(input, 2, 1, 3);
    ChunksFromStep(input, 1, 2);
    CutAt(input, 4, 1, 5);
    ChunksFromStep(input, 1, 4);
    assert input[0..2] == [0x31, NEWLINE];
    assert input[2..4] == [0x32, NEWLINE];
    assert input[4..6] == [0x33, NEWLINE];
  }
}
