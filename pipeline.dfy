/** `parse_from_str` (src/lib.rs:156-229) as one sequential pass: strip one
    trailing '\n', cut the buffer into chunks, scan every chunk into its own
    table, merge the tables by city and write the sorted result. */
module Pipeline {
  import opened Bytes
  import opened LineIterator
  import opened Split
  import opened Temperature
  import opened Records
  import opened ChunkTable
  import opened CityTotals
  import opened Output

  /** `input.strip_suffix("\n").unwrap_or(input)`. */
  function StripNewline(input: seq<byte>): (r: seq<byte>)
    ensures input == r + (if EndsWithNewline(input) then [NEWLINE] else [])
  {
    if EndsWithNewline(input) then input[..|input| - 1] else input
  }

  /** Only one trailing '\n' goes: a buffer ending in two keeps one. */
  lemma StripOneNewline(input: seq<byte>)
    requires |input| >= 2 && input[|input| - 1] == NEWLINE && input[|input| - 2] == NEWLINE
    ensures |StripNewline(input)| == |input| - 1 && EndsWithNewline(StripNewline(input))
  {
  }

  /** The sample decoder of the workers: `parse_temperature` as written,
      in tenths, reading `pad` past the end of a three-byte field. Negative
      fields decode wrongly (`Temperature.MinusFivePointThree`); every
      lemma below holds for any decoder, `Temperature.ParseTemperatureSigned`
      included. */
  function Decode(pad: byte): Decoder
  {
    f => ParseTemperature(f, pad)
  }

  /** Every row of every chunk has a ';'. */
  ghost predicate AllParse(chunks: seq<seq<byte>>, decode: Decoder)
  {
    forall i :: 0 <= i < |chunks| ==> ParseRows(Lines(chunks[i]), decode).Some?
  }

  /** The samples of each chunk's rows. */
  ghost function SamplesOf(chunks: seq<seq<byte>>, decode: Decoder): (r: seq<seq<Sample>>)
    requires AllParse(chunks, decode)
    ensures |r| == |chunks|
    ensures forall i :: 0 <= i < |chunks| ==> r[i] == ParseRows(Lines(chunks[i]), decode).value
  {
    seq(|chunks|, i requires 0 <= i < |chunks| => ParseRows(Lines(chunks[i]), decode).value)
  }

  /** The chunks `parse_from_str` hands to its workers. */
  function ChunksOf(input: seq<byte>, threadCount: nat): seq<seq<byte>>
  {
    Chunks(StripNewline(input), threadCount * 4)
  }

  /** The merged map, or None where a worker would panic on a row without
      ';' (the panic then propagates out of `thread::scope`). */
  ghost function TotalsOf(input: seq<byte>, threadCount: nat, hash: Hasher, decode: Decoder): Option<Totals>
  {
    var chunks := ChunksOf(input, threadCount);
    if AllParse(chunks, decode) then
      var sss := SamplesOf(chunks, decode);
      BuildsKeyed(sss, hash);
      Some(JoinAll(map[], Builds(sss, hash), hash))
    else None
  }

  /** What `parse_from_str` returns. */
  ghost function Expected(input: seq<byte>, threadCount: nat, hash: Hasher, decode: Decoder, text: Record -> seq<byte>): Option<seq<byte>>
  {
    match TotalsOf(input, threadCount, hash, decode)
    case None => None
    case Some(m) => Some(Document(Entries(m, Sorted(m), text)))
  }

  /** The workers of `parse_from_str`, one chunk after another: each scans its
      chunk into a table; a row without ';' ends the whole call. */
  method ScanChunks(chunks: seq<seq<byte>>, hash: Hasher, decode: Decoder) returns (tables: Option<seq<Table>>)
    ensures tables.Some? <==> AllParse(chunks, decode)
    ensures tables.Some? ==> tables.value == Builds(SamplesOf(chunks, decode), hash)
  {
    var done: seq<Table> := [];
    for i := 0 to |chunks|
      invariant AllParse(chunks[..i], decode)
      invariant done == Builds(SamplesOf(chunks[..i], decode), hash)
    {
      var t := ScanChunk(chunks[i], hash, decode);
      ScanChunkTable(chunks[i], hash, decode);
      if t.None? {
        assert !AllParse(chunks, decode);
        return None;
      }
      TakeNext(chunks, i);
      done := done + [t.value];
    }
    TakeAll(chunks);
    tables := Some(done);
  }

  /** `parse_from_str`, with the thread count, the hasher, the byte after the
      buffer and `Record::write` as parameters. */
  method ParseFromStr(input: seq<byte>, threadCount: nat, hash: Hasher, pad: byte, text: Record -> seq<byte>)
    returns (out: Option<seq<byte>>)
    ensures out == Expected(input, threadCount, hash, Decode(pad), text)
  {
    var body := StripNewline(input);
    var chunks := IntoChunks(body, threadCount * 4);
    var tables := ScanChunks(chunks, hash, Decode(pad));
    if tables.None? {
      return None;
    }
    BuildsKeyed(SamplesOf(chunks, Decode(pad)), hash);
    var m := MergeChunks(tables.value, hash);
    var keys := InOrder(m);
    var text' := Render(m, keys, text);
    out := Some(text');
  }

  // ---------------------------------------------------------------------------
  // What the output says about the input

  /** Both results, one after the other, or None if either failed. */
  function Both(x: Option<seq<Sample>>, y: Option<seq<Sample>>): Option<seq<Sample>>
  {
    if x.Some? && y.Some? then Some(x.value + y.value) else None
  }

  /** Rows parse one after another: the samples of two runs of rows are the
      samples of each, and a failure in either fails both. */
  lemma {:induction false} ParseRowsAppend(a: seq<seq<byte>>, b: seq<seq<byte>>, decode: Decoder)
    ensures ParseRows(a + b, decode) == Both(ParseRows(a, decode), ParseRows(b, decode))
    decreases |a|
  {
    if |a| == 0 {
      assert a + b == b;
      if ParseRows(b, decode).Some? {
        assert [] + ParseRows(b, decode).value == ParseRows(b, decode).value;
      }
    } else {
      ParseRowsAppend(a[1..], b, decode);
      ParseRowsAppendStep(a, b, decode);
    }
  }

  lemma ParseRowsAppendStep(a: seq<seq<byte>>, b: seq<seq<byte>>, decode: Decoder)
    requires |a| > 0
    requires ParseRows(a[1..] + b, decode) == Both(ParseRows(a[1..], decode), ParseRows(b, decode))
    ensures ParseRows(a + b, decode) == Both(ParseRows(a, decode), ParseRows(b, decode))
  {
    var c := a + b;
    AppendTail(a, b);
    ParseRowsCons(a, decode);
    ParseRowsCons(c, decode);
    var x, y, z := ParseRow(a[0], decode), ParseRows(a[1..], decode), ParseRows(b, decode);
    if x.Some? && y.Some? && z.Some? {
      ConsAssociative(x.value, y.value, z.value);
    }
  }

  lemma ParseRowsCons(rows: seq<seq<byte>>, decode: Decoder)
    requires |rows| > 0
    ensures ParseRows(rows, decode)
         == if ParseRow(rows[0], decode).Some? && ParseRows(rows[1..], decode).Some?
            then Some([ParseRow(rows[0], decode).value] + ParseRows(rows[1..], decode).value)
            else None
  {
  }

  /** The rows of all chunks parse exactly when each chunk's rows do, to the
      chunks' samples one chunk after another. */
  lemma {:induction false} ParseEach(chunks: seq<seq<byte>>, decode: Decoder)
    ensures ParseRows(LinesOfEach(chunks), decode)
         == if AllParse(chunks, decode) then Some(Flatten(SamplesOf(chunks, decode))) else None
    decreases |chunks|
  {
    if |chunks| > 0 {
      var rest := chunks[1..];
      ParseEach(rest, decode);
      ParseRowsAppend(Lines(chunks[0]), LinesOfEach(rest), decode);
      AllParseCons(chunks, decode);
    }
  }

  /** The chunks all parse when the first does and the rest all do; their
      samples are the first's, then the rest's. */
  lemma AllParseCons(chunks: seq<seq<byte>>, decode: Decoder)
    requires |chunks| > 0
    ensures AllParse(chunks, decode)
        <==> ParseRows(Lines(chunks[0]), decode).Some? && AllParse(chunks[1..], decode)
    ensures AllParse(chunks, decode) ==>
      Flatten(SamplesOf(chunks, decode))
      == ParseRows(Lines(chunks[0]), decode).value + Flatten(SamplesOf(chunks[1..], decode))
  {
    var rest := chunks[1..];
    assert forall i :: 0 < i < |chunks| ==> chunks[i] == rest[i - 1];
    if AllParse(chunks, decode) {
      assert SamplesOf(chunks, decode)[1..] == SamplesOf(rest, decode);
    }
  }

  /** The rows of the covered part of the buffer. */
  function CoveredRows(input: seq<byte>, threadCount: nat): seq<seq<byte>>
  {
    Lines(Concat(ChunksOf(input, threadCount)))
  }

  lemma CoveredRowsOfChunks(input: seq<byte>, threadCount: nat)
    ensures CoveredRows(input, threadCount) == LinesOfEach(ChunksOf(input, threadCount))
  {
    var body := StripNewline(input);
    ChunksShape(body, threadCount * 4);
    var c := ChunksOf(input, threadCount);
    if |c| > 0 {
      assert CutAtNewlines(c, 0);
    }
    LinesOfChunks(c);
  }

  /** The call panics (None here) exactly when some covered row has no ';'. */
  lemma ParseFromStrFails(input: seq<byte>, threadCount: nat, hash: Hasher, decode: Decoder, text: Record -> seq<byte>)
    ensures Expected(input, threadCount, hash, decode, text).None?
        <==> exists i :: 0 <= i < |CoveredRows(input, threadCount)| && SEMICOLON !in CoveredRows(input, threadCount)[i]
  {
    CoveredRowsOfChunks(input, threadCount);
    ParseEach(ChunksOf(input, threadCount), decode);
    ParseRowsFails(CoveredRows(input, threadCount), decode);
  }

  lemma {:induction false} FlattenMember(sss: seq<seq<Sample>>, i: nat, s: Sample)
    requires i < |sss| && s in sss[i]
    ensures s in Flatten(sss)
    decreases i
  {
    if i > 0 {
      FlattenMember(sss[1..], i - 1, s);
    }
  }

  /** Each chunk's samples are among the samples of all chunks. */
  lemma NoCollisionsInEachChunk(sss: seq<seq<Sample>>, hash: Hasher)
    requires NoCollisions(Flatten(sss), hash)
    ensures NoCollisionsInChunks(sss, hash)
  {
    forall i | 0 <= i < |sss| ensures NoCollisions(sss[i], hash) {
      forall a, b | a in sss[i] && b in sss[i] && a.city != b.city
        ensures hash(a.city) != hash(b.city)
      {
        FlattenMember(sss, i, a);
        FlattenMember(sss, i, b);
      }
    }
  }

  /** The main property: as long as no two different cities of the covered
      rows share a hash, the output lists each city of those rows once, in
      ascending byte order, with exactly the statistics of its samples. */
  lemma ParseFromStrExact(input: seq<byte>, threadCount: nat, hash: Hasher, decode: Decoder, text: Record -> seq<byte>)
    requires ParseRows(CoveredRows(input, threadCount), decode).Some?
    requires NoCollisions(ParseRows(CoveredRows(input, threadCount), decode).value, hash)
    ensures TotalsOf(input, threadCount, hash, decode).Some?
    ensures var m := TotalsOf(input, threadCount, hash, decode).value;
      && Expected(input, threadCount, hash, decode, text) == Some(Document(Entries(m, Sorted(m), text)))
      && Exact(m, ParseRows(CoveredRows(input, threadCount), decode).value)
  {
    var chunks := ChunksOf(input, threadCount);
    CoveredRowsOfChunks(input, threadCount);
    ParseEach(chunks, decode);
    var sss := SamplesOf(chunks, decode);
    NoCollisionsInEachChunk(sss, hash);
    assert Exact(map[], []);
    JoinAllExact(map[], [], sss, hash);
    assert [] + Flatten(sss) == Flatten(sss);
  }

  /** The stripped buffer does not end in a '\n' followed by one byte, the
      only case in which `into_chunks` leaves a byte uncovered. */
  predicate NoShortTail(input: seq<byte>)
  {
    var body := StripNewline(input);
    |body| < 2 || body[|body| - 2] != NEWLINE
  }

  /** With at least one thread and no one-byte tail, the workers see every
      row of the stripped buffer, whatever the thread count. */
  lemma CoveredRowsAll(input: seq<byte>, threadCount: nat)
    requires threadCount > 0 && NoShortTail(input)
    ensures CoveredRows(input, threadCount) == Lines(StripNewline(input))
  {
    var body := StripNewline(input);
    ChunksShape(body, threadCount * 4);
    assert body[0..|body|] == body;
  }

  /** Without collisions among the cities of the buffer, the output does not
      depend on the number of threads: every thread count gives the exact
      statistics of all rows. */
  lemma ExpectedIndependentOfThreads(input: seq<byte>, t1: nat, t2: nat, hash: Hasher, decode: Decoder, text: Record -> seq<byte>)
    requires t1 > 0 && t2 > 0 && NoShortTail(input)
    requires ParseRows(Lines(StripNewline(input)), decode).Some?
    requires NoCollisions(ParseRows(Lines(StripNewline(input)), decode).value, hash)
    ensures Expected(input, t1, hash, decode, text).Some?
    ensures Expected(input, t1, hash, decode, text) == Expected(input, t2, hash, decode, text)
  {
    var ss := ParseRows(Lines(StripNewline(input)), decode).value;
    CoveredRowsAll(input, t1);
    CoveredRowsAll(input, t2);
    ParseFromStrExact(input, t1, hash, decode, text);
    ParseFromStrExact(input, t2, hash, decode, text);
    ExactUnique(TotalsOf(input, t1, hash, decode).value, TotalsOf(input, t2, hash, decode).value, ss);
  }
}
