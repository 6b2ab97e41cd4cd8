/** The per-chunk work of `parse_from_str` (src/lib.rs:171-196): every row
    of a chunk is split at its first ';', the city is hashed, and the row is
    folded into a table keyed by that hash alone (`hack_map_entry`). */
module ChunkTable {
  import opened Bytes
  import opened LineIterator
  import opened Records

  /** A 64-bit hash value; no arithmetic is done on it, only comparison. */
  newtype u64 = x: int | 0 <= x < 0x1_0000_0000_0000_0000

  /** `hashbrown::HashTable<(u64, Record)>`: each slot holds its hash and
      record; only the hash is ever compared. */
  type Table = map<u64, Record>

  /** The hash of a city: `FxHasher::finish` after writing the city's bytes
      and then the byte 0xFF. */
  type Hasher = seq<byte> -> u64

  /** A row cut at its first ';' into city and sample; None where `expect`
      would panic for a missing separator. */
  function SplitRow(row: seq<byte>): (r: Option<(seq<byte>, seq<byte>)>)
    ensures r.None? <==> SEMICOLON !in row
    ensures r.Some? ==> row == r.value.0 + [SEMICOLON] + r.value.1 && SEMICOLON !in r.value.0
  {
    match IndexOf(row, SEMICOLON)
    case None => None
    case Some(i) =>
      assert row == row[..i] + [SEMICOLON] + row[i + 1..];
      Some((row[..i], row[i + 1..]))
  }

  /** `hack_map_entry(..).and_modify(add).or_insert_with(new)`: the slot is
      found by hash equality only, so a city whose hash is already present
      is added to that record, under the first city's name. */
  function Upsert(t: Table, h: u64, city: seq<byte>, sample: int): Table
  {
    if h in t then t[h := Add(t[h], sample)] else t[h := New(sample, city)]
  }

  /** The upsert touches the slot of `h` and no other, adds at most one
      slot, and compares hashes only: with `h` present the sample goes to the
      record already there, whatever city it names. */
  lemma UpsertSpec(t: Table, h: u64, city: seq<byte>, sample: int)
    ensures Upsert(t, h, city, sample).Keys == t.Keys + {h}
    ensures |Upsert(t, h, city, sample)| <= |t| + 1
    ensures forall k :: k in t && k != h ==> Upsert(t, h, city, sample)[k] == t[k]
    ensures h in t ==> Upsert(t, h, city, sample)[h] == Add(t[h], sample)
                       && Upsert(t, h, city, sample)[h].city == t[h].city
    ensures h !in t ==> Upsert(t, h, city, sample)[h] == New(sample, city)
                        && Upsert(t, h, city, sample)[h].city == city
  {
  }

  /** The decoder of a row's sample field (`parse_temperature`). */
  type Decoder = seq<byte> -> int

  /** A row after `memchr` and `parse_temperature`: its city and its sample. */
  datatype Sample = Sample(city: seq<byte>, value: int)

  /** One row split and decoded; None where `expect` would panic. */
  function ParseRow(row: seq<byte>, decode: Decoder): (r: Option<Sample>)
    ensures r.None? <==> SEMICOLON !in row
  {
    match SplitRow(row)
    case None => None
    case Some((city, field)) => Some(Sample(city, decode(field)))
  }

  /** All rows split and decoded; None if any row has no ';'. */
  function ParseRows(rows: seq<seq<byte>>, decode: Decoder): (r: Option<seq<Sample>>)
    ensures r.Some? ==> |r.value| == |rows|
  {
    if |rows| == 0 then Some([])
    else match ParseRow(rows[0], decode)
      case None => None
      case Some(s) =>
        match ParseRows(rows[1..], decode)
        case None => None
        case Some(ss) => Some([s] + ss)
  }

  /** Parsing fails exactly when some row has no ';'. */
  lemma {:induction false} ParseRowsFails(rows: seq<seq<byte>>, decode: Decoder)
    ensures ParseRows(rows, decode).None? <==> exists i :: 0 <= i < |rows| && SEMICOLON !in rows[i]
    decreases |rows|
  {
    if |rows| > 0 {
      ParseRowsFails(rows[1..], decode);
      assert forall i :: 1 <= i < |rows| ==> rows[i] == rows[1..][i - 1];
      if exists i :: 0 <= i < |rows| && SEMICOLON !in rows[i] {
        var i :| 0 <= i < |rows| && SEMICOLON !in rows[i];
        if i > 0 {
          assert SEMICOLON !in rows[1..][i - 1];
        }
      }
    }
  }

  /** The upsert of one sample under the hash of its city. */
  function Insert(t: Table, s: Sample, hash: Hasher): Table
  {
    Upsert(t, hash(s.city), s.city, s.value)
  }

  /** The rows folded into `acc` one by one; None as soon as a row has no ';'. */
  function ScanRows(rows: seq<seq<byte>>, acc: Table, hash: Hasher, decode: Decoder): Option<Table>
    decreases |rows|
  {
    if |rows| == 0 then Some(acc)
    else match ParseRow(rows[0], decode)
      case None => None
      case Some(s) => ScanRows(rows[1..], Insert(acc, s, hash), hash, decode)
  }

  /** The loop of one worker thread over the rows of its chunk. */
  method ScanChunk(chunk: seq<byte>, hash: Hasher, decode: Decoder) returns (table: Option<Table>)
    ensures table == ScanRows(Lines(chunk), map[], hash, decode)
  {
    var rows := new Rows(chunk);
    var local: Table := map[];
    while true
      invariant rows.input == chunk
      invariant ScanRows(Lines(chunk), map[], hash, decode) == ScanRows(rows.Remaining(), local, hash, decode)
      decreases |chunk| - rows.start
    {
      var row := rows.Next();
      match row
      case None =>
        return Some(local);
      case Some(line) =>
        match SplitRow(line)
        case None =>
          return None;
        case Some((city, field)) =>
          local := Upsert(local, hash(city), city, decode(field));
    }
  }

  // ---------------------------------------------------------------------------
  // What the table holds

  /** The table of the samples `ss`, inserted first to last. */
  function Build(ss: seq<Sample>, hash: Hasher): Table
  {
    if |ss| == 0 then map[] else Insert(Build(ss[..|ss| - 1], hash), ss[|ss| - 1], hash)
  }

  /** The values of the samples for `city`, in row order. */
  function ValuesOf(ss: seq<Sample>, city: seq<byte>): seq<int>
  {
    if |ss| == 0 then []
    else ValuesOf(ss[..|ss| - 1], city) + (if ss[|ss| - 1].city == city then [ss[|ss| - 1].value] else [])
  }

  /** No two different cities among the samples share a hash. */
  ghost predicate NoCollisions(ss: seq<Sample>, hash: Hasher)
  {
    forall a, b :: a in ss && b in ss && a.city != b.city ==> hash(a.city) != hash(b.city)
  }

  /** The samples inserted into `acc` first to last. */
  function Fold(acc: Table, ss: seq<Sample>, hash: Hasher): Table
    decreases |ss|
  {
    if |ss| == 0 then acc else Fold(Insert(acc, ss[0], hash), ss[1..], hash)
  }

  /** Scanning rows is parsing them all, then inserting the samples; None if
      a row has no ';'. */
  lemma {:induction false} ScanRowsFold(rows: seq<seq<byte>>, acc: Table, hash: Hasher, decode: Decoder)
    ensures ScanRows(rows, acc, hash, decode)
         == match ParseRows(rows, decode)
            case None => None
            case Some(ss) => Some(Fold(acc, ss, hash))
    decreases |rows|
  {
    if |rows| > 0 && ParseRow(rows[0], decode).Some? {
      var s := ParseRow(rows[0], decode).value;
      ScanRowsFold(rows[1..], Insert(acc, s, hash), hash, decode);
      if ParseRows(rows[1..], decode).Some? {
        var ss := ParseRows(rows[1..], decode).value;
        assert ([s] + ss)[1..] == ss;
      }
    }
  }

  lemma {:induction false} FoldSnoc(acc: Table, ss: seq<Sample>, s: Sample, hash: Hasher)
    ensures Fold(acc, ss + [s], hash) == Insert(Fold(acc, ss, hash), s, hash)
    decreases |ss|
  {
    if |ss| == 0 {
      assert ([] + [s])[1..] == [];
    } else {
      assert (ss + [s])[1..] == ss[1..] + [s];
      FoldSnoc(Insert(acc, ss[0], hash), ss[1..], s, hash);
    }
  }

  lemma {:induction false} FoldBuild(ss: seq<Sample>, hash: Hasher)
    ensures Fold(map[], ss, hash) == Build(ss, hash)
    decreases |ss|
  {
    if |ss| > 0 {
      var p := ss[..|ss| - 1];
      FoldBuild(p, hash);
      FoldSnoc(map[], p, ss[|ss| - 1], hash);
      assert p + [ss[|ss| - 1]] == ss;
    }
  }

  /** A chunk's table: None if a row has no ';', otherwise the table of its
      samples in row order. */
  lemma ScanChunkTable(chunk: seq<byte>, hash: Hasher, decode: Decoder)
    ensures ScanRows(Lines(chunk), map[], hash, decode)
         == match ParseRows(Lines(chunk), decode)
            case None => None
            case Some(ss) => Some(Build(ss, hash))
  {
    ScanRowsFold(Lines(chunk), map[], hash, decode);
    if ParseRows(Lines(chunk), decode).Some? {
      FoldBuild(ParseRows(Lines(chunk), decode).value, hash);
    }
  }

  /** The hashes of the samples' cities. */
  function HashesOf(ss: seq<Sample>, hash: Hasher): set<u64>
  {
    if |ss| == 0 then {} else HashesOf(ss[..|ss| - 1], hash) + {hash(ss[|ss| - 1].city)}
  }

  lemma {:induction false} HashesOfMember(ss: seq<Sample>, hash: Hasher, h: u64)
    ensures h in HashesOf(ss, hash) <==> exists i :: 0 <= i < |ss| && hash(ss[i].city) == h
    decreases |ss|
  {
    if |ss| > 0 {
      var p := ss[..|ss| - 1];
      HashesOfMember(p, hash, h);
      if h in HashesOf(p, hash) {
        var i :| 0 <= i < |p| && hash(p[i].city) == h;
        assert ss[i] == p[i];
      }
      if exists i :: 0 <= i < |ss| && hash(ss[i].city) == h {
        var i :| 0 <= i < |ss| && hash(ss[i].city) == h;
        if i < |p| {
          assert ss[i] == p[i];
        }
      }
    }
  }

  lemma {:induction false} HashesOfSize(ss: seq<Sample>, hash: Hasher)
    ensures |HashesOf(ss, hash)| <= |ss|
    decreases |ss|
  {
    if |ss| > 0 {
      HashesOfSize(ss[..|ss| - 1], hash);
    }
  }

  /** The table has one slot per distinct hash of a sample's city and
      nothing else, so it grows by at most one slot per row. */
  lemma {:induction false} BuildKeys(ss: seq<Sample>, hash: Hasher)
    ensures Build(ss, hash).Keys == HashesOf(ss, hash)
    ensures |Build(ss, hash)| <= |ss|
    decreases |ss|
  {
    if |ss| > 0 {
      var p, s := ss[..|ss| - 1], ss[|ss| - 1];
      BuildKeys(p, hash);
      UpsertSpec(Build(p, hash), hash(s.city), s.city, s.value);
    }
  }

  /** A city has samples exactly when some sample names it. */
  lemma {:induction false} ValuesOfEmpty(ss: seq<Sample>, city: seq<byte>)
    ensures ValuesOf(ss, city) == [] <==> forall i :: 0 <= i < |ss| ==> ss[i].city != city
    decreases |ss|
  {
    if |ss| > 0 {
      var p := ss[..|ss| - 1];
      ValuesOfEmpty(p, city);
      assert forall i :: 0 <= i < |p| ==> p[i] == ss[i];
    }
  }

  /** No sample of another city shares the hash of `city`. */
  ghost predicate Alone(ss: seq<Sample>, hash: Hasher, city: seq<byte>)
  {
    forall i :: 0 <= i < |ss| && ss[i].city != city ==> hash(ss[i].city) != hash(city)
  }

  /** A city that some sample names and whose hash no other city shares has
      an exact slot: it holds the statistics of exactly that city's samples,
      under its name. */
  lemma {:induction false} BuildSlot(ss: seq<Sample>, hash: Hasher, city: seq<byte>)
    requires ValuesOf(ss, city) != [] && Alone(ss, hash, city)
    ensures hash(city) in Build(ss, hash)
    ensures Summarizes(Build(ss, hash)[hash(city)], city, ValuesOf(ss, city))
    decreases |ss|
  {
    var n := |ss| - 1;
    var p, s := ss[..n], ss[n];
    assert ss == p + [s];
    assert Alone(p, hash, city) by {
      assert forall i :: 0 <= i < |p| ==> p[i] == ss[i];
    }
    if s.city != city {
      SlotOther(p, s, hash, city);
      BuildSlot(p, hash, city);
    } else if ValuesOf(p, city) != [] {
      BuildSlot(p, hash, city);
      SlotAgain(p, s, hash);
    } else {
      BuildSlotFresh(p, hash, city);
      SlotFirst(p, s, hash);
    }
  }

  /** Unfolds `Build` at its last sample. */
  lemma BuildLast(p: seq<Sample>, s: Sample, hash: Hasher)
    ensures Build(p + [s], hash) == Upsert(Build(p, hash), hash(s.city), s.city, s.value)
  {
    assert (p + [s])[..|p|] == p;
  }

  /** A sample of another city, with another hash, leaves the slot of
      `city` as it was. */
  lemma SlotOther(p: seq<Sample>, s: Sample, hash: Hasher, city: seq<byte>)
    requires s.city != city && hash(s.city) != hash(city)
    ensures ValuesOf(p + [s], city) == ValuesOf(p, city)
    ensures hash(city) in Build(p, hash) ==>
      hash(city) in Build(p + [s], hash) && Build(p + [s], hash)[hash(city)] == Build(p, hash)[hash(city)]
  {
    assert (p + [s])[..|p|] == p;
    assert ValuesOf(p + [s], city) == ValuesOf(p, city) + [];
    BuildLast(p, s, hash);
    UpsertSpec(Build(p, hash), hash(s.city), s.city, s.value);
  }

  /** A further sample of a city with a slot is added to that slot. */
  lemma SlotAgain(p: seq<Sample>, s: Sample, hash: Hasher)
    requires hash(s.city) in Build(p, hash)
    requires Summarizes(Build(p, hash)[hash(s.city)], s.city, ValuesOf(p, s.city))
    ensures hash(s.city) in Build(p + [s], hash)
    ensures Summarizes(Build(p + [s], hash)[hash(s.city)], s.city, ValuesOf(p + [s], s.city))
  {
    assert (p + [s])[..|p|] == p;
    BuildLast(p, s, hash);
    UpsertSpec(Build(p, hash), hash(s.city), s.city, s.value);
    AddSummarizes(Build(p, hash)[hash(s.city)], s.city, ValuesOf(p, s.city), s.value);
  }

  /** The first sample of a city without a slot gets a new one. */
  lemma SlotFirst(p: seq<Sample>, s: Sample, hash: Hasher)
    requires hash(s.city) !in Build(p, hash) && ValuesOf(p, s.city) == []
    ensures hash(s.city) in Build(p + [s], hash)
    ensures Summarizes(Build(p + [s], hash)[hash(s.city)], s.city, ValuesOf(p + [s], s.city))
  {
    assert (p + [s])[..|p|] == p;
    assert ValuesOf(p + [s], s.city) == [] + [s.value];
    BuildLast(p, s, hash);
    UpsertSpec(Build(p, hash), hash(s.city), s.city, s.value);
    NewSummarizes(s.value, s.city);
  }

  /** A city without samples, alone on its hash, has no slot yet. */
  lemma BuildSlotFresh(ss: seq<Sample>, hash: Hasher, city: seq<byte>)
    requires ValuesOf(ss, city) == [] && Alone(ss, hash, city)
    ensures hash(city) !in Build(ss, hash)
  {
    BuildKeys(ss, hash);
    HashesOfMember(ss, hash, hash(city));
    ValuesOfEmpty(ss, city);
  }

  /** Without hash collisions the table is exact for every city. */
  lemma BuildSummarizes(ss: seq<Sample>, hash: Hasher)
    requires NoCollisions(ss, hash)
    ensures forall i :: 0 <= i < |ss| ==>
      hash(ss[i].city) in Build(ss, hash)
      && Summarizes(Build(ss, hash)[hash(ss[i].city)], ss[i].city, ValuesOf(ss, ss[i].city))
  {
    forall i | 0 <= i < |ss|
      ensures hash(ss[i].city) in Build(ss, hash)
      ensures Summarizes(Build(ss, hash)[hash(ss[i].city)], ss[i].city, ValuesOf(ss, ss[i].city))
    {
      ValuesOfEmpty(ss, ss[i].city);
      assert Alone(ss, hash, ss[i].city) by {
        forall j | 0 <= j < |ss| && ss[j].city != ss[i].city
          ensures hash(ss[j].city) != hash(ss[i].city)
        {
          assert ss[j] in ss && ss[i] in ss;
        }
      }
      BuildSlot(ss, hash, ss[i].city);
    }
  }

  /** Every slot of a chunk table is keyed by the hash of its record's city:
      the upsert files a new record under the hash of the city it names,
      and `add` keeps the city. */
  ghost predicate Keyed(t: Table, hash: Hasher)
  {
    forall k :: k in t ==> hash(t[k].city) == k
  }

  /** The samples of `city` in `a + b` are those in `a`, then those in `b`. */
  lemma {:induction false} ValuesOfConcat(a: seq<Sample>, b: seq<Sample>, city: seq<byte>)
    ensures ValuesOf(a + b, city) == ValuesOf(a, city) + ValuesOf(b, city)
    decreases |b|
  {
    if |b| == 0 {
      assert a + b == a;
    } else {
      var q := b[..|b| - 1];
      assert (a + b)[..|a + b| - 1] == a + q;
      ValuesOfConcat(a, q, city);
    }
  }

  /** Every slot of a built table is keyed by its city's hash and names a
      city that has samples. */
  lemma {:induction false} BuildNamed(ss: seq<Sample>, hash: Hasher)
    ensures Keyed(Build(ss, hash), hash)
    ensures forall k :: k in Build(ss, hash) ==> ValuesOf(ss, Build(ss, hash)[k].city) != []
    decreases |ss|
  {
    if |ss| > 0 {
      var p, s := ss[..|ss| - 1], ss[|ss| - 1];
      assert ss == p + [s];
      BuildNamed(p, hash);
      BuildLast(p, s, hash);
      UpsertSpec(Build(p, hash), hash(s.city), s.city, s.value);
      forall k | k in Build(ss, hash)
        ensures hash(Build(ss, hash)[k].city) == k
        ensures ValuesOf(ss, Build(ss, hash)[k].city) != []
      {
        var c := Build(ss, hash)[k].city;
        ValuesOfConcat(p, [s], c);
        if k != hash(s.city) || hash(s.city) in Build(p, hash) {
          assert c == Build(p, hash)[k].city;
        }
      }
    }
  }

  /** With hash collisions the table is not exact: two cities that share a
      hash end up in one record, under the name of the city seen first. */
  lemma CollidingCities(hash: Hasher, a: seq<byte>, b: seq<byte>, x: seq<byte>, y: seq<byte>, decode: Decoder)
    requires a != b && SEMICOLON !in a && SEMICOLON !in b
    requires hash(a) == hash(b)
    ensures var t := ScanRows([a + [SEMICOLON] + x, b + [SEMICOLON] + y], map[], hash, decode);
            t.Some? && t.value.Keys == {hash(a)}
            && t.value[hash(a)].city == a
            && t.value[hash(a)].count == 2
  {
    var r1, r2 := a + [SEMICOLON] + x, b + [SEMICOLON] + y;
    ParseRowOf(a, x, decode);
    ParseRowOf(b, y, decode);
    var sa, sb := Sample(a, decode(x)), Sample(b, decode(y));
    var t1 := Insert(map[], sa, hash);
    UpsertSpec(map[], hash(a), a, sa.value);
    UpsertSpec(t1, hash(b), b, sb.value);
    assert [r1, r2][1..] == [r2];
    assert ScanRows([r1, r2], map[], hash, decode) == ScanRows([r2], t1, hash, decode);
  }

  /** A row with a ';' splits at the first one into its city and field. */
  lemma ParseRowOf(city: seq<byte>, field: seq<byte>, decode: Decoder)
    requires SEMICOLON !in city
    ensures ParseRow(city + [SEMICOLON] + field, decode) == Some(Sample(city, decode(field)))
  {
    var row := city + [SEMICOLON] + field;
    IndexOfFirst(row, SEMICOLON, |city|);
    assert row[..|city|] == city && row[|city| + 1..] == field;
  }
}
