/** The final merge of `parse_from_str` (src/lib.rs:203-212): the records of
    every chunk table are folded into one map keyed by city text, a record of
    a city already present being merged into the one there. */
module CityTotals {
  import opened Bytes
  import opened Records
  import opened ChunkTable

  /** `BTreeMap<&str, Record>`: the merged records, keyed by city. */
  type Totals = map<seq<byte>, Record>

  /** `map.entry(record.city).and_modify(merge).or_insert(record)`. */
  function Absorb(m: Totals, r: Record): Totals
  {
    if r.city in m then m[r.city := Merge(m[r.city], r)] else m[r.city := r]
  }

  /** Every record of the map is filed under its own city. */
  predicate Named(m: Totals)
  {
    forall c :: c in m ==> m[c].city == c
  }

  /** The cities named by the records of a chunk table. */
  function Cities(t: Table): set<seq<byte>>
  {
    set k | k in t :: t[k].city
  }

  /** In a keyed table a city names at most one record: the one in the slot
      of its hash. */
  lemma CityAt(t: Table, hash: Hasher, c: seq<byte>)
    requires Keyed(t, hash)
    ensures c in Cities(t) <==> hash(c) in t && t[hash(c)].city == c
  {
    if c in Cities(t) {
      var k :| k in t && t[k].city == c;
    }
  }

  /** The map after all records of a keyed table are absorbed, in any order:
      each city of the table gets its record, merged into the one already
      there if any; every other city keeps its record. */
  function Joined(m: Totals, t: Table, hash: Hasher): Totals
    requires Keyed(t, hash)
  {
    map c | c in m.Keys + Cities(t) ::
      if c in Cities(t) then
        CityAt(t, hash, c);
        if c in m then Merge(m[c], t[hash(c)]) else t[hash(c)]
      else m[c]
  }

  /** Removing a slot from a keyed table removes exactly its city. */
  lemma CitiesRemove(t: Table, k: u64, hash: Hasher)
    requires Keyed(t, hash) && k in t
    ensures Keyed(t - {k}, hash)
    ensures Cities(t - {k}) == Cities(t) - {t[k].city}
  {
    forall c | c in Cities(t) - {t[k].city} ensures c in Cities(t - {k}) {
      CityAt(t, hash, c);
      assert hash(c) in t - {k};
    }
  }

  /** Absorbing one record of the table and then the rest is absorbing the
      whole table. */
  lemma AbsorbJoined(m: Totals, t: Table, k: u64, hash: Hasher)
    requires Keyed(t, hash) && k in t
    ensures Keyed(t - {k}, hash)
    ensures Joined(Absorb(m, t[k]), t - {k}, hash) == Joined(m, t, hash)
  {
    CitiesRemove(t, k, hash);
    var left, right := Joined(Absorb(m, t[k]), t - {k}, hash), Joined(m, t, hash);
    assert left.Keys == right.Keys;
    forall c | c in left.Keys ensures left[c] == right[c] {
      AbsorbJoinedAt(m, t, k, hash, c);
    }
  }

  lemma AbsorbJoinedAt(m: Totals, t: Table, k: u64, hash: Hasher, c: seq<byte>)
    requires Keyed(t, hash) && k in t && Keyed(t - {k}, hash)
    requires Cities(t - {k}) == Cities(t) - {t[k].city}
    requires c in Joined(Absorb(m, t[k]), t - {k}, hash) && c in Joined(m, t, hash)
    ensures Joined(Absorb(m, t[k]), t - {k}, hash)[c] == Joined(m, t, hash)[c]
  {
    CityAt(t, hash, c);
    if c != t[k].city && c in Cities(t) {
      CityAt(t - {k}, hash, c);
    }
  }

  lemma JoinedKeys(m: Totals, t: Table, hash: Hasher)
    requires Keyed(t, hash)
    ensures Joined(m, t, hash).Keys == m.Keys + Cities(t)
  {
  }

  /** Nothing to absorb leaves the map as it is. */
  lemma JoinedEmpty(m: Totals, t: Table, hash: Hasher)
    requires |t| == 0
    ensures Keyed(t, hash) && Joined(m, t, hash) == m
  {
    assert Cities(t) == {};
  }

  /** The inner loop of the merge: the records of one chunk table, in the
      table's own iteration order, which the model leaves open. */
  method MergeChunk(m0: Totals, t: Table, ghost hash: Hasher) returns (m: Totals)
    requires Keyed(t, hash)
    ensures m == Joined(m0, t, hash)
  {
    m := m0;
    var rest := t;
    while rest != map[]
      invariant Keyed(rest, hash)
      invariant Joined(m, rest, hash) == Joined(m0, t, hash)
      decreases |rest|
    {
      var k :| k in rest;
      AbsorbJoined(m, rest, k, hash);
      m := Absorb(m, rest[k]);
      rest := rest - {k};
    }
    JoinedEmpty(m, rest, hash);
  }

  ghost predicate AllKeyed(tables: seq<Table>, hash: Hasher)
  {
    forall i :: 0 <= i < |tables| ==> Keyed(tables[i], hash)
  }

  /** The chunk tables joined into `m` in the order they arrive. */
  function JoinAll(m: Totals, tables: seq<Table>, hash: Hasher): Totals
    requires AllKeyed(tables, hash)
    decreases |tables|
  {
    if |tables| == 0 then m else JoinAll(Joined(m, tables[0], hash), tables[1..], hash)
  }

  /** The outer loop of the merge: one chunk table after another, as the
      channel delivers them. */
  method MergeChunks(tables: seq<Table>, ghost hash: Hasher) returns (m: Totals)
    requires AllKeyed(tables, hash)
    ensures m == JoinAll(map[], tables, hash)
  {
    m := map[];
    for i := 0 to |tables|
      invariant JoinAll(map[], tables, hash) == JoinAll(m, tables[i..], hash)
    {
      assert tables[i..][1..] == tables[i + 1..];
      m := MergeChunk(m, tables[i], hash);
    }
  }

  // ---------------------------------------------------------------------------
  // Properties of the merge

  /** Two chunk tables merge to the same map in either order, so the order in
      which the worker threads finish does not matter. */
  lemma JoinedCommutes(m: Totals, t1: Table, t2: Table, hash: Hasher)
    requires Keyed(t1, hash) && Keyed(t2, hash)
    ensures Joined(Joined(m, t1, hash), t2, hash) == Joined(Joined(m, t2, hash), t1, hash)
  {
    JoinedTwiceSameKeys(m, t1, t2, hash);
    JoinedCommutesPointwise(m, t1, t2, hash);
    SameEntries(Joined(Joined(m, t1, hash), t2, hash), Joined(Joined(m, t2, hash), t1, hash));
  }

  lemma JoinedTwiceSameKeys(m: Totals, t1: Table, t2: Table, hash: Hasher)
    requires Keyed(t1, hash) && Keyed(t2, hash)
    ensures Joined(Joined(m, t1, hash), t2, hash).Keys == Joined(Joined(m, t2, hash), t1, hash).Keys
  {
    JoinedTwiceKeys(m, t1, t2, hash);
    JoinedTwiceKeys(m, t2, t1, hash);
  }

  lemma JoinedCommutesPointwise(m: Totals, t1: Table, t2: Table, hash: Hasher)
    requires Keyed(t1, hash) && Keyed(t2, hash)
    ensures forall c :: c in Joined(Joined(m, t1, hash), t2, hash) ==>
      Joined(Joined(m, t1, hash), t2, hash)[c] == Joined(Joined(m, t2, hash), t1, hash)[c]
  {
    JoinedTwiceKeys(m, t1, t2, hash);
    forall c | c in Joined(Joined(m, t1, hash), t2, hash)
      ensures Joined(Joined(m, t1, hash), t2, hash)[c] == Joined(Joined(m, t2, hash), t1, hash)[c]
    {
      JoinedCommutesAt(m, t1, t2, hash, c);
    }
  }

  lemma JoinedTwiceKeys(m: Totals, t1: Table, t2: Table, hash: Hasher)
    requires Keyed(t1, hash) && Keyed(t2, hash)
    ensures Joined(Joined(m, t1, hash), t2, hash).Keys == m.Keys + Cities(t1) + Cities(t2)
  {
    JoinedKeys(m, t1, hash);
    JoinedKeys(Joined(m, t1, hash), t2, hash);
  }

  lemma SameEntries(a: Totals, b: Totals)
    requires a.Keys == b.Keys && forall c :: c in a ==> a[c] == b[c]
    ensures a == b
  {
  }

  lemma JoinedCommutesAt(m: Totals, t1: Table, t2: Table, hash: Hasher, c: seq<byte>)
    requires Keyed(t1, hash) && Keyed(t2, hash)
    requires c in m || c in Cities(t1) || c in Cities(t2)
    ensures c in Joined(Joined(m, t1, hash), t2, hash) && c in Joined(Joined(m, t2, hash), t1, hash)
    ensures Joined(Joined(m, t1, hash), t2, hash)[c] == Joined(Joined(m, t2, hash), t1, hash)[c]
  {
    JoinedTwiceKeys(m, t1, t2, hash);
    JoinedTwiceKeys(m, t2, t1, hash);
    if c in Cities(t1) && c in Cities(t2) {
      CityAt(t1, hash, c);
      CityAt(t2, hash, c);
      var a, b := t1[hash(c)], t2[hash(c)];
      MergeCommutes(a, b);
      if c in m {
        MergeAssociative(m[c], a, b);
        MergeAssociative(m[c], b, a);
      }
    }
  }

  /** Swapping two chunk tables that arrive one after the other changes
      nothing; any arrival order is a sequence of such swaps. */
  lemma {:induction false} JoinAllSwap(m: Totals, a: seq<Table>, t1: Table, t2: Table, b: seq<Table>, hash: Hasher)
    requires AllKeyed(a + [t1, t2] + b, hash)
    ensures AllKeyed(a + [t2, t1] + b, hash)
    ensures JoinAll(m, a + [t1, t2] + b, hash) == JoinAll(m, a + [t2, t1] + b, hash)
    decreases |a|
  {
    var x, y := a + [t1, t2] + b, a + [t2, t1] + b;
    AllKeyedSwap(a, t1, t2, b, hash);
    PairAt(a, t1, t2, b);
    PairAt(a, t2, t1, b);
    JoinAllStep(m, x, hash);
    JoinAllStep(m, y, hash);
    if |a| == 0 {
      JoinAllStep(Joined(m, t1, hash), x[1..], hash);
      JoinAllStep(Joined(m, t2, hash), y[1..], hash);
      JoinedCommutes(m, t1, t2, hash);
    } else {
      JoinAllSwap(Joined(m, a[0], hash), a[1..], t1, t2, b, hash);
    }
  }

  lemma AllKeyedSwap(a: seq<Table>, t1: Table, t2: Table, b: seq<Table>, hash: Hasher)
    requires AllKeyed(a + [t1, t2] + b, hash)
    ensures AllKeyed(a + [t2, t1] + b, hash)
  {
    var x, y := a + [t1, t2] + b, a + [t2, t1] + b;
    forall i | 0 <= i < |y| ensures Keyed(y[i], hash) {
      if i == |a| { assert y[i] == x[i + 1]; }
      else if i == |a| + 1 { assert y[i] == x[i - 1]; }
      else { assert y[i] == x[i]; }
    }
  }

  /** Where the pair sits in `a + [p, q] + b`, seen from its front. */
  lemma PairAt<T>(a: seq<T>, p: T, q: T, b: seq<T>)
    ensures var x := a + [p, q] + b;
      && (|a| == 0 ==> x[0] == p && x[1..][0] == q && x[1..][1..] == b)
      && (|a| > 0 ==> x[0] == a[0] && x[1..] == a[1..] + [p, q] + b)
  {
    var x := a + [p, q] + b;
    if |a| > 0 {
      assert x[1..] == a[1..] + [p, q] + b;
    } else {
      assert x[1..][1..] == b;
    }
  }

  /** The cities of all chunk tables. */
  function CitiesOf(tables: seq<Table>): set<seq<byte>>
  {
    if |tables| == 0 then {} else Cities(tables[0]) + CitiesOf(tables[1..])
  }

  /** The merged map has one entry per distinct city named by a chunk
      record, filed under that city. */
  lemma {:induction false} JoinAllKeys(m: Totals, tables: seq<Table>, hash: Hasher)
    requires AllKeyed(tables, hash) && Named(m)
    ensures JoinAll(m, tables, hash).Keys == m.Keys + CitiesOf(tables)
    ensures Named(JoinAll(m, tables, hash))
    decreases |tables|
  {
    if |tables| > 0 {
      var t := tables[0];
      var j := Joined(m, t, hash);
      forall c | c in j ensures j[c].city == c {
        CityAt(t, hash, c);
      }
      JoinAllKeys(j, tables[1..], hash);
    }
  }

  // ---------------------------------------------------------------------------
  // Without collisions inside a chunk the merged map is exact

  /** `m` holds, for each city with samples in `ss` and no other, the
      statistics of exactly that city's samples, under its name. */
  ghost predicate Exact(m: Totals, ss: seq<Sample>)
  {
    (forall c :: c in m <==> ValuesOf(ss, c) != [])
    && forall c :: c in m ==> Summarizes(m[c], c, ValuesOf(ss, c))
  }

  /** The samples determine the exact map: two exact maps are equal. */
  lemma ExactUnique(m1: Totals, m2: Totals, ss: seq<Sample>)
    requires Exact(m1, ss) && Exact(m2, ss)
    ensures m1 == m2
  {
    forall c | c in m1 ensures m1[c] == m2[c] {
      assert Summarizes(m1[c], c, ValuesOf(ss, c)) && Summarizes(m2[c], c, ValuesOf(ss, c));
    }
    SameEntries(m1, m2);
  }

  /** Without collisions a chunk table names exactly the cities with
      samples, each in the slot of its hash with that city's statistics. */
  lemma CitiesOfBuild(ss: seq<Sample>, hash: Hasher, c: seq<byte>)
    requires NoCollisions(ss, hash)
    ensures Keyed(Build(ss, hash), hash)
    ensures c in Cities(Build(ss, hash)) <==> ValuesOf(ss, c) != []
    ensures ValuesOf(ss, c) != [] ==>
      hash(c) in Build(ss, hash) && Summarizes(Build(ss, hash)[hash(c)], c, ValuesOf(ss, c))
  {
    var t := Build(ss, hash);
    BuildNamed(ss, hash);
    ValuesOfEmpty(ss, c);
    if ValuesOf(ss, c) != [] {
      var i :| 0 <= i < |ss| && ss[i].city == c;
      assert Alone(ss, hash, c) by {
        forall j | 0 <= j < |ss| && ss[j].city != c ensures hash(ss[j].city) != hash(c) {
          assert ss[j] in ss && ss[i] in ss;
        }
      }
      BuildSlot(ss, hash, c);
      assert t[hash(c)].city == c;
    }
    if c in Cities(t) {
      var k :| k in t && t[k].city == c;
    }
  }

  /** Joining the table of a chunk without collisions into an exact map
      gives the exact map of the samples seen so far. */
  lemma JoinedExact(m: Totals, p: seq<Sample>, ss: seq<Sample>, hash: Hasher)
    requires Exact(m, p) && NoCollisions(ss, hash)
    ensures Keyed(Build(ss, hash), hash)
    ensures Exact(Joined(m, Build(ss, hash), hash), p + ss)
  {
    BuildNamed(ss, hash);
    var j := Joined(m, Build(ss, hash), hash);
    forall c ensures (c in j <==> ValuesOf(p + ss, c) != [])
      && (c in j ==> Summarizes(j[c], c, ValuesOf(p + ss, c)))
    {
      JoinedExactAt(m, p, ss, hash, c);
    }
  }

  lemma JoinedExactAt(m: Totals, p: seq<Sample>, ss: seq<Sample>, hash: Hasher, c: seq<byte>)
    requires Exact(m, p) && NoCollisions(ss, hash) && Keyed(Build(ss, hash), hash)
    ensures c in Joined(m, Build(ss, hash), hash) <==> ValuesOf(p + ss, c) != []
    ensures c in Joined(m, Build(ss, hash), hash) ==>
      Summarizes(Joined(m, Build(ss, hash), hash)[c], c, ValuesOf(p + ss, c))
  {
    var t := Build(ss, hash);
    CitiesOfBuild(ss, hash, c);
    CityAt(t, hash, c);
    ValuesOfConcat(p, ss, c);
    var s, u := ValuesOf(p, c), ValuesOf(ss, c);
    if c in m && c in Cities(t) {
      MergeSummarizes(m[c], t[hash(c)], c, s, c, u);
    } else if c in Cities(t) {
      assert s + u == u;
    } else if c in m {
      assert s + u == s;
    }
  }

  /** The samples of all chunks, chunk after chunk. */
  function Flatten(sss: seq<seq<Sample>>): seq<Sample>
  {
    if |sss| == 0 then [] else sss[0] + Flatten(sss[1..])
  }

  /** The table of each chunk. */
  function Builds(sss: seq<seq<Sample>>, hash: Hasher): (r: seq<Table>)
    ensures |r| == |sss|
    ensures forall i :: 0 <= i < |sss| ==> r[i] == Build(sss[i], hash)
  {
    seq(|sss|, i requires 0 <= i < |sss| => Build(sss[i], hash))
  }

  ghost predicate NoCollisionsInChunks(sss: seq<seq<Sample>>, hash: Hasher)
  {
    forall i :: 0 <= i < |sss| ==> NoCollisions(sss[i], hash)
  }

  /** As long as no two cities of one chunk share a hash, the merged map is
      exact for the samples of all chunks: one entry per city with samples,
      holding exactly that city's statistics. Collisions between cities of
      different chunks do no harm, since the merge compares city text. */
  lemma {:induction false} JoinAllExact(m: Totals, p: seq<Sample>, sss: seq<seq<Sample>>, hash: Hasher)
    requires Exact(m, p) && NoCollisionsInChunks(sss, hash)
    ensures AllKeyed(Builds(sss, hash), hash)
    ensures Exact(JoinAll(m, Builds(sss, hash), hash), p + Flatten(sss))
    decreases |sss|
  {
    BuildsKeyed(sss, hash);
    if |sss| == 0 {
      assert p + [] == p;
    } else {
      var tables, rest := Builds(sss, hash), sss[1..];
      JoinedExact(m, p, sss[0], hash);
      BuildsTail(sss, hash);
      assert NoCollisionsInChunks(rest, hash) by {
        assert forall i :: 0 <= i < |rest| ==> rest[i] == sss[i + 1];
      }
      JoinAllExact(Joined(m, tables[0], hash), p + sss[0], rest, hash);
      JoinAllStep(m, tables, hash);
      FlattenCons(p, sss);
    }
  }

  /** Joining a non-empty run of tables joins the first one, then the rest. */
  lemma JoinAllStep(m: Totals, tables: seq<Table>, hash: Hasher)
    requires AllKeyed(tables, hash) && |tables| > 0
    ensures Keyed(tables[0], hash) && AllKeyed(tables[1..], hash)
    ensures JoinAll(m, tables, hash) == JoinAll(Joined(m, tables[0], hash), tables[1..], hash)
  {
  }

  lemma FlattenCons(p: seq<Sample>, sss: seq<seq<Sample>>)
    requires |sss| > 0
    ensures p + Flatten(sss) == p + sss[0] + Flatten(sss[1..])
  {
  }

  lemma BuildsKeyed(sss: seq<seq<Sample>>, hash: Hasher)
    ensures AllKeyed(Builds(sss, hash), hash)
  {
    forall i | 0 <= i < |sss| ensures Keyed(Builds(sss, hash)[i], hash) {
      BuildNamed(sss[i], hash);
    }
  }

  lemma BuildsTail(sss: seq<seq<Sample>>, hash: Hasher)
    requires |sss| > 0
    ensures Builds(sss, hash)[1..] == Builds(sss[1..], hash)
  {
  }
}
