/** The output assembly of `parse_from_str` (src/lib.rs:214-228): the merged
    records in ascending order of city, each written as `city=text`, joined
    by ", " and wrapped in `{` and `}\n`. */
module Output {
  import opened Bytes
  import opened Records
  import opened CityTotals

  const LBRACE: byte := 0x7B
  const EQUALS: byte := 0x3D
  const SEPARATOR: seq<byte> := [0x2C, 0x20]
  const CLOSE: seq<byte> := [0x7D, NEWLINE]

  // ---------------------------------------------------------------------------
  // The order of `BTreeMap<&str, _>`: `str` compares its bytes
  // lexicographically, a proper prefix coming first

  predicate Below(a: seq<byte>, b: seq<byte>)
  {
    |b| > 0 && (|a| == 0 || a[0] < b[0] || (a[0] == b[0] && Below(a[1..], b[1..])))
  }

  lemma {:induction false} BelowIrreflexive(a: seq<byte>)
    ensures !Below(a, a)
  {
    if |a| > 0 {
      BelowIrreflexive(a[1..]);
    }
  }

  lemma {:induction false} BelowTransitive(a: seq<byte>, b: seq<byte>, c: seq<byte>)
    requires Below(a, b) && Below(b, c)
    ensures Below(a, c)
  {
    if |a| > 0 && a[0] == b[0] && b[0] == c[0] {
      BelowTransitive(a[1..], b[1..], c[1..]);
    }
  }

  lemma {:induction false} BelowTotal(a: seq<byte>, b: seq<byte>)
    requires a != b
    ensures Below(a, b) || Below(b, a)
  {
    if |a| > 0 && |b| > 0 && a[0] == b[0] {
      assert a == [a[0]] + a[1..] && b == [b[0]] + b[1..];
      BelowTotal(a[1..], b[1..]);
    }
  }

  /** Every city comes before every later one. */
  predicate Ascending(keys: seq<seq<byte>>)
  {
    forall i, j :: 0 <= i < j < |keys| ==> Below(keys[i], keys[j])
  }

  /** A non-empty set of cities has a least one. */
  lemma {:induction false} LeastExists(s: set<seq<byte>>)
    requires s != {}
    ensures exists c :: c in s && forall d :: d in s && d != c ==> Below(c, d)
    decreases |s|
  {
    var x :| x in s;
    var rest := s - {x};
    if rest == {} {
      assert forall d :: d in s && d != x ==> d in rest;
    } else {
      LeastExists(rest);
      var c :| c in rest && forall d :: d in rest && d != c ==> Below(c, d);
      BelowTotal(c, x);
      if Below(c, x) {
        assert forall d :: d in s && d != c ==> Below(c, d);
      } else {
        forall d | d in s && d != x ensures Below(x, d) {
          if d != c {
            BelowTransitive(x, c, d);
          }
        }
      }
    }
  }

  /** Every finite set of cities can be listed in ascending order. */
  lemma {:induction false} SortedExists(s: set<seq<byte>>)
    ensures exists keys :: Ascending(keys) && forall c :: c in keys <==> c in s
    decreases |s|
  {
    if s == {} {
      assert Ascending([]) && forall c :: c in [] <==> c in s;
    } else {
      LeastExists(s);
      var c :| c in s && forall d :: d in s && d != c ==> Below(c, d);
      SortedExists(s - {c});
      var rest :| Ascending(rest) && forall d :: d in rest <==> d in s - {c};
      var keys := [c] + rest;
      assert forall i :: 1 <= i < |keys| ==> keys[i] == rest[i - 1];
      assert forall d :: d in keys <==> d == c || d in rest;
      assert Ascending(keys) by {
        forall i, j | 0 <= i < j < |keys| ensures Below(keys[i], keys[j]) {
          if i == 0 {
            assert keys[j] in rest;
          } else {
            assert Below(rest[i - 1], rest[j - 1]);
          }
        }
      }
    }
  }

  /** The cities of the map in ascending order. */
  ghost function Sorted(m: Totals): (keys: seq<seq<byte>>)
    ensures Ascending(keys) && forall c :: c in keys <==> c in m
  {
    SortedExists(m.Keys);
    var keys :| Ascending(keys) && forall c :: c in keys <==> c in m.Keys;
    keys
  }

  /** The cities of the map in the order `BTreeMap::iter` visits them: each
      step takes the least city not yet taken. */
  method InOrder(m: Totals) returns (keys: seq<seq<byte>>)
    ensures Ascending(keys)
    ensures forall c :: c in keys <==> c in m
    ensures keys == Sorted(m)
  {
    var rest := m.Keys;
    keys := [];
    while rest != {}
      invariant Ascending(keys)
      invariant forall c :: c in m <==> c in keys || c in rest
      invariant forall i, d :: 0 <= i < |keys| && d in rest ==> Below(keys[i], d)
      decreases |rest|
    {
      LeastExists(rest);
      var c :| c in rest && forall d :: d in rest && d != c ==> Below(c, d);
      keys := keys + [c];
      rest := rest - {c};
    }
    AscendingUnique(keys, Sorted(m));
  }

  /** Only one ascending sequence lists a given set of cities, so the order
      of the output is fully determined by the map. */
  lemma {:induction false} AscendingUnique(a: seq<seq<byte>>, b: seq<seq<byte>>)
    requires Ascending(a) && Ascending(b)
    requires forall c :: c in a <==> c in b
    ensures a == b
    decreases |a|
  {
    if |a| == 0 {
      EmptyIfNoMembers(b);
    } else {
      assert a[0] in b;
      assert |b| > 0;
      if a[0] != b[0] {
        assert b[0] in a;
        var i :| 0 <= i < |a| && a[i] == b[0];
        var j :| 0 <= j < |b| && b[j] == a[0];
        BelowTransitive(a[0], b[0], a[0]);
        BelowIrreflexive(a[0]);
      }
      forall c ensures c in a[1..] <==> c in b[1..] {
        AscendingTail(a, c);
        AscendingTail(b, c);
      }
      AscendingUnique(a[1..], b[1..]);
      assert a == [a[0]] + a[1..] && b == [b[0]] + b[1..];
    }
  }

  lemma EmptyIfNoMembers(b: seq<seq<byte>>)
    ensures (forall c :: c !in b) ==> b == []
  {
    if |b| > 0 {
      assert b[0] in b;
    }
  }

  /** The tail of an ascending sequence is the rest of it without its head. */
  lemma AscendingTail(a: seq<seq<byte>>, c: seq<byte>)
    requires Ascending(a) && |a| > 0
    ensures Ascending(a[1..])
    ensures c in a[1..] <==> c in a && c != a[0]
  {
    if c in a[1..] {
      var i :| 0 <= i < |a[1..]| && a[1..][i] == c;
      assert Below(a[0], a[i + 1]);
      BelowIrreflexive(c);
    }
    if c in a && c != a[0] {
      var i :| 0 <= i < |a| && a[i] == c;
      assert a[1..][i - 1] == c;
    }
  }

  // ---------------------------------------------------------------------------
  // The text

  /** `city=` followed by `Record::write`'s text for the record. */
  function Entry(city: seq<byte>, r: Record, text: Record -> seq<byte>): seq<byte>
  {
    city + [EQUALS] + text(r)
  }

  /** The entries of the listed cities, in the order listed. */
  function Entries(m: Totals, keys: seq<seq<byte>>, text: Record -> seq<byte>): (r: seq<seq<byte>>)
    requires forall c :: c in keys ==> c in m
    ensures |r| == |keys|
    ensures forall i :: 0 <= i < |keys| ==> r[i] == Entry(keys[i], m[keys[i]], text)
  {
    seq(|keys|, i requires 0 <= i < |keys| => Entry(keys[i], m[keys[i]], text))
  }

  /** The whole output: `{`, the entries separated by ", ", then `}\n`. */
  function Document(entries: seq<seq<byte>>): seq<byte>
  {
    [LBRACE] + Join(entries, SEPARATOR) + CLOSE
  }

  lemma {:induction false} JoinSnoc(items: seq<seq<byte>>, x: seq<byte>, sep: seq<byte>)
    ensures Join(items + [x], sep) == if |items| == 0 then x else Join(items, sep) + sep + x
    decreases |items|
  {
    if |items| == 1 {
      assert (items + [x])[1..] == [x];
    } else if |items| > 1 {
      assert (items + [x])[1..] == items[1..] + [x];
      JoinSnoc(items[1..], x, sep);
    }
  }

  /** The loop that writes the output buffer: one entry per listed city,
      with ", " after every entry but the last. */
  method Render(m: Totals, keys: seq<seq<byte>>, text: Record -> seq<byte>) returns (out: seq<byte>)
    requires forall c :: c in keys ==> c in m
    ensures out == Document(Entries(m, keys, text))
  {
    ghost var entries := Entries(m, keys, text);
    out := [LBRACE];
    for idx := 0 to |keys|
      invariant out == Written(entries, idx)
    {
      var before := out;
      out := out + keys[idx];
      out := out + [EQUALS];
      out := out + text(m[keys[idx]]);
      assert out == before + entries[idx];
      if idx + 1 != |keys| {
        out := out + SEPARATOR;
      }
      WrittenStep(entries, idx);
    }
    TakeAll(entries);
    out := out + CLOSE;
  }

  /** The buffer after `idx` entries: `{`, those entries joined, and the
      separator already written after the last of them if more follow. */
  ghost function Written(entries: seq<seq<byte>>, idx: nat): seq<byte>
    requires idx <= |entries|
  {
    [LBRACE] + Join(entries[..idx], SEPARATOR) + (if 0 < idx < |entries| then SEPARATOR else [])
  }

  lemma WrittenStep(entries: seq<seq<byte>>, idx: nat)
    requires idx < |entries|
    ensures Written(entries, idx + 1)
         == Written(entries, idx) + entries[idx] + (if idx + 1 != |entries| then SEPARATOR else [])
  {
    JoinSnoc(entries[..idx], entries[idx], SEPARATOR);
    TakeNext(entries, idx);
  }

  /** The total length of the items. */
  function Lengths(items: seq<seq<byte>>): nat
  {
    if |items| == 0 then 0 else |items[0]| + Lengths(items[1..])
  }

  /** Joining puts exactly one separator between consecutive items: the
      result is the items' bytes plus `|items| - 1` separators. */
  lemma {:induction false} JoinLength(items: seq<seq<byte>>, sep: seq<byte>)
    requires |items| > 0
    ensures |Join(items, sep)| == Lengths(items) + (|items| - 1) * |sep|
    decreases |items|
  {
    if |items| > 1 {
      JoinLength(items[1..], sep);
    } else {
      assert Lengths(items[1..]) == 0;
    }
  }

  /** The output opens with `{`, closes with `}\n`, and between them holds the
      entries and `|entries| - 1` separators; no city at all gives `{}\n`. */
  lemma DocumentShape(entries: seq<seq<byte>>)
    ensures var d := Document(entries);
      |d| >= 3 && d[0] == LBRACE && d[|d| - 2..] == CLOSE
      && |d| == 3 + (if |entries| == 0 then 0 else Lengths(entries) + (|entries| - 1) * 2)
  {
    if |entries| > 0 {
      JoinLength(entries, SEPARATOR);
    }
  }
}
