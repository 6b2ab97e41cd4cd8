/** `Record` of src/lib.rs: the running minimum, sum, maximum and count of one
    city's samples. Samples are integers in tenths of a degree (the `i64`
    that `value` produces) instead of `f32`. */
module Records {
  import opened Bytes

  /** The statistics of one city; `city` is the name the record was created with. */
  datatype Record = Record(city: seq<byte>, min: int, sum: int, max: int, count: nat)

  // ---------------------------------------------------------------------------
  // What a record stands for: the samples it has seen

  function MinOf(s: seq<int>): int
    requires |s| > 0
  {
    if |s| == 1 then s[0] else Min(MinOf(s[..|s| - 1]), s[|s| - 1])
  }

  function MaxOf(s: seq<int>): int
    requires |s| > 0
  {
    if |s| == 1 then s[0] else Max(MaxOf(s[..|s| - 1]), s[|s| - 1])
  }

  function SumOf(s: seq<int>): int
  {
    if |s| == 0 then 0 else SumOf(s[..|s| - 1]) + s[|s| - 1]
  }

  /** `r` holds the statistics of the non-empty list of samples `samples`
      for `city`. */
  ghost predicate Summarizes(r: Record, city: seq<byte>, samples: seq<int>)
  {
    |samples| > 0
    && r.city == city
    && r.min == MinOf(samples)
    && r.max == MaxOf(samples)
    && r.sum == SumOf(samples)
    && r.count == |samples|
  }

  // ---------------------------------------------------------------------------
  // The operations

  /** `Record::new`: the record of a single sample. */
  function New(value: int, city: seq<byte>): Record
  {
    Record(city, value, value, value, 1)
  }

  /** `Record::add`: fold one more sample in. */
  function Add(r: Record, value: int): (s: Record)
    ensures s.city == r.city
    ensures s.min <= value <= s.max
    ensures s.min <= r.min && s.max >= r.max
    ensures s.min == r.min || s.min == value
    ensures s.max == r.max || s.max == value
    ensures s.sum == r.sum + value && s.count == r.count + 1
  {
    var min := if value < r.min then value else r.min;
    var max := if value > r.max then value else r.max;
    Record(r.city, min, r.sum + value, max, r.count + 1)
  }

  /** `Record::merge`: fold another record's statistics in; the city of
      `self` is kept. */
  function Merge(r: Record, other: Record): (s: Record)
    ensures s.city == r.city
    ensures s.min <= r.min && s.min <= other.min && (s.min == r.min || s.min == other.min)
    ensures s.max >= r.max && s.max >= other.max && (s.max == r.max || s.max == other.max)
    ensures s.sum == r.sum + other.sum && s.count == r.count + other.count
  {
    var min := if other.min < r.min then other.min else r.min;
    var max := if other.max > r.max then other.max else r.max;
    Record(r.city, min, r.sum + other.sum, max, r.count + other.count)
  }

  // ---------------------------------------------------------------------------
  // Properties

  lemma {:induction false} MinOfConcat(s: seq<int>, t: seq<int>)
    requires |s| > 0 && |t| > 0
    ensures MinOf(s + t) == Min(MinOf(s), MinOf(t))
    decreases |t|
  {
    if |t| == 1 {
      assert (s + t)[..|s + t| - 1] == s;
    } else {
      var u := t[..|t| - 1];
      assert (s + t)[..|s + t| - 1] == s + u;
      MinOfConcat(s, u);
    }
  }

  lemma {:induction false} MaxOfConcat(s: seq<int>, t: seq<int>)
    requires |s| > 0 && |t| > 0
    ensures MaxOf(s + t) == Max(MaxOf(s), MaxOf(t))
    decreases |t|
  {
    if |t| == 1 {
      assert (s + t)[..|s + t| - 1] == s;
    } else {
      var u := t[..|t| - 1];
      assert (s + t)[..|s + t| - 1] == s + u;
      MaxOfConcat(s, u);
    }
  }

  lemma {:induction false} SumOfConcat(s: seq<int>, t: seq<int>)
    ensures SumOf(s + t) == SumOf(s) + SumOf(t)
    decreases |t|
  {
    if |t| == 0 {
      assert s + t == s;
    } else {
      var u := t[..|t| - 1];
      assert (s + t)[..|s + t| - 1] == s + u;
      SumOfConcat(s, u);
    }
  }

  /** `new` summarises its one sample. */
  lemma NewSummarizes(value: int, city: seq<byte>)
    ensures Summarizes(New(value, city), city, [value])
  {
  }

  /** `add` extends the summarised samples by the new one, at the end. */
  lemma AddSummarizes(r: Record, city: seq<byte>, samples: seq<int>, value: int)
    requires Summarizes(r, city, samples)
    ensures Summarizes(Add(r, value), city, samples + [value])
  {
    var s := samples + [value];
    assert s[..|s| - 1] == samples;
  }

  /** `merge` summarises the samples of both records, whatever the city of
      `other`. */
  lemma MergeSummarizes(r: Record, other: Record, city: seq<byte>, s: seq<int>, otherCity: seq<byte>, t: seq<int>)
    requires Summarizes(r, city, s) && Summarizes(other, otherCity, t)
    ensures Summarizes(Merge(r, other), city, s + t)
  {
    MinOfConcat(s, t);
    MaxOfConcat(s, t);
    SumOfConcat(s, t);
  }

  /** `add` is `merge` with the single-sample record. */
  lemma AddIsMergeNew(r: Record, value: int, city: seq<byte>)
    ensures Add(r, value) == Merge(r, New(value, city))
  {
  }

  /** Records of the same city merge to the same record in either order. */
  lemma MergeCommutes(a: Record, b: Record)
    requires a.city == b.city
    ensures Merge(a, b) == Merge(b, a)
  {
  }

  lemma MergeAssociative(a: Record, b: Record, c: Record)
    ensures Merge(Merge(a, b), c) == Merge(a, Merge(b, c))
  {
  }

  /** The minimum of a non-empty list is at most its maximum. */
  lemma {:induction false} MinAtMostMax(s: seq<int>)
    requires |s| > 0
    ensures MinOf(s) <= MaxOf(s)
    decreases |s|
  {
    if |s| > 1 {
      MinAtMostMax(s[..|s| - 1]);
    }
  }

  lemma ScaleBelow(a: int, b: int, n: nat)
    requires a <= b
    ensures a * n <= b * n
  {
  }

  /** The sum lies between count times the minimum and count times the
      maximum, so the mean `Record::write` prints lies between the two. */
  lemma {:induction false} SumBetween(s: seq<int>)
    requires |s| > 0
    ensures MinOf(s) * |s| <= SumOf(s) <= MaxOf(s) * |s|
    decreases |s|
  {
    if |s| > 1 {
      var p, x := s[..|s| - 1], s[|s| - 1];
      SumBetween(p);
      BetweenStep(MinOf(s), MaxOf(s), MinOf(p), MaxOf(p), SumOf(p), x, |p|);
    }
  }

  /** One more value within `lo..hi` keeps a sum of `n` values bounded by
      `lo'..hi'` inside `lo..hi` times `n + 1`. */
  lemma BetweenStep(lo: int, hi: int, lo': int, hi': int, sum: int, x: int, n: nat)
    requires lo <= lo' && hi' <= hi && lo <= x <= hi
    requires lo' * n <= sum <= hi' * n
    ensures lo * (n + 1) <= sum + x <= hi * (n + 1)
  {
    ScaleBelow(lo, lo', n);
    ScaleBelow(hi', hi, n);
    assert lo * (n + 1) == lo * n + lo;
    assert hi * (n + 1) == hi * n + hi;
  }
}

/** `Record` as the mutable struct it is in a table slot: `add` and `merge`
    update its fields in place. */
module RecordSlots {
  import opened Bytes
  import Records

  class Slot {
    const city: seq<byte>
    var min: int
    var sum: int
    var max: int
    var count: nat

    /** The record the fields hold. */
    function Value(): Records.Record
      reads this
    {
      Records.Record(city, min, sum, max, count)
    }

    /** `Record::new`. */
    constructor (value: int, city: seq<byte>)
      ensures Value() == Records.New(value, city)
    {
      this.city := city;
      min, sum, max, count := value, value, value, 1;
    }

    /** `Record::add`, field by field. */
    method Add(value: int)
      modifies this
      ensures Value() == Records.Add(old(Value()), value)
    {
      if value < min {
        min := value;
      }
      if value > max {
        max := value;
      }
      sum := sum + value;
      count := count + 1;
    }

    /** `Record::merge`, field by field; the slot keeps its city. */
    method Merge(other: Records.Record)
      modifies this
      ensures Value() == Records.Merge(old(Value()), other)
    {
      if other.min < min {
        min := other.min;
      }
      if other.max > max {
        max := other.max;
      }
      sum := sum + other.sum;
      count := count + other.count;
    }
  }
}
