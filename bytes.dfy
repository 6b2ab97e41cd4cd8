/** Byte-level vocabulary shared by the whole model: the input is a byte
    buffer, slices of it are byte sequences, and `memchr` is a search for the
    first occurrence of one byte. */
module Bytes {

  type byte = bv8

  const NEWLINE: byte := 0x0A
  const SEMICOLON: byte := 0x3B

  datatype Option<+T> = None | Some(value: T)

  /** `memchr(b, s)`: the index of the first occurrence of `b` in `s`. */
  function IndexOf(s: seq<byte>, b: byte): (r: Option<nat>)
    ensures r.Some? ==> r.value < |s| && s[r.value] == b && b !in s[..r.value]
    ensures r.None? <==> b !in s
  {
    if |s| == 0 then None
    else if s[0] == b then Some(0)
    else match IndexOf(s[1..], b)
      case None => None
      case Some(i) =>
        assert s[..i + 1] == [s[0]] + s[1..][..i];
        Some(i + 1)
  }

  /** A sequence is what comes before index `i`, the element there, and what
      comes after. */
  lemma SplitAt(s: seq<byte>, i: nat)
    requires i < |s|
    ensures s == s[..i] + [s[i]] + s[i + 1..]
  {
    var t := s[..i] + [s[i]] + s[i + 1..];
    assert |t| == |s|;
    forall k | 0 <= k < |s| ensures t[k] == s[k] {
      if k < i {
        assert t[k] == s[..i][k];
      } else if k > i {
        assert t[k] == s[i + 1..][k - i - 1];
      }
    }
  }

  lemma ConsAssociative<T>(x: T, y: seq<T>, z: seq<T>)
    ensures [x] + (y + z) == [x] + y + z
  {
  }

  lemma AppendTail<T>(a: seq<T>, b: seq<T>)
    requires |a| > 0
    ensures (a + b)[0] == a[0] && (a + b)[1..] == a[1..] + b
  {
  }

  lemma TakeNext<T>(s: seq<T>, i: nat)
    requires i < |s|
    ensures s[..i + 1] == s[..i] + [s[i]]
  {
  }

  lemma TakeAll<T>(s: seq<T>)
    ensures s[..|s|] == s
  {
  }

  /** `IndexOf` finds exactly the first occurrence. */
  lemma IndexOfFirst(s: seq<byte>, b: byte, i: nat)
    requires i < |s| && s[i] == b && b !in s[..i]
    ensures IndexOf(s, b) == Some(i)
  {
  }

  lemma JoinCons(x: seq<byte>, items: seq<seq<byte>>, sep: seq<byte>)
    requires |items| > 0
    ensures Join([x] + items, sep) == x + sep + Join(items, sep)
  {
    assert ([x] + items)[1..] == items;
  }

  /** The bytes of an ASCII string literal. */
  function Ascii(s: string): seq<byte>
    requires forall i :: 0 <= i < |s| ==> s[i] as int < 128
  {
    if |s| == 0 then [] else [(s[0] as int) as byte] + Ascii(s[1..])
  }

  /** All slices laid end to end. */
  function Concat(ss: seq<seq<byte>>): (r: seq<byte>)
  {
    if |ss| == 0 then [] else ss[0] + Concat(ss[1..])
  }

  lemma {:induction false} ConcatAppend(ss: seq<seq<byte>>, s: seq<byte>)
    ensures Concat(ss + [s]) == Concat(ss) + s
  {
    if |ss| == 0 {
      assert ss + [s] == [s];
    } else {
      assert (ss + [s])[1..] == ss[1..] + [s];
      ConcatAppend(ss[1..], s);
    }
  }

  /** Items joined with `sep` between consecutive items (and nowhere else). */
  function Join(items: seq<seq<byte>>, sep: seq<byte>): seq<byte>
  {
    if |items| == 0 then []
    else if |items| == 1 then items[0]
    else items[0] + sep + Join(items[1..], sep)
  }

  /** How many times `b` occurs in `s`. */
  function Count(s: seq<byte>, b: byte): nat
  {
    if |s| == 0 then 0 else (if s[0] == b then 1 else 0) + Count(s[1..], b)
  }

  lemma {:induction false} CountAppend(s: seq<byte>, t: seq<byte>, b: byte)
    ensures Count(s + t, b) == Count(s, b) + Count(t, b)
  {
    if |s| == 0 {
      assert s + t == t;
    } else {
      assert (s + t)[1..] == s[1..] + t;
      CountAppend(s[1..], t, b);
    }
  }

  lemma {:induction false} CountAbsent(s: seq<byte>, b: byte)
    requires b !in s
    ensures Count(s, b) == 0
  {
    if |s| > 0 {
      assert b !in s[1..] by { assert forall j :: 0 <= j < |s| - 1 ==> s[1..][j] == s[j + 1]; }
      CountAbsent(s[1..], b);
    }
  }

  /** The smaller and the larger of two integers. */
  function Min(x: int, y: int): int { if x < y then x else y }
  function Max(x: int, y: int): int { if x > y then x else y }
}
