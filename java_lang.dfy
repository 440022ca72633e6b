/**
 * The few pieces of java.lang that the caption step relies on, with their
 * Java semantics written out over `seq<char>`: `String.indexOf`,
 * `String.contains`, `String.substring` (which throws on bad bounds),
 * `String.trim`, and a `StringBuilder` that only appends.
 */
module JavaLang {

  /** A value that may be absent: a camera read that delivered no frame, a frame that could not be encoded. */
  datatype Option<T> = None | Some(value: T)

  /** How a Java expression of type String completes: with a value, or by throwing. */
  datatype Completion = Returned(value: string) | Threw

  /** `pat` occurs in `s` starting at index `k`. */
  predicate OccursAt(s: string, pat: string, k: int)
  {
    0 <= k && k + |pat| <= |s| && s[k..k + |pat|] == pat
  }

  /** `pat` occurs somewhere in `s`. */
  ghost predicate Occurs(s: string, pat: string)
  {
    exists k :: OccursAt(s, pat, k)
  }

  /** A one-character pattern occurs exactly where that character stands. */
  lemma OccursAtChar(s: string, c: char, k: int)
    ensures OccursAt(s, [c], k) <==> 0 <= k < |s| && s[k] == c
  {
    if 0 <= k < |s| {
      assert s[k..k + 1] == [s[k]];
    }
  }

  /** The first occurrence of `pat` in `s` at or after `k`, or -1. */
  function FindFrom(s: string, pat: string, k: nat): (r: int)
    requires k <= |s|
    ensures r == -1 || (k <= r <= |s| && OccursAt(s, pat, r))
    ensures r == -1 ==> forall j :: k <= j ==> !OccursAt(s, pat, j)
    ensures r != -1 ==> forall j :: k <= j < r ==> !OccursAt(s, pat, j)
    decreases |s| - k
  {
    if OccursAt(s, pat, k) then k
    else if k == |s| then -1
    else FindFrom(s, pat, k + 1)
  }

  /** Java clamps the `fromIndex` of `indexOf` into `0..length`. */
  function ClampIndex(from: int, length: nat): (c: nat)
    ensures c <= length
    ensures 0 <= from <= length ==> c == from
  {
    if from < 0 then 0 else if from > length then length else from
  }

  /** `s.indexOf(pat, from)`: the least occurrence at or after `from`, or -1. */
  function IndexOf(s: string, pat: string, from: int): (r: int)
    ensures r == -1 || (ClampIndex(from, |s|) <= r && OccursAt(s, pat, r))
  {
    FindFrom(s, pat, ClampIndex(from, |s|))
  }

  /** `s.contains(t)`, which Java defines as `s.indexOf(t) >= 0`. */
  predicate Contains(s: string, t: string)
    ensures Contains(s, t) ==> |t| <= |s|
    ensures t == [] ==> Contains(s, t)
  {
    IndexOf(s, t, 0) >= 0
  }

  lemma ContainsIff(s: string, t: string)
    ensures Contains(s, t) <==> Occurs(s, t)
  {
    if Occurs(s, t) {
      var k :| OccursAt(s, t, k);
      assert IndexOf(s, t, 0) != -1 by {
        assert ClampIndex(0, |s|) <= k;
      }
    }
  }

  /** A pattern cannot occur in a text that lacks one of its characters. */
  lemma OccursNeeds(s: string, pat: string, c: char)
    requires c in pat && c !in s
    ensures !Occurs(s, pat)
  {
  }

  /** `s.substring(begin, end)`: throws unless `0 <= begin <= end <= s.length()`. */
  function Substring(s: string, begin: int, end: int): (r: Completion)
    ensures r.Returned? <==> 0 <= begin <= end <= |s|
  {
    if 0 <= begin <= end <= |s| then Returned(s[begin..end]) else Threw
  }

  /** Characters that `String.trim` removes: every code point up to U+0020. */
  predicate TrimDrops(c: char)
  {
    c <= ' '
  }

  /** `t` neither starts nor ends with a character that `trim` drops. */
  predicate EndsKept(t: string)
  {
    |t| == 0 || (!TrimDrops(t[0]) && !TrimDrops(t[|t| - 1]))
  }

  /** `r` is `s[a..b]`, and everything `s` has before `a` and from `b` on is dropped by `trim`. */
  predicate TrimmedSlice(s: string, r: string, a: int, b: int)
  {
    && 0 <= a <= b <= |s| && r == s[a..b]
    && (forall k :: 0 <= k < a ==> TrimDrops(s[k]))
    && (forall k :: b <= k < |s| ==> TrimDrops(s[k]))
  }

  /** A slice of `s[1..]` cut as `trim` cuts is one of `s` when `s[0]` is dropped too. */
  lemma TrimmedSliceFront(s: string, tail: string, r: string)
    requires |s| > 0 && TrimDrops(s[0]) && tail == s[1..]
    requires exists a, b :: TrimmedSlice(tail, r, a, b)
    ensures exists a, b :: TrimmedSlice(s, r, a, b)
  {
    var a, b :| TrimmedSlice(tail, r, a, b);
    assert s[1..][a..b] == s[a + 1..b + 1];
    forall k | 0 <= k < a + 1
      ensures TrimDrops(s[k])
    {
      if k > 0 {
        assert s[k] == s[1..][k - 1];
      }
    }
    forall k | b + 1 <= k < |s|
      ensures TrimDrops(s[k])
    {
      assert s[k] == s[1..][k - 1];
    }
    assert TrimmedSlice(s, r, a + 1, b + 1);
  }

  /** A slice of `s[..|s| - 1]` cut as `trim` cuts is one of `s` when the last character is dropped too. */
  lemma TrimmedSliceBack(s: string, init: string, r: string)
    requires |s| > 0 && TrimDrops(s[|s| - 1]) && init == s[..|s| - 1]
    requires exists a, b :: TrimmedSlice(init, r, a, b)
    ensures exists a, b :: TrimmedSlice(s, r, a, b)
  {
    var a, b :| TrimmedSlice(init, r, a, b);
    assert s[..|s| - 1][a..b] == s[a..b];
    forall k | b <= k < |s|
      ensures TrimDrops(s[k])
    {
      if k < |s| - 1 {
        assert s[k] == s[..|s| - 1][k];
      }
    }
    assert TrimmedSlice(s, r, a, b);
  }

  /**
   * `s.trim()`: `s` without its leading and trailing characters up to U+0020.
   * The result is a slice of `s` that drops only such characters at either
   * end, and it neither starts nor ends with one, so it is the longest such slice.
   */
  function Trim(s: string): (r: string)
    ensures |r| <= |s|
    ensures exists a, b :: TrimmedSlice(s, r, a, b)
    ensures EndsKept(r)
    ensures EndsKept(s) ==> r == s
    decreases |s|
  {
    if |s| > 0 && TrimDrops(s[0]) then
      var r := Trim(s[1..]);
      TrimmedSliceFront(s, s[1..], r);
      r
    else if |s| > 0 && TrimDrops(s[|s| - 1]) then
      var r := Trim(s[..|s| - 1]);
      TrimmedSliceBack(s, s[..|s| - 1], r);
      r
    else
      assert TrimmedSlice(s, s, 0, |s|);
      s
  }

  /** Every character of `s` is one that `trim` drops. */
  predicate AllDropped(s: string)
  {
    forall k :: 0 <= k < |s| ==> TrimDrops(s[k])
  }

  /** A slice cut as `trim` cuts, with no dropped character at its ends, is empty exactly when all of `s` is dropped. */
  lemma TrimmedSliceEmpty(s: string, t: string, a: int, b: int)
    requires TrimmedSlice(s, t, a, b)
    requires EndsKept(t)
    ensures |t| == 0 <==> AllDropped(s)
  {
    if |t| > 0 {
      assert s[a] == t[0];
    } else {
      forall k | 0 <= k < |s|
        ensures TrimDrops(s[k])
      {
        if k >= a {
          assert b <= k;
        }
      }
    }
  }

  /** Two slices cut as `trim` cuts, neither with a dropped character at its ends, are the same text. */
  lemma TrimmedSliceUnique(s: string, t: string, a: int, b: int, u: string, c: int, d: int)
    requires TrimmedSlice(s, t, a, b) && EndsKept(t)
    requires TrimmedSlice(s, u, c, d) && EndsKept(u)
    ensures t == u
  {
    TrimmedSliceEmpty(s, t, a, b);
    TrimmedSliceEmpty(s, u, c, d);
    if |t| > 0 {
      assert s[a] == t[0] && s[c] == u[0];
      assert a == c;
      assert s[b - 1] == t[|t| - 1] && s[d - 1] == u[|u| - 1];
      assert b == d;
    }
  }

  /** Only one slice is cut as `trim` cuts and keeps no dropped character at its ends: `trim` is determined. */
  lemma TrimUnique(s: string, t: string, a: int, b: int)
    requires TrimmedSlice(s, t, a, b) && EndsKept(t)
    ensures t == Trim(s)
  {
    var r := Trim(s);
    var c, d :| TrimmedSlice(s, r, c, d);
    TrimmedSliceUnique(s, t, a, b, r, c, d);
  }

  /** `"  ab  ".trim()` is `"ab"`. */
  lemma TrimPadded()
    ensures Trim("  ab  ") == "ab"
  {
    TrimUnique("  ab  ", "ab", 2, 4);
  }

  /** A `java.lang.StringBuilder` that is only ever appended to. */
  class StringBuilder {
    var text: string

    constructor ()
      ensures text == ""
    {
      text := "";
    }

    method Append(s: string)
      modifies this
      ensures text == old(text) + s
    {
      text := text + s;
    }

    function ToString(): string
      reads this
    {
      text
    }
  }
}
