/**
 * The JavaScript string operations the events service relies on, over
 * `string` (a `seq<char>`):
 *   - `s.replace(pat, "")`       as RemoveFirst (a string pattern replaces its
 *                                first occurrence only), with IndexOf as
 *                                its first-match search
 *   - `s.split(c)`               as Split, for a one-character separator
 *   - `xs.join(sep)`             as Join
 */
module Text {
  import opened Wrappers

  /** `pat` occurs in `s` starting at index `i`. */
  predicate OccursAt(s: string, pat: string, i: nat) {
    i + |pat| <= |s| && s[i..i + |pat|] == pat
  }

  /** `i` is the first index at which `pat` occurs in `s`. */
  predicate FirstOccurrence(s: string, pat: string, i: nat) {
    OccursAt(s, pat, i) && forall j: nat :: j < i ==> !OccursAt(s, pat, j)
  }

  /** `pat` occurs nowhere in `s`. */
  predicate Absent(s: string, pat: string) {
    forall j: nat :: j <= |s| ==> !OccursAt(s, pat, j)
  }

  /** Shifting the start of `s` by one shifts every occurrence by one. */
  lemma OccursAtTail(s: string, pat: string, i: nat)
    requires |s| > 0
    ensures OccursAt(s[1..], pat, i) <==> OccursAt(s, pat, i + 1)
  {
    if i + 1 + |pat| <= |s| {
      assert s[1..][i..i + |pat|] == s[i + 1..i + 1 + |pat|];
    }
  }

  /** A one-character pattern occurs exactly where that character stands. */
  lemma OccursAtChar(s: string, c: char, i: nat)
    ensures OccursAt(s, [c], i) <==> i < |s| && s[i] == c
  {
    if i < |s| {
      assert s[i..i + 1] == [s[i]];
    }
  }

  /** Dropping the first `d` characters moves every later occurrence `d` places left. */
  lemma OccursAtDrop(s: string, pat: string, d: nat, j: nat)
    requires OccursAt(s, pat, j) && d <= j
    ensures OccursAt(s[d..], pat, j - d)
  {
    assert s[d..][j - d..j - d + |pat|] == s[j..j + |pat|];
  }

  /** An occurrence in either part of a concatenation is an occurrence in the whole. */
  lemma OccursAtConcat(a: string, b: string, pat: string, i: nat)
    ensures OccursAt(a, pat, i) ==> OccursAt(a + b, pat, i)
    ensures OccursAt(b, pat, i) ==> OccursAt(a + b, pat, |a| + i)
  {
    if OccursAt(a, pat, i) {
      assert (a + b)[i..i + |pat|] == a[i..i + |pat|];
    }
    if OccursAt(b, pat, i) {
      assert (a + b)[|a| + i..|a| + i + |pat|] == b[i..i + |pat|];
    }
  }

  /** An occurrence in the middle part is an occurrence in `head + middle + tail`, shifted by `|head|`. */
  lemma OccursInMiddle(head: string, middle: string, tail: string, pat: string, i: nat)
    requires OccursAt(middle, pat, i)
    ensures OccursAt(head + middle + tail, pat, |head| + i)
  {
    OccursAtConcat(head, middle, pat, i);
    OccursAtConcat(head + middle, tail, pat, |head| + i);
  }

  /** Two occurrences that meet form one occurrence of the concatenated patterns. */
  lemma OccursAcross(a: string, b: string, p1: string, p2: string, i: nat)
    requires OccursAt(a, p1, i) && i + |p1| == |a|
    requires OccursAt(b, p2, 0)
    ensures OccursAt(a + b, p1 + p2, i)
  {
    assert (a + b)[i..i + |p1| + |p2|] == a[i..] + b[..|p2|];
  }

  /** `s` with the prefix `head` and the suffix `tail` cut off, or None when it lacks either. */
  function Unwrap(s: string, head: string, tail: string): (r: Option<string>)
    ensures r.Some? <==> (|head| + |tail| <= |s| && s[..|head|] == head && s[|s| - |tail|..] == tail)
    ensures r.Some? ==> s == head + r.value + tail
  {
    if |head| + |tail| <= |s| && s[..|head|] == head && s[|s| - |tail|..] == tail then
      var r := s[|head|..|s| - |tail|];
      assert s == s[..|head|] + r + s[|s| - |tail|..];
      Some(r)
    else None
  }

  /** Unwrapping what was wrapped gives back the middle. */
  lemma UnwrapWrapped(head: string, middle: string, tail: string)
    ensures Unwrap(head + middle + tail, head, tail) == Some(middle)
  {
    var s := head + middle + tail;
    assert s[..|head|] == head;
    assert s[|s| - |tail|..] == tail;
    assert s[|head|..|s| - |tail|] == middle;
  }

  /** A pattern whose first character is not in `s` occurs nowhere in `s`. */
  lemma AbsentByFirstChar(s: string, pat: string)
    requires |pat| > 0 && pat[0] !in s
    ensures Absent(s, pat)
  {
  }

  /** JavaScript's `s.indexOf(pat)`: the first index where `pat` occurs, if any. */
  function IndexOf(s: string, pat: string): (r: Option<nat>)
    ensures r.Some? ==> FirstOccurrence(s, pat, r.value)
    ensures r.None? ==> Absent(s, pat)
    decreases |s|
  {
    if OccursAt(s, pat, 0) then Some(0)
    else if |s| == 0 then None
    else
      var rest := IndexOf(s[1..], pat);
      assert forall j: nat :: OccursAt(s[1..], pat, j) <==> OccursAt(s, pat, j + 1) by {
        forall j: nat ensures OccursAt(s[1..], pat, j) <==> OccursAt(s, pat, j + 1) {
          OccursAtTail(s, pat, j);
        }
      }
      assert forall j: nat :: j > 0 ==> (OccursAt(s, pat, j) <==> OccursAt(s[1..], pat, j - 1));
      match rest
      case None => None
      case Some(i) => Some(i + 1)
  }

  /** A string has at most one first occurrence of a pattern. */
  lemma FirstOccurrenceUnique(s: string, pat: string, i: nat, j: nat)
    requires FirstOccurrence(s, pat, i) && FirstOccurrence(s, pat, j)
    ensures i == j
  {
  }

  /**
   * JavaScript's `s.replace(pat, "")` with a string pattern: the first
   * occurrence of `pat` is cut out, the rest of `s` is kept; without an
   * occurrence `s` comes back unchanged.
   */
  function RemoveFirst(s: string, pat: string): (r: string)
    ensures Absent(s, pat) ==> r == s
    ensures forall i: nat :: FirstOccurrence(s, pat, i) ==> r == s[..i] + s[i + |pat|..]
  {
    match IndexOf(s, pat)
    case None => s
    case Some(i) => s[..i] + s[i + |pat|..]
  }

  /** Cutting `pat` out of `s` at `i` and putting it back restores `s`. */
  lemma CutRestores(s: string, pat: string, i: nat)
    requires OccursAt(s, pat, i)
    ensures (s[..i] + s[i + |pat|..])[..i] == s[..i]
    ensures (s[..i] + s[i + |pat|..])[..i] + pat + (s[..i] + s[i + |pat|..])[i..] == s
  {
    var a, b := s[..i], s[i + |pat|..];
    assert (a + b)[..i] == a;
    assert (a + b)[i..] == b;
    assert s == a + s[i..i + |pat|] + b;
  }

  /** An occurrence after the cut at `i` moves `|pat|` places left. */
  lemma CutKeepsLater(s: string, pat: string, i: nat, j: nat)
    requires OccursAt(s, pat, i)
    requires OccursAt(s, pat, j) && j >= i + |pat|
    ensures OccursAt(s[..i] + s[i + |pat|..], pat, j - |pat|)
  {
    OccursAtDrop(s, pat, i + |pat|, j);
    OccursAtConcat(s[..i], s[i + |pat|..], pat, j - |pat| - i);
  }

  /**
   * Only the first occurrence goes: putting `pat` back where it stood
   * restores `s`, and the text before it is untouched.
   */
  lemma RemoveFirstRestores(s: string, pat: string, i: nat)
    requires FirstOccurrence(s, pat, i)
    ensures RemoveFirst(s, pat)[..i] == s[..i]
    ensures RemoveFirst(s, pat)[..i] + pat + RemoveFirst(s, pat)[i..] == s
  {
    CutRestores(s, pat, i);
  }

  /**
   * Every later occurrence that does not overlap the first one is still in
   * the result, moved left by `|pat|`.
   */
  lemma RemoveFirstKeepsLaterOccurrences(s: string, pat: string, i: nat, j: nat)
    requires FirstOccurrence(s, pat, i)
    requires OccursAt(s, pat, j) && j >= i + |pat|
    ensures OccursAt(RemoveFirst(s, pat), pat, j - |pat|)
  {
    CutKeepsLater(s, pat, i, j);
  }

  /** A character whose one-character pattern occurs nowhere in `s` is not in `s`. */
  lemma AbsentChar(s: string, c: char)
    requires Absent(s, [c])
    ensures c !in s
  {
    forall i | 0 <= i < |s| ensures s[i] != c {
      OccursAtChar(s, c, i);
    }
  }

  /**
   * JavaScript's `s.split(c)` for a one-character separator: the texts
   * between consecutive separators, so two adjacent separators give an empty
   * token, and the empty string gives one empty token.
   */
  function Split(s: string, c: char): (r: seq<string>)
    ensures |r| >= 1
    ensures forall k :: 0 <= k < |r| ==> c !in r[k]
    ensures |r| >= 2 <==> c in s
    decreases |s|
  {
    match IndexOf(s, [c])
    case None =>
      AbsentChar(s, c);
      [s]
    case Some(i) =>
      OccursAtChar(s, c, i);
      assert FirstOccurrence(s, [c], i);
      assert forall j :: 0 <= j < i ==> s[j] != c by {
        forall j | 0 <= j < i ensures s[j] != c {
          OccursAtChar(s, c, j);
        }
      }
      [s[..i]] + Split(s[i + 1..], c)
  }

  /** JavaScript's `xs.join(sep)`: the elements in order with `sep` between neighbours. */
  function Join(xs: seq<string>, sep: string): string {
    if |xs| == 0 then ""
    else if |xs| == 1 then xs[0]
    else xs[0] + sep + Join(xs[1..], sep)
  }

  /** Where element `k` of `xs` starts in `Join(xs, sep)`: after the first `k` elements and a separator. */
  function Offset(xs: seq<string>, sep: string, k: nat): nat
    requires k <= |xs|
  {
    if k == 0 then 0 else |Join(xs[..k], sep)| + |sep|
  }

  /** A join starts with its first element. */
  lemma JoinHead(xs: seq<string>, sep: string)
    requires |xs| >= 1
    ensures |xs[0]| <= |Join(xs, sep)| && Join(xs, sep)[..|xs[0]|] == xs[0]
  {
  }

  /** Cutting the list at `k` cuts the join at the separator after element `k - 1`. */
  lemma {:induction false} JoinAppend(xs: seq<string>, sep: string, k: nat)
    requires 0 < k < |xs|
    ensures Join(xs, sep) == Join(xs[..k], sep) + sep + Join(xs[k..], sep)
  {
    if k > 1 {
      JoinAppend(xs[1..], sep, k - 1);
      assert xs[..k][1..] == xs[1..][..k - 1];
      assert xs[1..][k - 1..] == xs[k..];
    }
  }

  /**
   * Joining keeps every element in place: element `k` stands at
   * `Offset(xs, sep, k)`, and the last element ends the text.
   */
  lemma JoinAt(xs: seq<string>, sep: string, k: nat)
    requires k < |xs|
    ensures OccursAt(Join(xs, sep), xs[k], Offset(xs, sep, k))
    ensures k + 1 == |xs| ==> Offset(xs, sep, k) + |xs[k]| == |Join(xs, sep)|
  {
    var j := Join(xs, sep);
    var o := Offset(xs, sep, k);
    var tail := Join(xs[k..], sep);
    JoinHead(xs[k..], sep);
    if k == 0 {
      assert xs[k..] == xs;
    } else {
      JoinAppend(xs, sep, k);
      assert j[o..] == tail;
    }
    assert j[o..o + |xs[k]|] == tail[..|xs[k]|];
    if k + 1 == |xs| {
      assert xs[k..] == [xs[k]];
    }
  }

  /** Every element but the first is preceded by a separator. */
  lemma JoinSeparatorBefore(xs: seq<string>, sep: string, k: nat)
    requires 0 < k < |xs|
    ensures Offset(xs, sep, k) >= |sep| && OccursAt(Join(xs, sep), sep, Offset(xs, sep, k) - |sep|)
  {
    var j := Join(xs, sep);
    var p := Join(xs[..k], sep);
    JoinAppend(xs, sep, k);
    assert j[|p|..|p| + |sep|] == sep;
  }

  /** The next element starts one element and one separator further on. */
  lemma OffsetNext(xs: seq<string>, sep: string, k: nat)
    requires k + 1 < |xs|
    ensures Offset(xs, sep, k + 1) == Offset(xs, sep, k) + |xs[k]| + |sep|
  {
    if k > 0 {
      JoinAppend(xs[..k + 1], sep, k);
      assert xs[..k + 1][..k] == xs[..k];
      assert xs[..k + 1][k..] == [xs[k]];
    } else {
      assert xs[..1] == [xs[0]];
    }
  }

  /** Joining a prefix element onto a non-empty rest. */
  lemma JoinCons(x: string, xs: seq<string>, sep: string)
    requires |xs| >= 1
    ensures Join([x] + xs, sep) == x + sep + Join(xs, sep)
  {
    assert ([x] + xs)[1..] == xs;
  }

  /** Splitting and then joining with the same separator gives back the text. */
  lemma {:induction false} JoinSplit(s: string, c: char)
    ensures Join(Split(s, c), [c]) == s
    decreases |s|
  {
    match IndexOf(s, [c])
    case None =>
    case Some(i) =>
      OccursAtChar(s, c, i);
      JoinSplit(s[i + 1..], c);
      JoinCons(s[..i], Split(s[i + 1..], c), [c]);
      assert s == s[..i] + [c] + s[i + 1..];
  }

  /** A character that is in no element and is not the separator is not in the join. */
  lemma {:induction false} JoinExcludes(xs: seq<string>, sep: char, c: char)
    requires c != sep
    requires forall k :: 0 <= k < |xs| ==> c !in xs[k]
    ensures c !in Join(xs, [sep])
  {
    if |xs| > 1 {
      JoinExcludes(xs[1..], sep, c);
    }
  }

  /** The first separator in `a + [c] + b` is the one after `a` when `a` holds none. */
  lemma FirstSeparator(a: string, c: char, b: string)
    requires c !in a
    ensures IndexOf(a + [c] + b, [c]) == Some(|a|)
  {
    var s := a + [c] + b;
    OccursAtChar(s, c, |a|);
    forall j: nat | j < |a| ensures !OccursAt(s, [c], j) {
      OccursAtChar(s, c, j);
    }
    assert FirstOccurrence(s, [c], |a|);
    var r := IndexOf(s, [c]);
    FirstOccurrenceUnique(s, [c], r.value, |a|);
  }

  /** Removing the first `c` from `a + [c] + b`, where `a` holds no `c`, leaves `a + b`. */
  lemma RemoveFirstChar(a: string, c: char, b: string)
    requires c !in a
    ensures RemoveFirst(a + [c] + b, [c]) == a + b
  {
    var s := a + [c] + b;
    FirstSeparator(a, c, b);
    assert FirstOccurrence(s, [c], |a|);
    assert s[..|a|] == a;
    assert s[|a| + 1..] == b;
  }

  /**
   * Joining with `c` and then splitting on `c` gives back the list, provided
   * the list is non-empty and no element contains `c`.
   */
  lemma {:induction false} SplitJoin(xs: seq<string>, c: char)
    requires |xs| >= 1
    requires forall k :: 0 <= k < |xs| ==> c !in xs[k]
    ensures Split(Join(xs, [c]), c) == xs
  {
    if |xs| == 1 {
      OccursAtChar(xs[0], c, 0);
      var r := IndexOf(xs[0], [c]);
      if r.Some? {
        OccursAtChar(xs[0], c, r.value);
      }
    } else {
      var rest := Join(xs[1..], [c]);
      assert Join(xs, [c]) == xs[0] + [c] + rest;
      FirstSeparator(xs[0], c, rest);
      SplitJoin(xs[1..], c);
      assert (xs[0] + [c] + rest)[|xs[0]| + 1..] == rest;
      assert (xs[0] + [c] + rest)[..|xs[0]|] == xs[0];
    }
  }
}
