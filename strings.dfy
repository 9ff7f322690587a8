/**
 Substring search on strings, as Python's `sub in s` does it for `str`
 operands: a case-sensitive test for a contiguous occurrence anywhere in `s`.
 */
module Strings {

  /** `sub` occurs in `s` starting at index `i`. */
  ghost predicate OccursAt(sub: string, s: string, i: int) {
    0 <= i && i + |sub| <= |s| && s[i..i + |sub|] == sub
  }

  /** `p` is a prefix of `s`. */
  predicate IsPrefix(p: string, s: string) {
    |p| <= |s| && s[..|p|] == p
  }

  /** Python's `sub in s`: try every start position from the left. */
  predicate Contains(sub: string, s: string)
    decreases |s|
  {
    IsPrefix(sub, s) || (|s| > 0 && Contains(sub, s[1..]))
  }

  /** The characters of an occurrence are those of `sub`. */
  lemma OccursAtChar(sub: string, s: string, i: int, k: int)
    requires 0 <= k < |sub|
    ensures OccursAt(sub, s, i) ==> s[i + k] == sub[k]
  {
    if OccursAt(sub, s, i) {
      assert s[i..i + |sub|][k] == s[i + k];
    }
  }

  /** An occurrence at any index makes `Contains` hold. */
  lemma {:induction false} ContainsFromOccurrence(sub: string, s: string, i: int)
    requires OccursAt(sub, s, i)
    ensures Contains(sub, s)
    decreases i
  {
    if i == 0 {
      assert IsPrefix(sub, s);
    } else {
      assert s[1..][i - 1..i - 1 + |sub|] == s[i..i + |sub|];
      assert OccursAt(sub, s[1..], i - 1);
      ContainsFromOccurrence(sub, s[1..], i - 1);
    }
  }

  /** `Contains` always has an occurrence as its witness. */
  lemma {:induction false} OccurrenceFromContains(sub: string, s: string) returns (i: int)
    requires Contains(sub, s)
    ensures OccursAt(sub, s, i)
    decreases |s|
  {
    if IsPrefix(sub, s) {
      i := 0;
    } else {
      var j := OccurrenceFromContains(sub, s[1..]);
      assert s[1..][j..j + |sub|] == s[j + 1..j + 1 + |sub|];
      i := j + 1;
    }
  }

  /** `Contains` means exactly "occurs at some index". */
  lemma ContainsIff(sub: string, s: string)
    ensures Contains(sub, s) <==> exists i :: OccursAt(sub, s, i)
  {
    if Contains(sub, s) {
      var i := OccurrenceFromContains(sub, s);
    }
    forall i | OccursAt(sub, s, i)
      ensures Contains(sub, s)
    {
      ContainsFromOccurrence(sub, s, i);
    }
  }

  /** Every character of a found substring is a character of the string. */
  lemma CharOfContained(sub: string, s: string, c: char)
    requires Contains(sub, s) && c in sub
    ensures c in s
  {
    var i := OccurrenceFromContains(sub, s);
    var j :| 0 <= j < |sub| && sub[j] == c;
    assert s[i..i + |sub|][j] == s[i + j];
  }

  /** A substring is not found when one of its characters is missing from the string. */
  lemma NotContainedByChar(sub: string, s: string, c: char)
    requires c in sub && c !in s
    ensures !Contains(sub, s)
  {
    if Contains(sub, s) {
      CharOfContained(sub, s, c);
    }
  }

  /** Appending text on either side keeps an occurrence. */
  lemma ContainsExtended(sub: string, p: string, s: string, q: string)
    requires Contains(sub, s)
    ensures Contains(sub, p + s + q)
  {
    var i := OccurrenceFromContains(sub, s);
    assert (p + s + q)[|p| + i..|p| + i + |sub|] == s[i..i + |sub|];
    ContainsFromOccurrence(sub, p + s + q, |p| + i);
  }

  /** When no occurrence in `x + y` starts inside `x`, the occurrences are those of `y`. */
  lemma ContainedPast(sub: string, x: string, y: string)
    requires forall j :: 0 <= j < |x| ==> !OccursAt(sub, x + y, j)
    ensures Contains(sub, x + y) <==> Contains(sub, y)
  {
    if Contains(sub, y) {
      ContainsExtended(sub, x, y, []);
      assert x + y + [] == x + y;
    }
    if Contains(sub, x + y) {
      var i := OccurrenceFromContains(sub, x + y);
      assert (x + y)[i..i + |sub|] == y[i - |x|..i - |x| + |sub|];
      ContainsFromOccurrence(sub, y, i - |x|);
    }
  }

  /** When the first character of `sub` is missing from `x`, no occurrence in `x + y` starts inside `x`. */
  lemma ContainedPastPrefix(sub: string, x: string, y: string)
    requires |sub| > 0 && sub[0] !in x
    ensures Contains(sub, x + y) <==> Contains(sub, y)
  {
    forall j | 0 <= j < |x|
      ensures !OccursAt(sub, x + y, j)
    {
      OccursAtChar(sub, x + y, j, 0);
      assert (x + y)[j] == x[j];
    }
    ContainedPast(sub, x, y);
  }

  /**
   When the second character of `sub` is missing from `x` and `x` does not end
   with the first, no occurrence in `x + y` starts inside `x`.
   */
  lemma ContainedPastSecond(sub: string, x: string, y: string)
    requires |sub| >= 2 && sub[1] !in x
    requires |x| > 0 ==> x[|x| - 1] != sub[0]
    ensures Contains(sub, x + y) <==> Contains(sub, y)
  {
    forall j | 0 <= j < |x|
      ensures !OccursAt(sub, x + y, j)
    {
      OccursAtChar(sub, x + y, j, 0);
      OccursAtChar(sub, x + y, j, 1);
      if j + 1 < |x| {
        assert (x + y)[j + 1] == x[j + 1];
      } else {
        assert (x + y)[j] == x[|x| - 1];
      }
    }
    ContainedPast(sub, x, y);
  }

  /**
   `sub` is not found in `x + y` when its first character is missing from `x`,
   `y` does not start with it, and its first character is missing from the
   rest of `y`.
   */
  lemma NotContainedSplit(sub: string, x: string, y: string)
    requires |sub| > 0 && |y| > 0 && sub[0] !in x && sub[0] !in y[1..]
    requires !IsPrefix(sub, y)
    ensures !Contains(sub, x + y)
  {
    ContainedPastPrefix(sub, x, y);
    NotContainedByChar(sub, y[1..], sub[0]);
  }

  /** When no occurrence in `x + y` reaches into `y`, the occurrences are those of `x`. */
  lemma ContainedBefore(sub: string, x: string, y: string)
    requires forall j :: 0 <= j && |x| < j + |sub| ==> !OccursAt(sub, x + y, j)
    ensures Contains(sub, x + y) <==> Contains(sub, x)
  {
    if Contains(sub, x) {
      var i := OccurrenceFromContains(sub, x);
      assert (x + y)[i..i + |sub|] == x[i..i + |sub|];
      ContainsFromOccurrence(sub, x + y, i);
    }
    if Contains(sub, x + y) {
      var i := OccurrenceFromContains(sub, x + y);
      assert i + |sub| <= |x|;
      assert (x + y)[i..i + |sub|] == x[i..i + |sub|];
      ContainsFromOccurrence(sub, x, i);
    }
  }

  /**
   An occurrence in `x + y` that ends inside `y`, but before its last
   character, ends with a character of `y[..|y| - 1]`.
   */
  lemma LastCharOfOccurrence(sub: string, x: string, y: string, j: int)
    requires |sub| > 0 && |y| > 0 && |x| < j + |sub| < |x| + |y|
    requires OccursAt(sub, x + y, j)
    ensures sub[|sub| - 1] in y[..|y| - 1]
  {
    var e, w := j + |sub| - 1, y[..|y| - 1];
    OccursAtChar(sub, x + y, j, |sub| - 1);
    assert (x + y)[e] == w[e - |x|];
  }

  /**
   No occurrence in `x + y` reaches into `y` when the last character of `sub`
   is missing from `y` but for `y`'s own last character, and `x + y` does not
   end with `sub`.
   */
  lemma NoOccurrenceReachesInto(sub: string, x: string, y: string)
    requires |sub| > 0 && |y| > 0 && sub[|sub| - 1] !in y[..|y| - 1]
    requires !OccursAt(sub, x + y, |x| + |y| - |sub|)
    ensures forall j :: 0 <= j && |x| < j + |sub| ==> !OccursAt(sub, x + y, j)
  {
    forall j | 0 <= j && |x| < j + |sub|
      ensures !OccursAt(sub, x + y, j)
    {
      if j + |sub| < |x| + |y| {
        if OccursAt(sub, x + y, j) {
          LastCharOfOccurrence(sub, x, y, j);
        }
      } else if j + |sub| == |x| + |y| {
      } else {
      }
    }
  }

  /** Under the same conditions, appending `y` neither adds nor removes an occurrence. */
  lemma ContainedBeforeLast(sub: string, x: string, y: string)
    requires |sub| > 0 && |y| > 0 && sub[|sub| - 1] !in y[..|y| - 1]
    requires !OccursAt(sub, x + y, |x| + |y| - |sub|)
    ensures Contains(sub, x + y) <==> Contains(sub, x)
  {
    NoOccurrenceReachesInto(sub, x, y);
    ContainedBefore(sub, x, y);
  }
}
