/**
 * `TrimSuffix` and `TrimSpace`, which the uploader calls, over `string` (a
 * sequence of characters), plus the prefix, suffix, substring and
 * `IndexByte` helpers in which the model's properties are stated.
 */
module Strings {

  predicate HasPrefix(s: string, p: string) {
    |p| <= |s| && s[..|p|] == p
  }

  predicate HasSuffix(s: string, p: string) {
    |p| <= |s| && s[|s| - |p|..] == p
  }

  /** `p` occurs in `s` starting at index `i`. */
  predicate OccursAt(s: string, p: string, i: int) {
    0 <= i && i + |p| <= |s| && s[i..i + |p|] == p
  }

  /** Whether `p` occurs somewhere in `s`. */
  predicate Contains(s: string, p: string) {
    exists i | 0 <= i <= |s| - |p| :: OccursAt(s, p, i)
  }

  /**
   * The index of the first `c` in `s`, or `|s|` when there is none: the
   * search `bufio.ScanLines` makes for the next line feed.
   */
  function IndexByte(s: string, c: char): (k: nat)
    ensures k <= |s|
    ensures c !in s[..k]
    ensures k < |s| ==> s[k] == c
  {
    if |s| == 0 then 0
    else if s[0] == c then 0
    else 1 + IndexByte(s[1..], c)
  }

  /** Go's `strings.TrimSuffix`: removes one trailing `suffix`, if present. */
  function TrimSuffix(s: string, suffix: string): (r: string)
    ensures HasSuffix(s, suffix) ==> r + suffix == s
    ensures !HasSuffix(s, suffix) ==> r == s
  {
    if HasSuffix(s, suffix) then s[..|s| - |suffix|] else s
  }

  /**
   * The ASCII white space that `strings.TrimSpace` removes:
   * tab, line feed, vertical tab, form feed, carriage return and space.
   */
  predicate IsSpace(c: char) {
    c == ' ' || c == '\t' || c == '\n' || c == '\r' || c as int == 11 || c as int == 12
  }

  /** Neither the first nor the last character is white space. */
  predicate NoSpaceAtEnds(s: string) {
    s == [] || (!IsSpace(s[0]) && !IsSpace(s[|s| - 1]))
  }

  function TrimLeftSpace(s: string): (r: string)
    ensures |r| <= |s| && r == s[|s| - |r|..]
    ensures forall k :: 0 <= k < |s| - |r| ==> IsSpace(s[k])
    ensures r == [] || !IsSpace(r[0])
  {
    if |s| > 0 && IsSpace(s[0]) then TrimLeftSpace(s[1..]) else s
  }

  function TrimRightSpace(s: string): (r: string)
    ensures |r| <= |s| && r == s[..|r|]
    ensures forall k :: |r| <= k < |s| ==> IsSpace(s[k])
    ensures r == [] || !IsSpace(r[|r| - 1])
  {
    if |s| > 0 && IsSpace(s[|s| - 1]) then TrimRightSpace(s[..|s| - 1]) else s
  }

  /**
   * Go's `strings.TrimSpace`: the result is `s` with all leading and all
   * trailing white space cut off, and nothing else.
   */
  function TrimSpace(s: string): (r: string)
    ensures exists i ::
              && OccursAt(s, r, i)
              && (forall k :: 0 <= k < i ==> IsSpace(s[k]))
              && (forall k :: i + |r| <= k < |s| ==> IsSpace(s[k]))
    ensures r == [] || (!IsSpace(r[0]) && !IsSpace(r[|r| - 1]))
  {
    var left := TrimLeftSpace(s);
    var r := TrimRightSpace(left);
    TrimBoth(s, left, r);
    r
  }

  /** The two halves of `TrimSpace` together leave an infix with white space around it. */
  lemma TrimBoth(s: string, left: string, r: string)
    requires left == TrimLeftSpace(s) && r == TrimRightSpace(left)
    ensures var i := |s| - |left|;
            && OccursAt(s, r, i)
            && (forall k :: 0 <= k < i ==> IsSpace(s[k]))
            && (forall k :: i + |r| <= k < |s| ==> IsSpace(s[k]))
  {
    InfixSpace(s, left, r, |s| - |left|);
  }

  lemma InfixSpace(s: string, left: string, r: string, i: nat)
    requires i <= |s| && left == s[i..] && |r| <= |left| && r == left[..|r|]
    requires forall k :: |r| <= k < |left| ==> IsSpace(left[k])
    ensures OccursAt(s, r, i)
    ensures forall k :: i + |r| <= k < |s| ==> IsSpace(s[k])
  {
    forall k | i + |r| <= k < |s| ensures IsSpace(s[k]) {
      assert s[k] == left[k - i];
    }
    assert s[i..i + |r|] == r;
  }

  /** A string is trimmed when `TrimSpace` leaves it as it is. */
  predicate IsTrimmed(s: string) {
    TrimSpace(s) == s
  }

  /** Trimmed strings are exactly those that neither start nor end with white space. */
  lemma TrimmedIff(s: string)
    ensures IsTrimmed(s) <==> (s == [] || (!IsSpace(s[0]) && !IsSpace(s[|s| - 1])))
  {
    if s == [] || (!IsSpace(s[0]) && !IsSpace(s[|s| - 1])) {
      assert TrimLeftSpace(s) == s;
      assert TrimRightSpace(s) == s;
    }
  }

  lemma TrimSpaceIdempotent(s: string)
    ensures IsTrimmed(TrimSpace(s))
  {
    TrimmedIff(TrimSpace(s));
  }

  /** Every character of the trimmed string is a character of the original. */
  lemma TrimSpaceChars(s: string, c: char)
    requires c in TrimSpace(s)
    ensures c in s
  {
    var left := TrimLeftSpace(s);
    var r := TrimRightSpace(left);
    assert TrimSpace(s) == r;
    var k :| 0 <= k < |r| && r[k] == c;
    assert left[k] == c;
    assert s[|s| - |left| + k] == c;
  }

  /** A pattern longer than `s` does not occur in it. */
  lemma ShortAvoids(s: string, p: string)
    requires |s| < |p|
    ensures !Contains(s, p)
  {
  }

  /** No occurrence anywhere means no occurrence at `i`. */
  lemma NotContainsAt(s: string, p: string, i: int)
    requires !Contains(s, p)
    ensures !OccursAt(s, p, i)
  {
  }

  /** One character in front of a string free of `p` adds an occurrence only at the very start. */
  lemma ConsAvoids(c: char, x: string, p: string)
    requires !Contains(x, p) && !HasPrefix([c] + x, p)
    ensures !Contains([c] + x, p)
  {
    var r := [c] + x;
    forall i | 0 <= i <= |r| - |p| ensures !OccursAt(r, p, i) {
      if i > 0 {
        assert r[i..i + |p|] == x[i - 1..i - 1 + |p|];
        NotContainsAt(x, p, i - 1);
      } else {
        assert r[..|p|] == r[0..|p|];
      }
    }
  }

  /** A pattern whose first character is not in `s` does not occur in it. */
  lemma FirstCharAvoids(s: string, p: string)
    requires |p| > 0 && p[0] !in s
    ensures !Contains(s, p)
  {
    forall i | 0 <= i <= |s| - |p| ensures !OccursAt(s, p, i) {
      assert s[i..i + |p|][0] == s[i];
    }
  }

  /**
   * `s` holds exactly one `<`, at its start, and differs from `p` within
   * its first three characters, so `p` (which starts with `<`) does not
   * occur in it.
   */
  lemma TagAvoids(s: string, p: string)
    requires |p| >= 3 && p[0] == '<'
    requires |s| >= 3 && s[0] == '<' && '<' !in s[1..]
    requires |s| < |p| || s[1] != p[1] || s[2] != p[2]
    ensures !Contains(s, p)
  {
    forall i | 0 <= i <= |s| - |p| ensures !OccursAt(s, p, i) {
      if i > 0 {
        assert s[i..i + |p|][0] == s[1..][i - 1];
      } else {
        assert s[..|p|][1] == s[1] && s[..|p|][2] == s[2];
      }
    }
  }

  /**
   * Two strings neither of which contains `p` can only contain it once
   * joined if an occurrence straddles the seam; that needs the last
   * character of `a` to be in `p` before its end and the first character of
   * `b` to be in `p` after its start. Either failing keeps `a + b` clean.
   */
  lemma ConcatAvoids(a: string, b: string, p: string)
    requires |p| > 0
    requires !Contains(a, p) && !Contains(b, p)
    requires |a| == 0 || |b| == 0 || a[|a| - 1] !in p[..|p| - 1] || b[0] !in p[1..]
    ensures !Contains(a + b, p)
  {
    var s := a + b;
    forall i | 0 <= i <= |s| - |p| ensures !OccursAt(s, p, i) {
      if i + |p| <= |a| {
        assert s[i..i + |p|] == a[i..i + |p|];
        NotContainsAt(a, p, i);
      } else if i >= |a| {
        assert s[i..i + |p|] == b[i - |a|..i - |a| + |p|];
        NotContainsAt(b, p, i - |a|);
      } else {
        var j := |a| - 1 - i;
        if a[|a| - 1] !in p[..|p| - 1] {
          assert s[i..i + |p|][j] == a[|a| - 1];
          assert p[..|p| - 1][j] == p[j];
        } else {
          assert s[i..i + |p|][j + 1] == b[0];
          assert p[1..][j] == p[j + 1];
        }
      }
    }
  }

  /** Prefix test against a string that starts with a known character. */
  lemma HasPrefixCons(c: char, x: string, p: string)
    ensures HasPrefix([c] + x, p) <==> (|p| == 0 || (c == p[0] && HasPrefix(x, p[1..])))
  {
    if |p| > 0 && |p| <= |x| + 1 {
      assert ([c] + x)[..|p|] == [c] + x[..|p| - 1];
      assert p == [p[0]] + p[1..];
    }
  }

  /** An occurrence in a part is an occurrence in the whole. */
  lemma ContainsConcat(a: string, b: string, p: string)
    ensures Contains(a, p) || Contains(b, p) ==> Contains(a + b, p)
  {
    var s := a + b;
    if i :| 0 <= i <= |a| - |p| && OccursAt(a, p, i) {
      assert s[i..i + |p|] == a[i..i + |p|];
      assert OccursAt(s, p, i);
    }
    if i :| 0 <= i <= |b| - |p| && OccursAt(b, p, i) {
      assert s[|a| + i..|a| + i + |p|] == b[i..i + |p|];
      assert OccursAt(s, p, |a| + i);
    }
  }

  /** An occurrence in the tail of `s` is an occurrence in `s`. */
  lemma ContainsTail(s: string, p: string)
    requires |s| > 0
    ensures Contains(s[1..], p) ==> Contains(s, p)
  {
    assert s == [s[0]] + s[1..];
    ContainsConcat([s[0]], s[1..], p);
  }

  /** `p` at the very start of `s` is an occurrence of `p` in `s`. */
  lemma PrefixContains(s: string, p: string)
    ensures HasPrefix(s, p) ==> Contains(s, p)
  {
    if HasPrefix(s, p) {
      assert OccursAt(s, p, 0);
    }
  }

  /** When `a` lacks the first character of `p`, no occurrence of `p` can start inside `a`. */
  lemma PrefixFreeAvoids(a: string, b: string, p: string)
    requires |p| > 0 && p[0] !in a
    requires !Contains(b, p)
    ensures !Contains(a + b, p)
  {
    var s := a + b;
    forall i | 0 <= i <= |s| - |p| ensures !OccursAt(s, p, i) {
      if i < |a| {
        assert s[i..i + |p|][0] == a[i];
      } else {
        assert s[i..i + |p|] == b[i - |a|..i - |a| + |p|];
        NotContainsAt(b, p, i - |a|);
      }
    }
  }

  lemma PrefixOfAppend(a: string, b: string)
    ensures HasPrefix(a + b, a)
  {
    assert (a + b)[..|a|] == a;
  }

  lemma PrefixAppend(s: string, p: string, b: string)
    requires HasPrefix(s, p)
    ensures HasPrefix(s + b, p)
  {
    assert (s + b)[..|p|] == s[..|p|];
  }

  lemma PrefixJoin(a: string, b: string, p: string)
    requires HasPrefix(b, p)
    ensures HasPrefix(a + b, a + p)
  {
    assert (a + b)[..|a + p|] == a + b[..|p|];
  }

  lemma SuffixOfAppend(a: string, b: string)
    ensures HasSuffix(a + b, b)
  {
    assert (a + b)[|a + b| - |b|..] == b;
  }

  /** `IndexByte` finds the first occurrence. */
  lemma IndexByteIs(s: string, c: char, n: nat)
    requires n < |s| && s[n] == c && c !in s[..n]
    ensures IndexByte(s, c) == n
    decreases n
  {
    if n > 0 {
      assert s[0] == s[..n][0];
      assert s[1..][..n - 1] == s[1..n];
      assert forall x :: x in s[1..n] ==> x in s[..n];
      IndexByteIs(s[1..], c, n - 1);
    }
  }

  /** What follows a known prefix. */
  lemma PrefixDrop(s: string, h: string, y: string)
    requires HasPrefix(s, h + y)
    ensures HasPrefix(s, h) && HasPrefix(s[|h|..], y)
  {
    assert s[..|h|] == (h + y)[..|h|];
    assert s[|h|..][..|y|] == (h + y)[|h|..];
  }

  /**
   * A string that starts with a run `e` free of `c`, followed by `c`: the
   * first `c` ends the run.
   */
  lemma RunBefore(s: string, e: string, rest: string, c: char)
    requires HasPrefix(s, e + rest)
    requires c !in e && |rest| > 0 && rest[0] == c
    ensures IndexByte(s, c) == |e| && s[..|e|] == e
  {
    assert s[..|e|] == (e + rest)[..|e|];
    assert s[|e|] == (e + rest)[|e|];
    IndexByteIs(s, c, |e|);
  }
}
