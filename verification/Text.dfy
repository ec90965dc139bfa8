/** Python string operations the scripts rely on: `in`, `str.replace`, `str.strip` and string order. */
module Text {

  predicate OccursAt(s: string, p: string, i: nat) {
    i + |p| <= |s| && s[i..i + |p|] == p
  }

  /** Python's `p in s`. */
  predicate Contains(s: string, p: string) {
    exists i: nat :: i + |p| <= |s| && OccursAt(s, p, i)
  }

  /** Python's `s.replace(from, to)`: leftmost, non-overlapping, left to right. */
  function Replace(s: string, from: string, to: string): string
    requires |from| > 0
  {
    if |s| < |from| then s
    else if s[..|from|] == from then to + Replace(s[|from|..], from, to)
    else [s[0]] + Replace(s[1..], from, to)
  }

  lemma OccursShift(s: string, k: nat, p: string, i: nat)
    requires k <= |s| && k <= i
    ensures OccursAt(s, p, i) <==> OccursAt(s[k..], p, i - k)
  {
    if i + |p| <= |s| {
      assert s[i..i + |p|] == s[k..][i - k..i - k + |p|];
    }
  }

  /** An occurrence in a suffix of `s` is an occurrence in `s`. */
  lemma ContainsSuffix(s: string, k: nat, p: string)
    requires k <= |s| && Contains(s[k..], p)
    ensures Contains(s, p)
  {
    var i: nat :| i + |p| <= |s[k..]| && OccursAt(s[k..], p, i);
    OccursShift(s, k, p, k + i);
  }

  /** The text is untouched when there is nothing to replace. */
  lemma {:induction false} ReplaceAbsent(s: string, from: string, to: string)
    requires |from| > 0 && !Contains(s, from)
    ensures Replace(s, from, to) == s
  {
    if |s| >= |from| {
      assert !OccursAt(s, from, 0);
      assert s[0..|from|] == s[..|from|];
      if Contains(s[1..], from) { ContainsSuffix(s, 1, from); }
      ReplaceAbsent(s[1..], from, to);
    }
  }

  /** A code may overlap a replacement block only where the replaced text read the same. */
  ghost predicate Compatible(c: string, from: string, to: string) {
    && |c| == |from| == |to| > 0
    && (forall k: nat :: 1 <= k <= |c| ==> to[|c| - k..] != c[..k])
    && (forall k: nat :: 1 <= k < |c| && c[|c| - k..] == to[..k] ==> from[..k] == to[..k])
  }

  /** Where an occurrence starts inside a block, the block's tail is the code's head. */
  lemma OverlapTail(block: string, rest: string, c: string, i: nat)
    requires i < |block| == |c| && OccursAt(block + rest, c, i)
    ensures block[|c| - (|c| - i)..] == c[..|c| - i]
  {
    assert block[i..] == (block + rest)[i..i + |c|][..|c| - i];
  }

  /** If the result starts with the tail `c[j..]` then so did the source. */
  lemma {:induction false} ReplaceKeepsTails(s: string, from: string, to: string, c: string, j: nat)
    requires Compatible(c, from, to)
    requires j < |c| && c[j..] <= Replace(s, from, to)
    ensures c[j..] <= s
    ensures j == 0 ==> !(from <= s)
    decreases |c| - j
  {
    if |s| < |from| {
    } else if s[..|from|] == from {
      var r := Replace(s[|from|..], from, to);
      if j == 0 {
        assert OccursAt(to + r, c, 0);
        OverlapTail(to, r, c, 0);
        assert false;
      } else {
        var k := |c| - j;
        assert c[|c| - k..] == (to + r)[..k] == to[..k];
        assert s[..k] == s[..|from|][..k];
      }
    } else {
      assert c[j] == s[0];
      if j + 1 < |c| {
        assert c[j..][1..] == c[j + 1..];
        ReplaceKeepsTails(s[1..], from, to, c, j + 1);
        assert s == s[..1] + s[1..] && c[j..] == [c[j]] + c[j + 1..];
      }
    }
  }

  /** Every occurrence of a compatible code in the result was already there in the source ... */
  lemma {:induction false} ReplaceCreatesNone(s: string, from: string, to: string, c: string, i: nat)
    requires Compatible(c, from, to)
    requires OccursAt(Replace(s, from, to), c, i)
    ensures OccursAt(s, c, i) && c != from
  {
    var r, n := Replace(s, from, to), |from|;
    if i == 0 {
      assert c[0..] == c && r[0..n] == r[..n];
      ReplaceKeepsTails(s, from, to, c, 0);
      assert s[0..n] == s[..n];
    } else if |s| < n {
      assert false;
    } else {
      var m := s[..n] == from;
      var step := if m then n else 1;
      if i < step {
        OverlapTail(to, Replace(s[n..], from, to), c, i);
        assert false;
      } else {
        assert r[step..] == Replace(s[step..], from, to);
        OccursShift(r, step, c, i);
        ReplaceCreatesNone(s[step..], from, to, c, i - step);
        OccursShift(s, step, c, i);
      }
    }
  }

  /** ... and leaves none of the replaced code, overlapping occurrences included. */
  lemma ReplaceClears(s: string, from: string, to: string, c: string)
    requires Compatible(c, from, to)
    requires c == from || !Contains(s, c)
    ensures !Contains(Replace(s, from, to), c)
  {
    var r := Replace(s, from, to);
    if Contains(r, c) {
      var i: nat :| i + |c| <= |r| && OccursAt(r, c, i);
      ReplaceCreatesNone(s, from, to, c, i);
    }
  }

  /** Replacement by a text of equal length only touches characters inside an occurrence. */
  lemma {:induction false} ReplaceKeepsRest(s: string, from: string, to: string, k: nat)
    requires |to| == |from| > 0 && k < |s|
    requires forall i: nat :: OccursAt(s, from, i) ==> !(i <= k < i + |from|)
    ensures |Replace(s, from, to)| == |s| && Replace(s, from, to)[k] == s[k]
  {
    var n := |from|;
    ReplaceLength(s, from, to);
    if |s| < n {
    } else {
      var step := if s[..n] == from then n else 1;
      assert s[0..0 + n] == s[..n] && (s[..n] == from ==> OccursAt(s, from, 0));
      if k >= step {
        forall i: nat | OccursAt(s[step..], from, i) ensures !(i <= k - step < i + n) {
          OccursShift(s, step, from, step + i);
        }
        ReplaceKeepsRest(s[step..], from, to, k - step);
      }
    }
  }

  lemma ReplaceLength(s: string, from: string, to: string)
    requires |to| == |from| > 0
    ensures |Replace(s, from, to)| == |s|
  {
  }

  /** The characters Python's `str.strip` removes. */
  predicate IsSpace(c: char) {
    var n := c as int;
    || 9 <= n <= 13 || 28 <= n <= 32 || n == 0x85 || n == 0xA0 || n == 0x1680
    || 0x2000 <= n <= 0x200A || n == 0x2028 || n == 0x2029 || n == 0x202F || n == 0x205F || n == 0x3000
  }

  /** Python's `s.strip()`. */
  function Strip(s: string): string {
    if s != "" && IsSpace(s[0]) then Strip(s[1..])
    else if s != "" && IsSpace(s[|s| - 1]) then Strip(s[..|s| - 1])
    else s
  }

  predicate Trimmed(s: string) {
    s == "" || (!IsSpace(s[0]) && !IsSpace(s[|s| - 1]))
  }

  lemma StripIsTrimmed(s: string)
    ensures Trimmed(Strip(s))
  {
  }

  lemma StripIdempotent(s: string)
    ensures Strip(Strip(s)) == Strip(s)
  {
    StripIsTrimmed(s);
  }

  /** What stays is one stretch of the text, with nothing but spaces on either side. */
  lemma StripMeaning(s: string) returns (i: nat, j: nat)
    ensures i <= j <= |s| && Strip(s) == s[i..j] && Trimmed(Strip(s))
    ensures (forall k :: 0 <= k < i ==> IsSpace(s[k])) && (forall k :: j <= k < |s| ==> IsSpace(s[k]))
  {
    if s != "" && IsSpace(s[0]) {
      i, j := StripMeaning(s[1..]);
      i, j := i + 1, j + 1;
    } else if s != "" && IsSpace(s[|s| - 1]) {
      i, j := StripMeaning(s[..|s| - 1]);
    } else {
      i, j := 0, |s|;
    }
  }

  /** Python's string order: code points, left to right. */
  predicate TextLess(a: string, b: string) {
    if b == "" then false
    else if a == "" then true
    else if a[0] != b[0] then a[0] < b[0]
    else TextLess(a[1..], b[1..])
  }

  lemma {:induction false} TextLessTotal(a: string, b: string)
    ensures a != b ==> TextLess(a, b) || TextLess(b, a)
    ensures !(TextLess(a, b) && TextLess(b, a))
    ensures TextLess(a, b) ==> a != b
  {
    if a != "" && b != "" && a[0] == b[0] {
      TextLessTotal(a[1..], b[1..]);
      assert a == [a[0]] + a[1..] && b == [b[0]] + b[1..];
    }
  }

  lemma {:induction false} TextLessTransitive(a: string, b: string, c: string)
    requires TextLess(a, b) && TextLess(b, c)
    ensures TextLess(a, c)
  {
    if a != "" && b != "" && c != "" && a[0] == b[0] == c[0] { TextLessTransitive(a[1..], b[1..], c[1..]); }
  }

  /** The texts agree up to a place where the first ends or has the smaller character. */
  ghost predicate ComesBefore(a: string, b: string) {
    exists k: nat :: DifferFrom(a, b, k)
  }

  ghost predicate DifferFrom(a: string, b: string, k: nat) {
    k <= |a| && k < |b| && a[..k] == b[..k] && (k == |a| || a[k] < b[k])
  }

  lemma {:induction false} TextLessMeaning(a: string, b: string)
    ensures TextLess(a, b) <==> ComesBefore(a, b)
  {
    if b == "" || a == "" || a[0] != b[0] {
      assert TextLess(a, b) ==> DifferFrom(a, b, 0);
      assert forall k: nat :: DifferFrom(a, b, k) && k > 0 ==> a[..k][0] == b[..k][0];
    } else {
      TextLessMeaning(a[1..], b[1..]);
      if TextLess(a, b) {
        var k: nat :| DifferFrom(a[1..], b[1..], k);
        assert a[..k + 1] == [a[0]] + a[1..][..k] && b[..k + 1] == [b[0]] + b[1..][..k];
        assert DifferFrom(a, b, k + 1);
      }
      if k: nat :| DifferFrom(a, b, k) {
        assert a[1..][..k - 1] == a[..k][1..] && b[1..][..k - 1] == b[..k][1..];
        assert DifferFrom(a[1..], b[1..], k - 1);
      }
    }
  }
}
