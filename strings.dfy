/** The pieces of Rust's `str` API that the command-line front end uses to build
    its README: `replace`, `replacen(_, _, 1)`, `lines`, `trim_end`, `join` and
    `to_uppercase`, each on `string = seq<char>`. */
module Strings {

  // ---------------------------------------------------------------------------
  // Occurrences of a pattern

  predicate StartsWith(s: string, p: string) {
    |p| <= |s| && s[..|p|] == p
  }

  /** `p` occurs in `s` starting at index `i`. */
  predicate OccursAt(s: string, p: string, i: nat) {
    i + |p| <= |s| && s[i..i + |p|] == p
  }

  /** No occurrence of `p` in `s` starts before index `i`. */
  predicate NoOccurrenceBefore(s: string, p: string, i: nat) {
    forall j: nat :: j < i ==> !OccursAt(s, p, j)
  }

  /** `p` occurs nowhere in `s`. */
  predicate Absent(s: string, p: string) {
    NoOccurrenceBefore(s, p, |s|)
  }

  lemma OccursShift(s: string, p: string, i: nat)
    requires 0 < i && 0 < |s|
    ensures OccursAt(s, p, i) <==> OccursAt(s[1..], p, i - 1)
  {
    if i + |p| <= |s| {
      assert s[1..][i - 1..i - 1 + |p|] == s[i..i + |p|];
    }
  }

  lemma NoOccurrenceShift(s: string, p: string, i: nat)
    requires 0 < |s| && 0 < i && !OccursAt(s, p, 0)
    ensures NoOccurrenceBefore(s, p, i) <==> NoOccurrenceBefore(s[1..], p, i - 1)
  {
    forall j: nat | 0 < j < i
      ensures OccursAt(s, p, j) <==> OccursAt(s[1..], p, j - 1)
    {
      OccursShift(s, p, j);
    }
    if NoOccurrenceBefore(s[1..], p, i - 1) {
      forall j: nat | j < i ensures !OccursAt(s, p, j) {
        if 0 < j {
          OccursShift(s, p, j);
        }
      }
    }
    if NoOccurrenceBefore(s, p, i) {
      forall j: nat | j < i - 1 ensures !OccursAt(s[1..], p, j) {
        OccursShift(s, p, j + 1);
      }
    }
  }

  // ---------------------------------------------------------------------------
  // `str::replace` and `str::replacen(_, _, 1)`

  /** `s.replace(from, to)`: every occurrence of `from`, found left to right
      without overlap, is replaced by `to`. */
  function ReplaceAll(s: string, from: string, to: string): (r: string)
    requires |from| > 0
    ensures NoOccurrenceBefore(s, from, |s|) ==> r == s
    ensures |to| <= |from| ==> |r| <= |s|
    decreases |s|
  {
    if |s| < |from| then
      s
    else if StartsWith(s, from) then
      assert OccursAt(s, from, 0);
      to + ReplaceAll(s[|from|..], from, to)
    else
      var rest := ReplaceAll(s[1..], from, to);
      assert NoOccurrenceBefore(s, from, |s|) ==> NoOccurrenceBefore(s[1..], from, |s| - 1) by {
        assert !OccursAt(s, from, 0);
        NoOccurrenceShift(s, from, |s|);
      }
      assert s == [s[0]] + s[1..];
      [s[0]] + rest
  }

  /** Index of the first occurrence of `p` in `s`, or `|s|` when there is none
      (the first item of Rust's `match_indices`). */
  function FindFirst(s: string, p: string): (k: nat)
    requires |p| > 0
    ensures k <= |s| && NoOccurrenceBefore(s, p, k)
    ensures k < |s| ==> OccursAt(s, p, k)
    decreases |s|
  {
    if |s| < |p| then
      |s|
    else if StartsWith(s, p) then
      0
    else
      var k := 1 + FindFirst(s[1..], p);
      assert !OccursAt(s, p, 0);
      NoOccurrenceShift(s, p, k);
      if k < |s| then OccursShift(s, p, k); k else k
  }

  /** `s.replacen(from, to, 1)`: only the first occurrence of `from` is
      replaced; text before and after it is kept, and a string without an
      occurrence comes back unchanged. */
  function ReplaceFirst(s: string, from: string, to: string): (r: string)
    requires |from| > 0
    ensures NoOccurrenceBefore(s, from, |s|) ==> r == s
    ensures forall i: nat :: OccursAt(s, from, i) && NoOccurrenceBefore(s, from, i) ==>
              r == s[..i] + to + s[i + |from|..]
  {
    var k := FindFirst(s, from);
    if k < |s| then s[..k] + to + s[k + |from|..] else s
  }

  /** Text that contains no character equal to the first character of `from`
      is copied through `ReplaceAll` untouched. */
  lemma {:induction false} ReplaceAllSkipPrefix(p: string, q: string, from: string, to: string)
    requires |from| > 0
    requires from[0] !in p
    ensures ReplaceAll(p + q, from, to) == p + ReplaceAll(q, from, to)
    decreases |p|
  {
    if p == [] {
      assert p + q == q;
    } else {
      var s := p + q;
      assert s[0] == p[0] && p[0] in p;
      assert s[1..] == p[1..] + q;
      assert from[0] !in p[1..] by {
        assert p == [p[0]] + p[1..];
      }
      ReplaceAllStep(s, from, to);
      ReplaceAllSkipPrefix(p[1..], q, from, to);
      calc {
        ReplaceAll(s, from, to);
        [p[0]] + ReplaceAll(p[1..] + q, from, to);
        [p[0]] + (p[1..] + ReplaceAll(q, from, to));
        { ConcatAssoc([p[0]], p[1..], ReplaceAll(q, from, to)); }
        ([p[0]] + p[1..]) + ReplaceAll(q, from, to);
        { assert [p[0]] + p[1..] == p; }
        p + ReplaceAll(q, from, to);
      }
    }
  }

  /** A match between two stretches that cannot start a match. */
  lemma ReplaceAllAround(h: string, f: string, rest: string, from: string, to: string)
    requires |from| > 0 && from[0] !in h && from[0] !in f
    ensures ReplaceAll(h + from + f + rest, from, to) == h + to + f + ReplaceAll(rest, from, to)
  {
    var r := ReplaceAll(rest, from, to);
    calc {
      ReplaceAll(h + from + f + rest, from, to);
      { assert h + from + f + rest == h + (from + (f + rest)); }
      ReplaceAll(h + (from + (f + rest)), from, to);
      { ReplaceAllSkipPrefix(h, from + (f + rest), from, to); }
      h + ReplaceAll(from + (f + rest), from, to);
      { ReplaceAllMatch(from, f + rest, to); }
      h + (to + ReplaceAll(f + rest, from, to));
      { ReplaceAllSkipPrefix(f, rest, from, to); }
      h + (to + (f + r));
      { assert h + (to + (f + r)) == h + to + f + r; }
      h + to + f + r;
    }
  }

  /** A stretch `a` whose first character starts no match and whose other
      characters cannot start one, followed by a stretch that cannot start
      one either, is copied. */
  lemma ReplaceAllPast(h: string, a: string, rest: string, from: string, to: string)
    requires |from| > 0 && from[0] !in h && |a| > 0 && from[0] !in a[1..]
    requires !StartsWith(a + rest, from)
    ensures ReplaceAll(h + a + rest, from, to) == h + a + ReplaceAll(rest, from, to)
  {
    var r := ReplaceAll(rest, from, to);
    ReplaceAllCopies(a, rest, from, to);
    ReplaceAllSkipPrefix(h, a + rest, from, to);
    ConcatAssoc(h, a, rest);
    ConcatAssoc(h, a, r);
  }

  /** The stretch `a` of `ReplaceAllPast`, on its own. */
  lemma ReplaceAllCopies(a: string, rest: string, from: string, to: string)
    requires |from| > 0 && |a| > 0 && from[0] !in a[1..]
    requires !StartsWith(a + rest, from)
    ensures ReplaceAll(a + rest, from, to) == a + ReplaceAll(rest, from, to)
  {
    var r := ReplaceAll(rest, from, to);
    var x := a + rest;
    assert x[0] == a[0] && x[1..] == a[1..] + rest;
    ReplaceAllNoMatchStep(x, from, to);
    ReplaceAllSkipPrefix(a[1..], rest, from, to);
    ConcatAssoc([a[0]], a[1..], r);
    assert [a[0]] + a[1..] == a;
  }

  /** One character that cannot start a match is copied and the rest is
      processed on its own. */
  lemma ReplaceAllStep(s: string, from: string, to: string)
    requires |from| > 0 && |s| > 0 && s[0] != from[0]
    ensures ReplaceAll(s, from, to) == [s[0]] + ReplaceAll(s[1..], from, to)
  {
    if |s| >= |from| {
      assert s[..|from|][0] == s[0];
    } else {
      assert |s[1..]| < |from|;
      assert s == [s[0]] + s[1..];
    }
  }

  /** A position where no match starts is copied as it is. */
  lemma ReplaceAllNoMatchStep(s: string, from: string, to: string)
    requires |from| > 0 && |s| > 0 && !StartsWith(s, from)
    ensures ReplaceAll(s, from, to) == [s[0]] + ReplaceAll(s[1..], from, to)
  {
    if |s| < |from| {
      assert |s[1..]| < |from|;
      assert s == [s[0]] + s[1..];
    }
  }

  lemma ReplaceAllMatch(from: string, q: string, to: string)
    requires |from| > 0
    ensures ReplaceAll(from + q, from, to) == to + ReplaceAll(q, from, to)
  {
    assert (from + q)[..|from|] == from;
    assert (from + q)[|from|..] == q;
  }

  /** The first character of the result is the first character of the input
      when no match starts there, or when the replacement starts with it. */
  lemma ReplaceAllKeepsHead(s: string, from: string, to: string)
    requires |from| > 0 && |s| > 0 && (!StartsWith(s, from) || (to != [] && to[0] == s[0]))
    ensures |ReplaceAll(s, from, to)| > 0 && ReplaceAll(s, from, to)[0] == s[0]
  {
    if !StartsWith(s, from) {
      ReplaceAllNoMatchStep(s, from, to);
    }
  }

  /** The left-to-right scan: the text before the first occurrence is copied,
      that occurrence is replaced, and the scan resumes right after it, so
      matches never overlap. With `ReplaceAll`'s own contract (no occurrence,
      no change) this determines the result completely. */
  lemma {:induction false} ReplaceAllAtFirst(s: string, from: string, to: string)
    requires |from| > 0
    ensures var k := FindFirst(s, from);
            k < |s| ==> ReplaceAll(s, from, to) == s[..k] + to + ReplaceAll(s[k + |from|..], from, to)
    decreases |s|
  {
    var k := FindFirst(s, from);
    if k < |s| {
      if StartsWith(s, from) {
        assert k == 0 && s[..0] + to == to;
      } else {
        FindFirstStep(s, from);
        ReplaceAllNoMatchStep(s, from, to);
        ReplaceAllAtFirst(s[1..], from, to);
        PrependCopied(s, k, to, ReplaceAll(s[k + |from|..], from, to), |from|);
      }
    }
  }

  lemma FindFirstStep(s: string, p: string)
    requires |p| > 0 && |s| > 0 && !StartsWith(s, p) && FindFirst(s, p) < |s|
    ensures FindFirst(s, p) == 1 + FindFirst(s[1..], p)
  {
  }

  lemma PrependCopied(s: string, k: nat, to: string, tail: string, n: nat)
    requires 0 < k && k + n <= |s|
    ensures s[1..][k - 1 + n..] == s[k + n..]
    ensures [s[0]] + (s[1..][..k - 1] + to + tail) == s[..k] + to + tail
  {
    assert s[1..][..k - 1] == s[1..k];
    ConcatAssoc([s[0]], s[1..k] + to, tail);
    ConcatAssoc([s[0]], s[1..k], to);
    assert [s[0]] + s[1..k] == s[..k];
  }

  // ---------------------------------------------------------------------------
  // Occurrences left after a replacement

  /** `a` and `b` differ at a position both have: neither is a prefix of the
      other. */
  predicate Diverge(a: string, b: string) {
    exists i :: 0 <= i < |a| && i < |b| && a[i] != b[i]
  }

  /** No occurrence of `p` can overlap an inserted `to`: no proper suffix of `p`
      runs on into `to`, and no suffix of `to` runs on into `p`. */
  predicate CannotStraddle(p: string, to: string) {
    && (forall j :: 1 <= j < |p| ==> Diverge(p[j..], to))
    && (forall i :: 0 <= i < |to| ==> Diverge(to[i..], p))
  }

  lemma OccursInSuffix(a: string, b: string, p: string, j: nat)
    requires |a| <= j && OccursAt(a + b, p, j)
    ensures OccursAt(b, p, j - |a|)
  {
    assert (a + b)[j..j + |p|] == b[j - |a|..j - |a| + |p|];
  }

  lemma NoOccurrenceDrop(s: string, p: string, n: nat)
    requires n <= |s| && Absent(s, p)
    ensures Absent(s[n..], p)
  {
    forall j: nat | j < |s| - n ensures !OccursAt(s[n..], p, j) {
      assert !OccursAt(s, p, n + j);
      if j + |p| <= |s| - n {
        assert s[n..][j..j + |p|] == s[n + j..n + j + |p|];
      }
    }
  }

  /** What the preconditions below exclude: an occurrence of `p` at the start
      of a text where no match of `from` starts. */
  lemma NoOccurrenceAtStart(s: string, from: string, p: string)
    requires |s| > 0 && !StartsWith(s, from)
    requires p == from || Absent(s, p)
    ensures !OccursAt(s, p, 0)
  {
  }

  /** After the scan, no occurrence of `p` starts at a copied first character
      that did not start a match. */
  lemma NoOccurrenceAtCopiedHead(s: string, from: string, to: string, p: string)
    requires |from| > 0 && |p| > 0 && CannotStraddle(p, to)
    requires |s| > 0 && !StartsWith(s, from)
    requires p == from || Absent(s, p)
    ensures !OccursAt([s[0]] + ReplaceAll(s[1..], from, to), p, 0)
  {
    NoOccurrenceAtStart(s, from, p);
    assert [s[0]] + s[1..] == s;
    CopiedPrefixAvoids([s[0]], s[1..], from, to, p);
  }

  /** Once a non-empty head `h` has been copied, scanning the rest `t` adds no
      occurrence of `p` at the start that `h + t` did not have: the scan
      copies more characters of `t`, and the first `to` it inserts cannot
      complete `p`. */
  lemma {:induction false} CopiedPrefixAvoids(h: string, t: string, from: string, to: string, p: string)
    requires |from| > 0 && |p| > 0 && |h| > 0 && CannotStraddle(p, to)
    requires !OccursAt(h + t, p, 0)
    ensures !OccursAt(h + ReplaceAll(t, from, to), p, 0)
    decreases |t|
  {
    if |t| < |from| {
      ShortTextKept(t, from, to);
    } else if StartsWith(t, from) {
      MatchAfterHead(h, t, from, to, p);
    } else {
      ReplaceAllNoMatchStep(t, from, to);
      MoveHead(h, t);
      CopiedPrefixAvoids(h + [t[0]], t[1..], from, to, p);
      AvoidsWithLongerHead(h, t[0], ReplaceAll(t[1..], from, to), ReplaceAll(t, from, to), p);
    }
  }

  lemma ShortTextKept(t: string, from: string, to: string)
    requires 0 < |from| && |t| < |from|
    ensures ReplaceAll(t, from, to) == t
  {
  }

  /** The scan reaches a match right after the copied head `h`. */
  lemma MatchAfterHead(h: string, t: string, from: string, to: string, p: string)
    requires |from| > 0 && |p| > 0 && |h| > 0 && CannotStraddle(p, to)
    requires !OccursAt(h + t, p, 0) && StartsWith(t, from)
    ensures !OccursAt(h + ReplaceAll(t, from, to), p, 0)
  {
    assert ReplaceAll(t, from, to) == to + ReplaceAll(t[|from|..], from, to);
    CopiedHeadBeforeMatch(h, t, to, ReplaceAll(t[|from|..], from, to), p);
  }

  lemma MoveHead(h: string, t: string)
    requires |t| > 0
    ensures (h + [t[0]]) + t[1..] == h + t
  {
    ConcatAssoc(h, [t[0]], t[1..]);
    assert [t[0]] + t[1..] == t;
  }

  lemma AvoidsWithLongerHead(h: string, c: char, rest: string, r: string, p: string)
    requires r == [c] + rest && !OccursAt((h + [c]) + rest, p, 0)
    ensures !OccursAt(h + r, p, 0)
  {
    ConcatAssoc(h, [c], rest);
  }

  /** A copied head `h` followed by an inserted `to` starts no occurrence of
      `p` when `h + t` does not. */
  lemma CopiedHeadBeforeMatch(h: string, t: string, to: string, tail: string, p: string)
    requires |h| > 0 && |p| > 0 && CannotStraddle(p, to) && !OccursAt(h + t, p, 0)
    ensures !OccursAt(h + (to + tail), p, 0)
  {
    var out := h + (to + tail);
    var j := |h|;
    if j >= |p| {
      assert out[..|p|] == h[..|p|] == (h + t)[..|p|];
    } else {
      assert Diverge(p[j..], to);
      var i :| 0 <= i < |p[j..]| && i < |to| && p[j..][i] != to[i];
      assert out[j + i] == to[i] != p[j + i];
      if |p| <= |out| {
        assert out[..|p|][j + i] != p[j + i];
      }
    }
  }

  /** A replacement that no occurrence of `p` can straddle leaves no
      occurrence of `p`: none of the pattern itself (`p == from`), and none of
      another pattern the input did not contain. */
  lemma {:induction false} ReplaceAllAvoids(s: string, from: string, to: string, p: string)
    requires |from| > 0 && |p| > 0 && CannotStraddle(p, to)
    requires p == from || Absent(s, p)
    ensures Absent(ReplaceAll(s, from, to), p)
    decreases |s|
  {
    var r := ReplaceAll(s, from, to);
    if |s| < |from| {
      assert r == s;
    } else if StartsWith(s, from) {
      var rest := s[|from|..];
      if p != from {
        NoOccurrenceDrop(s, p, |from|);
      }
      ReplaceAllAvoids(rest, from, to, p);
      var t := ReplaceAll(rest, from, to);
      assert r == to + t;
      forall j: nat | j < |r| ensures !OccursAt(r, p, j) {
        if j < |to| {
          assert Diverge(to[j..], p);
          var i :| 0 <= i < |to[j..]| && i < |p| && to[j..][i] != p[i];
          assert r[j + i] == to[j + i] != p[i];
          if j + |p| <= |r| {
            assert r[j..j + |p|][i] != p[i];
          }
        } else if OccursAt(r, p, j) {
          OccursInSuffix(to, t, p, j);
        }
      }
    } else {
      if p != from {
        NoOccurrenceDrop(s, p, 1);
      }
      ReplaceAllAvoids(s[1..], from, to, p);
      var t := ReplaceAll(s[1..], from, to);
      ReplaceAllNoMatchStep(s, from, to);
      forall j: nat | j < |r| ensures !OccursAt(r, p, j) {
        if j == 0 {
          NoOccurrenceAtCopiedHead(s, from, to, p);
        } else if OccursAt(r, p, j) {
          OccursInSuffix([s[0]], t, p, j);
        }
      }
    }
  }

  /** A text containing neither `p` nor a line break cannot make a
      pattern without line breaks straddle an inserted line break. */
  lemma BreakCannotStraddle(p: string)
    requires |p| > 0 && '\n' !in p
    ensures CannotStraddle(p, "\n")
  {
    forall j | 1 <= j < |p| ensures Diverge(p[j..], "\n") {
      assert p[j..][0] == p[j] && p[j] in p;
    }
    forall i | 0 <= i < 1 ensures Diverge("\n"[i..], p) {
      assert p[0] in p;
    }
  }

  /** What is absent from a text is absent from each of its pieces. */
  lemma AbsentInParts(a: string, b: string, p: string)
    requires Absent(a + b, p)
    ensures Absent(a, p) && Absent(b, p)
  {
    forall j: nat | j < |a| ensures !OccursAt(a, p, j) {
      assert !OccursAt(a + b, p, j);
      if j + |p| <= |a| {
        assert (a + b)[j..j + |p|] == a[j..j + |p|];
      }
    }
    forall j: nat | j < |b| ensures !OccursAt(b, p, j) {
      assert !OccursAt(a + b, p, |a| + j);
      if j + |p| <= |b| {
        assert (a + b)[|a| + j..|a| + j + |p|] == b[j..j + |p|];
      }
    }
  }

  /** An occurrence of a pattern without line breaks lies on one side of
      every line break. */
  lemma AbsentAroundBreak(a: string, b: string, p: string)
    requires |p| > 0 && '\n' !in p && Absent(a, p) && Absent(b, p)
    ensures Absent(a + "\n" + b, p)
  {
    var s := a + "\n" + b;
    forall j: nat | j < |s| ensures !OccursAt(s, p, j) {
      if j + |p| <= |a| {
        assert s[j..j + |p|] == a[j..j + |p|];
        assert !OccursAt(a, p, j);
      } else if j > |a| {
        if OccursAt(s, p, j) {
          OccursInSuffix(a + "\n", b, p, j);
        }
      } else if j + |p| <= |s| {
        assert s[j..j + |p|][|a| - j] == s[|a|] == '\n';
        assert s[j..j + |p|] != p by {
          assert p[|a| - j] in p;
        }
      }
    }
  }

  /** No line of a text contains a pattern the text does not contain. */
  lemma {:induction false} AbsentFromLines(s: string, p: string)
    requires Absent(s, p)
    ensures forall l :: l in Lines(s) ==> Absent(l, p)
    decreases |s|
  {
    if s != [] {
      var k := IndexOf(s, '\n');
      if k < |s| {
        assert s == s[..k] + ([s[k]] + s[k + 1..]);
        AbsentInParts(s[..k], [s[k]] + s[k + 1..], p);
        AbsentInParts([s[k]], s[k + 1..], p);
        AbsentFromLines(s[k + 1..], p);
        var first := StripCarriageReturn(s[..k]);
        if first != s[..k] {
          AbsentInParts(first, ['\r'], p);
        }
        assert Lines(s) == [first] + Lines(s[k + 1..]);
      }
    }
  }

  /** Joining lines at line breaks forms no occurrence of a pattern without
      line breaks. */
  lemma {:induction false} AbsentFromJoin(parts: seq<string>, p: string)
    requires |p| > 0 && '\n' !in p
    requires forall l :: l in parts ==> Absent(l, p)
    ensures Absent(Join(parts, "\n"), p)
    decreases |parts|
  {
    if |parts| > 1 {
      assert parts[0] in parts;
      assert forall l :: l in parts[1..] ==> l in parts;
      AbsentFromJoin(parts[1..], p);
      AbsentAroundBreak(parts[0], Join(parts[1..], "\n"), p);
    } else if |parts| == 1 {
      assert parts[0] in parts;
    }
  }

  // ---------------------------------------------------------------------------
  // Whitespace and `str::trim_end`

  /** Rust's `char::is_whitespace`: the Unicode White_Space property. */
  predicate IsWhitespace(c: char)
    ensures c as int < 0x80 ==> (IsWhitespace(c) <==> c == ' ' || '\t' <= c <= '\r')
    ensures IsWhitespace(c) ==> c != '#' && c != '`' && !IsAsciiLower(c)
  {
    var n := c as int;
    (0x09 <= n <= 0x0D) || n == 0x20 || n == 0x85 || n == 0xA0 || n == 0x1680
    || (0x2000 <= n <= 0x200A) || n == 0x2028 || n == 0x2029 || n == 0x202F
    || n == 0x205F || n == 0x3000
  }

  /** `s.trim_end()`: the longest prefix of `s` whose remainder is all
      whitespace and which itself does not end in whitespace. */
  function TrimEnd(s: string): (t: string)
    ensures |t| <= |s| && t == s[..|t|]
    ensures forall i :: |t| <= i < |s| ==> IsWhitespace(s[i])
    ensures t == [] || !IsWhitespace(t[|t| - 1])
    decreases |s|
  {
    if s != [] && IsWhitespace(s[|s| - 1]) then TrimEnd(s[..|s| - 1]) else s
  }

  lemma TrimEndIdempotent(s: string)
    ensures TrimEnd(TrimEnd(s)) == TrimEnd(s)
  {
  }

  // ---------------------------------------------------------------------------
  // Splitting and joining

  /** Index of the first `c` in `s`, or `|s|` when there is none. */
  function IndexOf(s: string, c: char): (k: nat)
    ensures k <= |s| && c !in s[..k] && (k < |s| ==> s[k] == c)
    ensures forall j :: 0 <= j < k ==> s[j] != c
    ensures c !in s ==> k == |s|
    decreases |s|
  {
    if s == [] then 0
    else if s[0] == c then 0
    else
      var k := 1 + IndexOf(s[1..], c);
      assert s[..k] == [s[0]] + s[1..][..k - 1];
      assert c !in s ==> c !in s[1..] by {
        assert forall x :: x in s[1..] ==> x in s;
      }
      k
  }

  /** `parts.join(sep)` on a `Vec<String>` / `Vec<&str>`. */
  function Join(parts: seq<string>, sep: string): (r: string)
    ensures |parts| > 0 ==> |r| == TotalLength(parts) + (|parts| - 1) * |sep|
    ensures |parts| > 0 ==> r[..|parts[0]|] == parts[0]
    ensures |parts| == 0 ==> r == []
    decreases |parts|
  {
    if |parts| == 0 then ""
    else if |parts| == 1 then parts[0]
    else parts[0] + sep + Join(parts[1..], sep)
  }

  /** The summed length of the parts. */
  function TotalLength(parts: seq<string>): nat
  {
    if parts == [] then 0 else |parts[0]| + TotalLength(parts[1..])
  }

  /** Splitting at every `c`, keeping empty pieces (Rust's `str::split` with a
      `char`): the reference against which `Join` and `Lines` are checked. */
  function Split(s: string, c: char): (parts: seq<string>)
    ensures |parts| >= 1
    ensures forall i :: 0 <= i < |parts| ==> c !in parts[i]
    decreases |s|
  {
    var k := IndexOf(s, c);
    if k == |s| then [s] else [s[..k]] + Split(s[k + 1..], c)
  }

  /** Joining a first part and a non-empty list of further parts. */
  lemma JoinCons(x: string, ys: seq<string>, sep: string)
    requires ys != []
    ensures Join([x] + ys, sep) == x + sep + Join(ys, sep)
  {
    assert ([x] + ys)[1..] == ys;
  }

  lemma {:induction false} JoinAppend(a: seq<string>, b: seq<string>, sep: string)
    requires a != [] && b != []
    ensures Join(a + b, sep) == Join(a, sep) + sep + Join(b, sep)
    decreases |a|
  {
    if |a| == 1 {
      assert (a + b)[1..] == b;
    } else {
      assert (a + b)[1..] == a[1..] + b;
      JoinAppend(a[1..], b, sep);
    }
  }

  /** Splitting a join at the separator gives the parts back, provided no part
      contains the separator. */
  lemma {:induction false} SplitJoin(parts: seq<string>, c: char)
    requires |parts| >= 1
    requires forall i :: 0 <= i < |parts| ==> c !in parts[i]
    ensures Split(Join(parts, [c]), c) == parts
    decreases |parts|
  {
    if |parts| == 1 {
      assert c !in parts[0];
    } else {
      var t := Join(parts[1..], [c]);
      assert c !in parts[0];
      SplitAtFirst(parts[0], t, c);
      SplitJoin(parts[1..], c);
      assert parts == [parts[0]] + parts[1..];
    }
  }

  /** Splitting cuts at the first separator. */
  lemma SplitAtFirst(a: string, b: string, c: char)
    requires c !in a
    ensures Split(a + [c] + b, c) == [a] + Split(b, c)
  {
    var s := a + [c] + b;
    IndexOfAfter(a, b, c);
    assert s[..|a|] == a;
    assert s[|a| + 1..] == b;
  }

  lemma IndexOfAfter(a: string, b: string, c: char)
    requires c !in a
    ensures IndexOf(a + [c] + b, c) == |a|
  {
    var s := a + [c] + b;
    assert s[|a|] == c;
    assert forall j :: 0 <= j < |a| ==> s[j] == a[j] && a[j] in a;
  }

  // ---------------------------------------------------------------------------
  // `str::lines`

  /** A line taken out by `lines()` loses one trailing carriage return. */
  function StripCarriageReturn(l: string): (t: string)
    ensures t == l || (l == t + ['\r'])
  {
    if l != [] && l[|l| - 1] == '\r' then l[..|l| - 1] else l
  }

  /** `s.lines()`: pieces between `'\n'`s, each with one `'\r'` before its
      `'\n'` removed; the empty string has no lines, and a final `'\n'` does
      not start an extra empty line. */
  function Lines(s: string): (ls: seq<string>)
    ensures forall i :: 0 <= i < |ls| ==> '\n' !in ls[i]
    ensures s == [] <==> ls == []
    decreases |s|
  {
    if s == [] then []
    else
      var k := IndexOf(s, '\n');
      if k == |s| then [s]
      else
        assert forall c :: c in StripCarriageReturn(s[..k]) ==> c in s[..k];
        [StripCarriageReturn(s[..k])] + Lines(s[k + 1..])
  }

  lemma ConcatAssoc(a: string, b: string, c: string)
    ensures (a + b) + c == a + (b + c)
  {
  }

  predicate EndsWithNewline(s: string) {
    s != [] && s[|s| - 1] == '\n'
  }

  /** Without carriage returns, joining the lines back with `'\n'` rebuilds the
      text, up to the final line ending that `lines()` drops. */
  lemma {:induction false} LinesJoinRoundTrip(s: string)
    requires '\r' !in s
    ensures Join(Lines(s), "\n") + (if EndsWithNewline(s) then "\n" else "") == s
    decreases |s|
  {
    if s != [] {
      var k := IndexOf(s, '\n');
      if k < |s| {
        FirstBreakParts(s, k);
        LinesJoinRoundTrip(s[k + 1..]);
        JoinedAtFirstBreak(s, k);
      } else {
        JoinedSingleLine(s);
      }
    }
  }

  /** The round trip for a text without any `'\n'`: its one line. */
  lemma JoinedSingleLine(s: string)
    requires s != [] && IndexOf(s, '\n') == |s|
    ensures Join(Lines(s), "\n") + (if EndsWithNewline(s) then "\n" else "") == s
  {
    assert Lines(s) == [s];
    assert s[|s| - 1] != '\n';
  }

  /** The round trip for a text cut at its first `'\n'`, given the round
      trip for what follows it. */
  lemma JoinedAtFirstBreak(s: string, k: nat)
    requires '\r' !in s && k == IndexOf(s, '\n') && k < |s|
    requires var rest := s[k + 1..];
      Join(Lines(rest), "\n") + (if EndsWithNewline(rest) then "\n" else "") == rest
    ensures Join(Lines(s), "\n") + (if EndsWithNewline(s) then "\n" else "") == s
  {
    var line, rest := s[..k], s[k + 1..];
    FirstBreakParts(s, k);
    if rest == [] {
      JoinedLastLine(line);
    } else {
      JoinedLinesStep(line, rest);
    }
  }

  /** A text without carriage returns, cut around its first `'\n'`. */
  lemma FirstBreakParts(s: string, k: nat)
    requires '\r' !in s && k == IndexOf(s, '\n') && k < |s|
    ensures s == s[..k] + "\n" + s[k + 1..]
    ensures '\r' !in s[..k] && '\r' !in s[k + 1..] && '\n' !in s[..k]
  {
    NotInSlice(s, 0, k, '\r');
    NotInSlice(s, k + 1, |s|, '\r');
    CutAround(s, k);
    assert [s[k]] == "\n";
  }

  lemma CutAround(s: string, k: nat)
    requires k < |s|
    ensures s == s[..k] + [s[k]] + s[k + 1..]
  {
  }

  lemma NotInSlice(s: string, i: nat, j: nat, c: char)
    requires i <= j <= |s| && c !in s
    ensures c !in s[i..j]
  {
    forall m | 0 <= m < j - i
      ensures s[i..j][m] != c
    {
      assert s[i..j][m] == s[i + m];
    }
  }

  /** The round trip for a single clean line ended by its `'\n'`. */
  lemma JoinedLastLine(line: string)
    requires '\n' !in line && '\r' !in line
    ensures Join(Lines(line + "\n"), "\n") + "\n" == line + "\n" && EndsWithNewline(line + "\n")
  {
    LastLineParts(line);
    CleanLineKept(line);
    assert Lines(line + "\n") == [line];
  }

  lemma LastLineParts(line: string)
    requires '\n' !in line
    ensures var s := line + "\n";
      IndexOf(s, '\n') == |line| && s[..|line|] == line && s[|line| + 1..] == []
  {
    IndexOfAfter(line, [], '\n');
    assert line + ['\n'] + [] == line + "\n";
  }

  /** One step of the round trip: a clean first line comes back in front of
      the rebuilt remainder. */
  lemma JoinedLinesStep(line: string, rest: string)
    requires '\n' !in line && '\r' !in line && rest != []
    ensures var s := line + "\n" + rest;
      Join(Lines(s), "\n") + (if EndsWithNewline(s) then "\n" else "")
      == line + "\n" + (Join(Lines(rest), "\n") + (if EndsWithNewline(rest) then "\n" else ""))
  {
    LinesCons(line, rest);
    CleanLineKept(line);
    JoinCons(line, Lines(rest), "\n");
    EndingAfterBreak(line, rest);
    ConcatAssoc(line + "\n", Join(Lines(rest), "\n"), if EndsWithNewline(rest) then "\n" else "");
  }

  lemma CleanLineKept(line: string)
    requires '\r' !in line
    ensures StripCarriageReturn(line) == line
  {
    assert line == [] || line[|line| - 1] in line;
  }

  lemma EndingAfterBreak(line: string, rest: string)
    requires rest != []
    ensures EndsWithNewline(line + "\n" + rest) == EndsWithNewline(rest)
  {
    var s := line + "\n" + rest;
    assert s[|s| - 1] == rest[|rest| - 1];
  }

  /** A text of a line (no `'\n'`), its `'\n'`, and a non-empty remainder:
      the line comes out first. */
  lemma LinesCons(line: string, rest: string)
    requires '\n' !in line && rest != []
    ensures Lines(line + "\n" + rest) == [StripCarriageReturn(line)] + Lines(rest)
  {
    var s := line + "\n" + rest;
    IndexOfAfter(line, rest, '\n');
    assert s[..|line|] == line;
    assert s[|line| + 1..] == rest;
  }

  // ---------------------------------------------------------------------------
  // `to_uppercase` on identifiers

  predicate IsAsciiLower(c: char) {
    'a' <= c <= 'z'
  }

  function UpperChar(c: char): char {
    if IsAsciiLower(c) then (c as int - 32) as char else c
  }

  /** `s.to_uppercase()` for ASCII text: lower-case letters become upper-case,
      everything else is kept, position by position. */
  function ToUpper(s: string): (u: string)
    ensures |u| == |s|
    ensures forall i :: 0 <= i < |s| ==> u[i] == UpperChar(s[i])
    ensures forall i :: 0 <= i < |u| ==> !IsAsciiLower(u[i])
    decreases |s|
  {
    if s == [] then [] else [UpperChar(s[0])] + ToUpper(s[1..])
  }

  lemma ToUpperIdempotent(s: string)
    ensures ToUpper(ToUpper(s)) == ToUpper(s)
  {
  }
}
