/**
  String operations of Python's `str` that the pipeline relies on, restricted
  to ASCII: `lower`, `strip`, `in` (substring test), `endswith`, `split`,
  `rsplit`, `replace(p, "")`, `count` and the decimal rendering of an `int`.
 */
module Text {

  // ---------------------------------------------------------------------------
  // Case and whitespace
  // ---------------------------------------------------------------------------

  function LowerChar(c: char): char {
    if 'A' <= c <= 'Z' then (c as int + 32) as char else c
  }

  /** `s.lower()` on ASCII text. */
  function Lower(s: string): (r: string)
    ensures |r| == |s|
    ensures forall i :: 0 <= i < |s| ==> r[i] == LowerChar(s[i])
  {
    seq(|s|, i requires 0 <= i < |s| => LowerChar(s[i]))
  }

  /** The characters Python's argument-less `strip()` removes (ASCII part). */
  predicate IsSpace(c: char) {
    c == ' ' || ('\t' <= c <= '\r') || ('\U{1c}' <= c <= '\U{1f}')
  }

  /** Every character is whitespace. */
  predicate AllSpace(s: string) {
    forall i :: 0 <= i < |s| ==> IsSpace(s[i])
  }

  function TrimStart(s: string): (r: string)
    ensures |r| <= |s| && r == s[|s| - |r|..]
    ensures AllSpace(s[..|s| - |r|])
    ensures r != [] ==> !IsSpace(r[0])
    decreases |s|
  {
    if s != [] && IsSpace(s[0]) then
      var r := TrimStart(s[1..]);
      assert s[..|s| - |r|] == [s[0]] + s[1..][..|s| - 1 - |r|];
      r
    else s
  }

  function TrimEnd(s: string): (r: string)
    ensures |r| <= |s| && r == s[..|r|]
    ensures AllSpace(s[|r|..])
    ensures r != [] ==> !IsSpace(r[|r| - 1])
    decreases |s|
  {
    if s != [] && IsSpace(s[|s| - 1]) then
      var r := TrimEnd(s[..|s| - 1]);
      assert s[|r|..] == s[..|s| - 1][|r|..] + [s[|s| - 1]];
      r
    else s
  }

  /** Neither end of the text is whitespace. */
  predicate IsStripped(s: string) {
    s == [] || (!IsSpace(s[0]) && !IsSpace(s[|s| - 1]))
  }

  /** `s.strip()`: whitespace removed from both ends. */
  function Strip(s: string): (r: string)
    ensures IsStripped(r)
    ensures |r| <= |s|
  {
    var t := TrimEnd(s);
    var r := TrimStart(t);
    assert r != [] ==> r[|r| - 1] == t[|t| - 1];
    r
  }

  /** `s` is `r` with only whitespace `a` before it and `b` after it. */
  predicate PaddedBy(s: string, a: string, r: string, b: string) {
    s == a + r + b && AllSpace(a) && AllSpace(b)
  }

  /** The text is the result of `strip()` with only whitespace on either side. */
  lemma StripDecomposes(s: string)
    ensures exists a, b :: PaddedBy(s, a, Strip(s), b)
  {
    var t := TrimEnd(s);
    var r := TrimStart(t);
    var a := t[..|t| - |r|];
    var b := s[|t|..];
    SplitAt(t, |t| - |r|);
    SplitAt(s, |t|);
    assert PaddedBy(s, a, Strip(s), b);
  }

  lemma SplitAt(s: string, i: nat)
    requires i <= |s|
    ensures s == s[..i] + s[i..]
  {
  }

  /** Trailing whitespace does not change what `TrimEnd` keeps. */
  lemma {:induction false} TrimEndSpaces(x: string, b: string)
    requires AllSpace(b)
    ensures TrimEnd(x + b) == TrimEnd(x)
    decreases |b|
  {
    if b == [] {
      assert x + b == x;
    } else {
      var xb := x + b;
      assert xb[..|xb| - 1] == x + b[..|b| - 1];
      assert IsSpace(xb[|xb| - 1]);
      TrimEndSpaces(x, b[..|b| - 1]);
    }
  }

  /** Leading whitespace does not change what `TrimStart` keeps. */
  lemma {:induction false} TrimStartSpaces(a: string, y: string)
    requires AllSpace(a)
    ensures TrimStart(a + y) == TrimStart(y)
    decreases |a|
  {
    if a == [] {
      assert a + y == y;
    } else {
      assert (a + y)[0] == a[0];
      assert (a + y)[1..] == a[1..] + y;
      TrimStartSpaces(a[1..], y);
    }
  }

  /** `strip()` returns exactly the stripped core between two runs of whitespace. */
  lemma StripUnique(a: string, r: string, b: string)
    requires AllSpace(a) && AllSpace(b) && IsStripped(r)
    ensures Strip(a + r + b) == r
  {
    TrimEndSpaces(a + r, b);
    if r == [] {
      assert a + r == [] + a;
      TrimEndSpaces([], a);
    } else {
      assert (a + r)[|a + r| - 1] == r[|r| - 1];
      assert TrimEnd(a + r) == a + r;
      TrimStartSpaces(a, r);
    }
  }

  /** Stripping a text that is already stripped changes nothing. */
  lemma StripStripped(s: string)
    requires IsStripped(s)
    ensures Strip(s) == s
  {
    StripUnique([], s, []);
    assert [] + s + [] == s;
  }

  /** No upper-case ASCII letter. */
  predicate IsLowerCase(s: string) {
    forall i :: 0 <= i < |s| ==> !('A' <= s[i] <= 'Z')
  }

  /** `s.strip().lower()`: the normal form of an e-mail address before it is loaded. */
  function NormalizeEmail(s: string): (r: string)
    ensures |r| == |Strip(s)| && forall i :: 0 <= i < |r| ==> r[i] == LowerChar(Strip(s)[i])
    ensures IsStripped(r) && IsLowerCase(r)
  {
    var t := Strip(s);
    var r := Lower(t);
    forall i | 0 <= i < |t| ensures !('A' <= r[i] <= 'Z') && (IsSpace(r[i]) <==> IsSpace(t[i])) {
      LowerCharFacts(t[i]);
    }
    r
  }

  /** Normalizing an e-mail address twice gives the same address as once. */
  lemma NormalizeEmailIdempotent(s: string)
    ensures NormalizeEmail(NormalizeEmail(s)) == NormalizeEmail(s)
  {
    var r := NormalizeEmail(s);
    StripStripped(r);
    var rr := NormalizeEmail(r);
    forall i | 0 <= i < |r| ensures rr[i] == r[i] {
      assert !('A' <= r[i] <= 'Z');
    }
  }

  lemma LowerCharFacts(c: char)
    ensures !('A' <= LowerChar(c) <= 'Z')
    ensures IsSpace(LowerChar(c)) <==> IsSpace(c)
  {
  }

  // ---------------------------------------------------------------------------
  // Prefixes, suffixes and the substring test
  // ---------------------------------------------------------------------------

  predicate IsPrefix(p: string, s: string) {
    |p| <= |s| && s[..|p|] == p
  }

  /** `s.endswith(suffix)`. */
  predicate EndsWith(s: string, suffix: string) {
    |suffix| <= |s| && s[|s| - |suffix|..] == suffix
  }

  /** Python's `p in s`: `p` occurs somewhere in `s`. */
  predicate Contains(s: string, p: string)
    decreases |s|
  {
    IsPrefix(p, s) || (s != [] && Contains(s[1..], p))
  }

  lemma {:induction false} ContainsAt(s: string, p: string, i: nat)
    requires i + |p| <= |s| && s[i..i + |p|] == p
    ensures Contains(s, p)
    decreases i
  {
    if i > 0 {
      assert s[1..][i - 1..i - 1 + |p|] == s[i..i + |p|];
      ContainsAt(s[1..], p, i - 1);
    }
  }

  lemma {:induction false} ContainsWitness(s: string, p: string) returns (i: nat)
    requires Contains(s, p)
    ensures i + |p| <= |s| && s[i..i + |p|] == p
    decreases |s|
  {
    if IsPrefix(p, s) {
      i := 0;
    } else {
      var j := ContainsWitness(s[1..], p);
      assert s[1..][j..j + |p|] == s[j + 1..j + 1 + |p|];
      i := j + 1;
    }
  }

  /** A text that contains `p` still contains it once more text is appended on either side. */
  lemma ContainsExtend(a: string, s: string, b: string, p: string)
    requires Contains(s, p)
    ensures Contains(a + s + b, p)
  {
    var i := ContainsWitness(s, p);
    assert (a + s + b)[|a| + i..|a| + i + |p|] == s[i..i + |p|];
    ContainsAt(a + s + b, p, |a| + i);
  }

  /** An occurrence of a text without upper-case letters survives `lower()`. */
  lemma LowerKeepsOccurrence(s: string, p: string, i: nat)
    requires i + |p| <= |s| && s[i..i + |p|] == p
    requires forall k :: 0 <= k < |p| ==> !('A' <= p[k] <= 'Z')
    ensures Contains(Lower(s), p)
  {
    var m := Lower(s);
    forall k | 0 <= k < |p|
      ensures m[i..i + |p|][k] == p[k]
    {
      assert s[i + k] == p[k];
    }
    assert m[i..i + |p|] == p;
    ContainsAt(m, p, i);
  }

  /** A text lacking one of the characters of `p` cannot contain `p`. */
  lemma MissingCharExcludes(s: string, p: string, j: nat)
    requires j < |p| && p[j] !in s
    ensures !Contains(s, p)
  {
    if Contains(s, p) {
      var i := ContainsWitness(s, p);
      assert false;
    }
  }

  lemma {:induction false} ContainsLength(s: string, p: string)
    requires Contains(s, p)
    ensures |p| <= |s|
  {
    var i := ContainsWitness(s, p);
  }

  // ---------------------------------------------------------------------------
  // split / rsplit on one character
  // ---------------------------------------------------------------------------

  /** `s.split(c)[0]`: the text before the first `c` (all of `s` when there is none). */
  function BeforeFirst(s: string, c: char): (r: string)
    ensures IsPrefix(r, s) && c !in r
    ensures |r| < |s| ==> s[|r|] == c
    ensures c !in s ==> r == s
    decreases |s|
  {
    if s == [] then []
    else if s[0] == c then []
    else [s[0]] + BeforeFirst(s[1..], c)
  }

  /**
    `s.split(c)[-1]`, which for `c == '.'` and a text holding a dot is also
    `s.rsplit(".", 1)[1]`, and for `c == '/'` is `os.path.basename(s)`:
    the text after the last `c`, or all of `s` when there is none.
   */
  function LastSegment(s: string, c: char): (r: string)
    ensures EndsWith(s, r) && c !in r
    ensures |r| < |s| ==> s[|s| - |r| - 1] == c
    ensures c !in s ==> r == s
    decreases |s|
  {
    if s == [] then []
    else if s[|s| - 1] == c then []
    else LastSegment(s[..|s| - 1], c) + [s[|s| - 1]]
  }

  /** Whatever comes before the last separator, the segment after it is exactly the tail. */
  lemma {:induction false} LastSegmentAfterSeparator(stem: string, c: char, tail: string)
    requires c !in tail
    ensures LastSegment(stem + [c] + tail, c) == tail
    decreases |tail|
  {
    var s := stem + [c] + tail;
    if tail == [] {
      assert s[|s| - 1] == c;
    } else {
      var init := tail[..|tail| - 1];
      assert s[..|s| - 1] == stem + [c] + init;
      assert s[|s| - 1] == tail[|tail| - 1] != c;
      LastSegmentAfterSeparator(stem, c, init);
      assert init + [tail[|tail| - 1]] == tail;
    }
  }

  // ---------------------------------------------------------------------------
  // replace(p, "") and count(p)
  // ---------------------------------------------------------------------------

  /** `s.replace(p, "")`: every leftmost, non-overlapping occurrence of `p` removed. */
  function RemoveAll(s: string, p: string): string
    requires p != []
    decreases |s|
  {
    if |s| < |p| then s
    else if s[..|p|] == p then RemoveAll(s[|p|..], p)
    else [s[0]] + RemoveAll(s[1..], p)
  }

  /** `s.count(p)`: the number of leftmost, non-overlapping occurrences of `p`. */
  function Count(s: string, p: string): nat
    requires p != []
    decreases |s|
  {
    if |s| < |p| then 0
    else if s[..|p|] == p then 1 + Count(s[|p|..], p)
    else Count(s[1..], p)
  }

  /**
    Dropping a prefix never raises the count: the leftmost, non-overlapping
    scan of `s` finds at least as many occurrences as the scan of any suffix.
   */
  lemma {:induction false} CountSuffixAtMost(s: string, p: string, k: nat)
    requires p != [] && k <= |s|
    ensures Count(s[k..], p) <= Count(s, p)
    decreases |s|, |s| - k
  {
    var t := s[k..];
    if k == 0 {
      assert t == s;
    } else if |s| < |p| {
      assert |t| < |p|;
    } else if s[..|p|] == p {
      assert Count(s, p) == 1 + Count(s[|p|..], p);
      if k >= |p| {
        CountSuffixAtMost(s[|p|..], p, k - |p|);
        assert s[|p|..][k - |p|..] == t;
      } else if |t| < |p| {
      } else if t[..|p|] == p {
        // an occurrence at k overlaps the one at 0: compare what follows each
        assert Count(t, p) == 1 + Count(t[|p|..], p);
        CountSuffixAtMost(s[|p|..], p, k);
        assert s[|p|..][k..] == t[|p|..];
      } else {
        assert Count(t, p) == Count(t[1..], p);
        CountSuffixAtMost(s, p, k + 1);
        assert t[1..] == s[k + 1..];
      }
    } else {
      assert Count(s, p) == Count(s[1..], p);
      CountSuffixAtMost(s[1..], p, k - 1);
      assert s[1..][k - 1..] == t;
    }
  }

  /** Text that starts with `p` counts one more than the rest after it. */
  lemma CountLeadingOccurrence(s: string, p: string, rest: string)
    requires p != [] && IsPrefix(p, s)
    ensures Count(s + rest, p) >= 1 + Count(rest, p)
  {
    var t := s + rest;
    assert t[..|p|] == p;
    CountSuffixAtMost(t[|p|..], p, |s| - |p|);
    assert t[|p|..][|s| - |p|..] == rest;
  }

  /** Occurrences found in two texts are still found, separately, in their concatenation. */
  lemma {:induction false} CountConcat(a: string, b: string, p: string)
    requires p != []
    ensures Count(a + b, p) >= Count(a, p) + Count(b, p)
    decreases |a|
  {
    if |a| < |p| {
      CountSuffixAtMost(a + b, p, |a|);
      assert (a + b)[|a|..] == b;
    } else if a[..|p|] == p {
      assert (a + b)[..|p|] == p;
      CountConcat(a[|p|..], b, p);
      assert (a + b)[|p|..] == a[|p|..] + b;
    } else {
      assert (a + b)[..|p|] == a[..|p|];
      CountConcat(a[1..], b, p);
      assert (a + b)[1..] == a[1..] + b;
    }
  }

  // ---------------------------------------------------------------------------
  // Code fences
  // ---------------------------------------------------------------------------

  const Fence: string := "```"

  function LeadingTicks(s: string): nat
    decreases |s|
  {
    if s != [] && s[0] == '`' then 1 + LeadingTicks(s[1..]) else 0
  }

  lemma {:induction false} FencePrefixIffTicks(s: string)
    ensures IsPrefix(Fence, s) <==> LeadingTicks(s) >= 3
  {
    if |s| >= 3 && s[0] == '`' && s[1] == '`' && s[2] == '`' {
      assert s[..3] == Fence;
      ThreeTicks(s);
    } else {
      if s != [] && s[0] == '`' {
        var t := s[1..];
        if t != [] && t[0] == '`' {
          var u := t[1..];
          assert u == [] || u[0] != '`';
          assert LeadingTicks(u) == 0;
          assert LeadingTicks(t) == 1 + LeadingTicks(u);
        }
      }
    }
  }

  /** Text opening with three backticks has three more leading ticks than what follows them. */
  lemma ThreeTicks(s: string)
    requires |s| >= 3 && s[0] == '`' && s[1] == '`' && s[2] == '`'
    ensures LeadingTicks(s) == 3 + LeadingTicks(s[3..])
  {
    var t := s[1..];
    var u := t[1..];
    assert t[0] == '`' && u[0] == '`';
    assert u[1..] == s[3..];
    assert LeadingTicks(s) == 1 + LeadingTicks(t);
    assert LeadingTicks(t) == 1 + LeadingTicks(u);
    assert LeadingTicks(u) == 1 + LeadingTicks(u[1..]);
  }

  lemma {:induction false} ContainsCons(c: char, x: string, p: string)
    ensures Contains([c] + x, p) <==> IsPrefix(p, [c] + x) || Contains(x, p)
  {
    assert ([c] + x)[1..] == x;
  }

  /**
    Removing every "```" leaves none behind: each run of backticks shrinks to
    its length modulo 3, and runs never merge because the characters that
    separate them stay.
   */
  lemma {:induction false} RemoveFencesLeavesNone(s: string)
    ensures !Contains(RemoveAll(s, Fence), Fence)
    ensures LeadingTicks(RemoveAll(s, Fence)) == LeadingTicks(s) % 3
    decreases |s|
  {
    var r := RemoveAll(s, Fence);
    if |s| < 3 {
      if Contains(r, Fence) { ContainsLength(r, Fence); }
      FencePrefixIffTicks(s);
      assert LeadingTicks(s) < 3;
    } else if s[..3] == Fence {
      RemoveFencesLeavesNone(s[3..]);
      assert s[0] == Fence[0] && s[1] == Fence[1] && s[2] == Fence[2];
      ThreeTicks(s);
    } else {
      var x := RemoveAll(s[1..], Fence);
      assert r == [s[0]] + x;
      RemoveFencesLeavesNone(s[1..]);
      ContainsCons(s[0], x, Fence);
      FencePrefixIffTicks(s);
      FencePrefixIffTicks([s[0]] + x);
      assert ([s[0]] + x)[1..] == x;
    }
  }

  const JsonFence: string := "```json"

  /**
    `text.strip().replace("```json", "").replace("```", "")`, applied to every
    LLM reply before parsing: no fence is left, and a stripped reply without
    fences comes back as it was.
   */
  function CleanFences(text: string): (r: string)
    ensures !Contains(r, Fence)
    ensures !Contains(Strip(text), Fence) ==> r == Strip(text)
  {
    var once := RemoveAll(Strip(text), JsonFence);
    RemoveFencesLeavesNone(once);
    PlainReplyUnchanged(Strip(text));
    RemoveAll(once, Fence)
  }

  /** Both replacements leave text without "```" alone. */
  lemma PlainReplyUnchanged(s: string)
    ensures !Contains(s, Fence) ==> RemoveAll(RemoveAll(s, JsonFence), Fence) == s
  {
    if !Contains(s, Fence) {
      JsonFenceHoldsFence(s);
      RemoveAllAbsent(s, JsonFence);
      RemoveAllAbsent(s, Fence);
    }
  }

  /** "```json" starts with "```", so text without "```" has no "```json" either. */
  lemma JsonFenceHoldsFence(s: string)
    ensures Contains(s, JsonFence) ==> Contains(s, Fence)
  {
    if Contains(s, JsonFence) {
      var i := ContainsWitness(s, JsonFence);
      assert s[i..i + 3] == JsonFence[..3] == Fence;
      ContainsAt(s, Fence, i);
    }
  }

  /** Text with nothing to remove passes through `replace(p, "")` unchanged. */
  lemma {:induction false} RemoveAllAbsent(s: string, p: string)
    requires p != [] && !Contains(s, p)
    ensures RemoveAll(s, p) == s
    decreases |s|
  {
    if |s| >= |p| {
      assert s[..|p|] != p;
      RemoveAllAbsent(s[1..], p);
    }
  }

  /** A stretch that cannot start an occurrence of `p` is copied through as it is. */
  lemma {:induction false} RemoveAllSkips(x: string, y: string, p: string)
    requires p != [] && p[0] !in x
    ensures RemoveAll(x + y, p) == x + RemoveAll(y, p)
    decreases |x|
  {
    if x == [] {
      assert x + y == y;
    } else {
      var s := x + y;
      if |s| >= |p| {
        assert s[..|p|][0] == x[0] != p[0];
        assert RemoveAll(s, p) == [s[0]] + RemoveAll(s[1..], p);
        assert s[1..] == x[1..] + y;
        RemoveAllSkips(x[1..], y, p);
        assert [x[0]] + (x[1..] + RemoveAll(y, p)) == x + RemoveAll(y, p);
      } else {
        RemoveAllAbsentShort(y, p);
      }
    }
  }

  /** Text shorter than `p` passes through `replace(p, "")` unchanged. */
  lemma RemoveAllAbsentShort(s: string, p: string)
    requires p != [] && |s| < |p|
    ensures RemoveAll(s, p) == s
  {
  }

  /** The usual reply shape, a JSON body in a "```json" block, comes out as the bare body. */
  lemma CleanFencesUnwrapsJsonBlock(body: string)
    requires '`' !in body
    ensures CleanFences(JsonFence + body + Fence) == body
  {
    var reply := JsonFence + body + Fence;
    assert reply[0] == '`' && reply[|reply| - 1] == '`';
    StripStripped(reply);
    assert reply[..|JsonFence|] == JsonFence;
    assert reply[|JsonFence|..] == body + Fence;
    RemoveAllSkips(body, Fence, JsonFence);
    assert RemoveAll(Fence, JsonFence) == Fence;
    RemoveAllSkips(body, Fence, Fence);
    assert Fence[..|Fence|] == Fence && Fence[|Fence|..] == [];
    assert RemoveAll(Fence, Fence) == [];
    assert body + [] == body;
  }

  // ---------------------------------------------------------------------------
  // Decimal rendering
  // ---------------------------------------------------------------------------

  function DigitChar(d: nat): char
    requires d < 10
  {
    "0123456789"[d]
  }

  /** `str(n)` for a non-negative integer. */
  function NatToString(n: nat): (r: string)
    ensures |r| >= 1
    decreases n
  {
    if n < 10 then [DigitChar(n)] else NatToString(n / 10) + [DigitChar(n % 10)]
  }
}
