/**
 * Text operations the Python sources rely on, stated over `seq<char>`:
 * substring search (`x in s`), `str.replace`, `str.join`, `str.strip`
 * the decimal rendering of a natural number (`f"{n}"`), and the newline
 * translation of a file opened in text mode.
 */
module Text {

  /** `p` occurs in `s` at index `i`. */
  ghost predicate Occurs(s: string, p: string, i: int) {
    0 <= i && i + |p| <= |s| && s[i..i + |p|] == p
  }

  /** `p` is a substring of `s` (Python's `p in s`). */
  ghost predicate Contains(s: string, p: string) {
    exists i :: Occurs(s, p, i)
  }

  /** No character of `x` appears in `y`. */
  ghost predicate NoSharedChar(x: string, y: string) {
    forall c :: c in x ==> c !in y
  }

  /** The first character of `p` does not recur later in `p`, and its last
      character does not occur earlier: two copies of `p` can never overlap. */
  ghost predicate EndsUnique(p: string) {
    |p| > 0 && p[0] !in p[1..] && p[|p| - 1] !in p[..|p| - 1]
  }

  predicate IsPrefix(p: string, s: string) {
    |p| <= |s| && s[..|p|] == p
  }

  /** Executable substring test, scanning `s` from the left. */
  predicate HasSubstring(s: string, p: string)
    decreases |s|
  {
    IsPrefix(p, s) || (|s| > 0 && HasSubstring(s[1..], p))
  }

  /** An occurrence in the suffix `s[k..]` is an occurrence in `s`, shifted by `k`. */
  lemma OccursInSuffix(s: string, p: string, k: int, i: int)
    requires 0 <= k <= |s|
    ensures Occurs(s[k..], p, i) <==> (i >= 0 && Occurs(s, p, i + k))
  {
    if 0 <= i && i + |p| <= |s| - k {
      assert s[k..][i..i + |p|] == s[i + k..i + k + |p|];
    }
  }

  lemma OccursInRight(x: string, y: string, p: string, i: int)
    requires i >= |x|
    ensures Occurs(x + y, p, i) <==> Occurs(y, p, i - |x|)
  {
    assert (x + y)[|x|..] == y;
    OccursInSuffix(x + y, p, |x|, i - |x|);
  }

  lemma OccursInLeft(x: string, y: string, p: string, i: int)
    requires i + |p| <= |x|
    ensures Occurs(x + y, p, i) <==> Occurs(x, p, i)
  {
    if 0 <= i {
      assert (x + y)[i..i + |p|] == x[i..i + |p|];
    }
  }

  lemma {:induction false} HasSubstringIsContains(s: string, p: string)
    ensures HasSubstring(s, p) <==> Contains(s, p)
    decreases |s|
  {
    assert IsPrefix(p, s) <==> Occurs(s, p, 0);
    if |s| > 0 {
      HasSubstringIsContains(s[1..], p);
      forall i
        ensures Occurs(s[1..], p, i) <==> (i >= 0 && Occurs(s, p, i + 1))
      {
        OccursInSuffix(s, p, 1, i);
      }
      if Contains(s, p) && !IsPrefix(p, s) {
        var i :| Occurs(s, p, i);
        assert Occurs(s[1..], p, i - 1);
      }
    }
  }

  lemma AbsentFromSuffix(s: string, p: string, k: int)
    requires 0 <= k <= |s|
    requires !Contains(s, p)
    ensures !Contains(s[k..], p)
  {
    forall i
      ensures !Occurs(s[k..], p, i)
    {
      OccursInSuffix(s, p, k, i);
    }
  }

  /** A string lacking one character of `p` cannot contain `p`. */
  lemma AbsentByMissingChar(s: string, p: string, c: char)
    requires c in p && c !in s
    ensures !Contains(s, p)
  {
    var k :| 0 <= k < |p| && p[k] == c;
    forall i | 0 <= i && i + |p| <= |s|
      ensures !Occurs(s, p, i)
    {
      assert s[i..i + |p|][k] == s[i + k];
    }
  }

  /** Gluing two strings free of `p` creates no occurrence of `p`, provided the
      seam cannot sit strictly inside one: the last character of `a` is not among
      the first |p|-1 characters of `p`, or the first character of `b` is not
      among its last |p|-1. */
  lemma AbsentConcat(a: string, b: string, p: string)
    requires |p| > 0
    requires !Contains(a, p) && !Contains(b, p)
    requires a == [] || b == [] || a[|a| - 1] !in p[..|p| - 1] || b[0] !in p[1..]
    ensures !Contains(a + b, p)
  {
    var s := a + b;
    forall j
      ensures !Occurs(s, p, j)
    {
      if j + |p| <= |a| {
        OccursInLeft(a, b, p, j);
      } else if j >= |a| {
        OccursInRight(a, b, p, j);
      } else if 0 <= j && j + |p| <= |s| {
        var w := s[j..j + |p|];
        assert w[|a| - 1 - j] == a[|a| - 1];
        assert w[|a| - j] == b[0];
        assert p[..|p| - 1][|a| - 1 - j] == p[|a| - 1 - j];
        assert p[1..][|a| - j - 1] == p[|a| - j];
      }
    }
  }

  /** Regrouping a concatenation, stated once so that proofs need not rebuild
      the two strings element by element. */
  lemma SeqAssoc3(a: string, b: string, c: string, d: string)
    ensures a + (b + c + d) == (a + b) + c + d
  {
  }

  /**
   * Python's `s.replace(p, r)` for a non-empty pattern: scan from the left,
   * replace each occurrence and resume after it, so occurrences never overlap.
   */
  function ReplaceAll(s: string, p: string, r: string): string
    requires |p| > 0
    decreases |s|
  {
    if |s| < |p| then s
    else if s[..|p|] == p then r + ReplaceAll(s[|p|..], p, r)
    else [s[0]] + ReplaceAll(s[1..], p, r)
  }

  /** A character found neither in the text nor in the replacement is not in
      the result. */
  lemma {:induction false} ReplaceKeepsChar(s: string, p: string, r: string, c: char)
    requires |p| > 0
    requires c !in s && c !in r
    ensures c !in ReplaceAll(s, p, r)
    decreases |s|
  {
    if |s| >= |p| && s[..|p|] == p {
      assert forall i :: 0 <= i < |s[|p|..]| ==> s[|p|..][i] == s[i + |p|];
      ReplaceKeepsChar(s[|p|..], p, r, c);
    } else if |s| >= |p| {
      assert forall i :: 0 <= i < |s[1..]| ==> s[1..][i] == s[i + 1];
      ReplaceKeepsChar(s[1..], p, r, c);
    }
  }

  /** A string without the pattern is returned unchanged. */
  lemma {:induction false} ReplaceAbsent(s: string, p: string, r: string)
    requires |p| > 0
    requires !Contains(s, p)
    ensures ReplaceAll(s, p, r) == s
    decreases |s|
  {
    assert |s| >= |p| ==> (s[..|p|] == p <==> Occurs(s, p, 0));
    if |s| >= |p| {
      AbsentFromSuffix(s, p, 1);
      ReplaceAbsent(s[1..], p, r);
    }
  }

  /** Whatever the replacement writes out first, when made of characters not in
      `r`, was copied from the input. */
  lemma {:induction false} ReplacedPrefix(t: string, p: string, r: string, w: string)
    requires |p| > 0 && |r| > 0
    requires NoSharedChar(w, r)
    requires IsPrefix(w, ReplaceAll(t, p, r))
    ensures IsPrefix(w, t)
    decreases |t|
  {
    var out := ReplaceAll(t, p, r);
    if |w| > 0 && |t| >= |p| {
      assert w[0] in w && r[0] in r;
      var rest := ReplaceAll(t[1..], p, r);
      assert out == [t[0]] + rest;
      assert w[1..] == rest[..|w| - 1];
      forall c | c in w[1..]
        ensures c !in r
      {
        assert c in w;
      }
      ReplacedPrefix(t[1..], p, r, w[1..]);
      assert w == [w[0]] + w[1..];
      assert t[..|w|] == [t[0]] + t[1..][..|w| - 1];
    }
  }

  /** Every occurrence is replaced: none is left, nor created, when the
      replacement is non-empty and shares no character with the pattern. */
  lemma {:induction false} ReplaceRemovesAll(s: string, p: string, r: string)
    requires |p| > 0 && |r| > 0
    requires NoSharedChar(p, r)
    ensures !Contains(ReplaceAll(s, p, r), p)
    decreases |s|
  {
    var out := ReplaceAll(s, p, r);
    if |s| >= |p| && s[..|p|] == p {
      var rest := ReplaceAll(s[|p|..], p, r);
      ReplaceRemovesAll(s[|p|..], p, r);
      assert p[0] in p;
      forall i
        ensures !Occurs(out, p, i)
      {
        if i >= |r| {
          OccursInRight(r, rest, p, i);
        } else if 0 <= i && i + |p| <= |out| {
          assert out[i..i + |p|][0] == r[i];
        }
      }
    } else if |s| >= |p| {
      var rest := ReplaceAll(s[1..], p, r);
      ReplaceRemovesAll(s[1..], p, r);
      forall i
        ensures !Occurs(out, p, i)
      {
        if i >= 1 {
          OccursInRight([s[0]], rest, p, i);
        } else if i == 0 && IsPrefix(p, out) {
          ReplacedPrefix(s, p, r, p);
        }
      }
    }
  }

  /** Replacing `p` by a non-empty `r` creates no occurrence of another string
      `q` that shares no character with `r`. */
  lemma {:induction false} ReplaceKeepsAbsent(s: string, p: string, r: string, q: string)
    requires |p| > 0 && |r| > 0 && |q| > 0
    requires NoSharedChar(q, r)
    requires !Contains(s, q)
    ensures !Contains(ReplaceAll(s, p, r), q)
    decreases |s|
  {
    var out := ReplaceAll(s, p, r);
    if |s| >= |p| && s[..|p|] == p {
      var rest := ReplaceAll(s[|p|..], p, r);
      AbsentFromSuffix(s, q, |p|);
      ReplaceKeepsAbsent(s[|p|..], p, r, q);
      assert q[0] in q;
      forall i
        ensures !Occurs(out, q, i)
      {
        if i >= |r| {
          OccursInRight(r, rest, q, i);
        } else if 0 <= i && i + |q| <= |out| {
          assert out[i..i + |q|][0] == r[i];
        }
      }
    } else if |s| >= |p| {
      var rest := ReplaceAll(s[1..], p, r);
      AbsentFromSuffix(s, q, 1);
      ReplaceKeepsAbsent(s[1..], p, r, q);
      forall i
        ensures !Occurs(out, q, i)
      {
        if i >= 1 {
          OccursInRight([s[0]], rest, q, i);
        } else if i == 0 && IsPrefix(q, out) {
          ReplacedPrefix(s, p, r, q);
          assert Occurs(s, q, 0);
        }
      }
    }
  }

  /** With a single occurrence at `k`, exactly that slice is replaced. */
  lemma {:induction false} ReplaceOnlyAt(s: string, p: string, r: string, k: int)
    requires |p| > 0
    requires Occurs(s, p, k)
    requires forall j :: Occurs(s, p, j) ==> j == k
    ensures ReplaceAll(s, p, r) == s[..k] + r + s[k + |p|..]
    decreases k
  {
    if k == 0 {
      forall i
        ensures !Occurs(s[|p|..], p, i)
      {
        OccursInSuffix(s, p, |p|, i);
      }
      ReplaceAbsent(s[|p|..], p, r);
      assert s[..|p|] == p;
      assert s[..0] + r + s[|p|..] == r + s[|p|..];
    } else {
      var t := s[1..];
      forall j | Occurs(t, p, j)
        ensures j == k - 1
      {
        OccursInSuffix(s, p, 1, j);
      }
      assert Occurs(t, p, k - 1) by {
        OccursInSuffix(s, p, 1, k - 1);
      }
      ReplaceOnlyAt(t, p, r, k - 1);
      ReplaceOnlyAtStep(s, p, r, k);
    }
  }

  lemma SplitAfterFirst(s: string, k: int, m: int)
    requires 0 < k <= m <= |s|
    ensures s[..k] == [s[0]] + s[1..][..k - 1]
    ensures s[1..][m - 1..] == s[m..]
  {
  }

  lemma ReplaceOnlyAtStep(s: string, p: string, r: string, k: int)
    requires |p| > 0 && 0 < k
    requires Occurs(s, p, k) && !Occurs(s, p, 0)
    requires ReplaceAll(s[1..], p, r) == s[1..][..k - 1] + r + s[1..][k - 1 + |p|..]
    ensures ReplaceAll(s, p, r) == s[..k] + r + s[k + |p|..]
  {
    var t := s[1..];
    ReplaceCopiesFirst(s, p, r);
    SplitAfterFirst(s, k, k + |p|);
    SeqAssoc3([s[0]], t[..k - 1], r, t[k - 1 + |p|..]);
  }

  /** In `a + p + b`, with `p` absent from `a` and `b` and unable to overlap
      itself, the middle copy is the only occurrence. */
  lemma OnlyOccurrence(a: string, p: string, b: string)
    requires EndsUnique(p)
    requires !Contains(a, p) && !Contains(b, p)
    ensures forall j :: Occurs(a + p + b, p, j) ==> j == |a|
  {
    var s := a + p + b;
    assert s == a + (p + b);
    assert s == (a + p) + b;
    forall j | j != |a|
      ensures !Occurs(s, p, j)
    {
      if j + |p| <= |a| {
        OccursInLeft(a, p + b, p, j);
      } else if j >= |a| + |p| {
        OccursInRight(a + p, b, p, j);
      } else if 0 <= j < |a| && j + |p| <= |s| {
        var w := s[j..j + |p|];
        assert w[|a| - j] == s[|a|] == p[0];
        assert p[1..][|a| - j - 1] == p[|a| - j];
      } else if |a| < j && j + |p| <= |s| {
        var w := s[j..j + |p|];
        assert w[|a| + |p| - 1 - j] == s[|a| + |p| - 1] == p[|p| - 1];
        assert p[..|p| - 1][|a| + |p| - 1 - j] == p[|a| + |p| - 1 - j];
      }
    }
  }

  /** Replacing the single occurrence of `p` in `a + p + b` yields `a + r + b`. */
  lemma ReplaceSingle(a: string, p: string, b: string, r: string)
    requires EndsUnique(p)
    requires !Contains(a, p) && !Contains(b, p)
    ensures ReplaceAll(a + p + b, p, r) == a + r + b
  {
    var s := a + p + b;
    assert s[|a|..|a| + |p|] == p;
    OnlyOccurrence(a, p, b);
    ReplaceOnlyAt(s, p, r, |a|);
    assert s[..|a|] == a;
    assert s[|a| + |p|..] == b;
  }

  /** A `p` that cannot overlap itself does not start inside a non-empty,
      `p`-free `a` placed before a copy of `p`. */
  lemma NotAtStart(a: string, p: string, b: string)
    requires EndsUnique(p)
    requires !Contains(a, p) && |a| > 0
    ensures (a + p + b)[..|p|] != p
  {
    var s := a + p + b;
    if |p| <= |a| {
      assert s[..|p|] == a[..|p|];
      assert !Occurs(a, p, 0);
    } else {
      assert s[..|p|][|a|] == s[|a|] == p[0];
      assert p[1..][|a| - 1] == p[|a|];
    }
  }

  /** A copy of `p` at the front is replaced and the scan resumes after it. */
  lemma ReplaceAtStart(p: string, b: string, r: string)
    requires |p| > 0
    ensures ReplaceAll(p + b, p, r) == r + ReplaceAll(b, p, r)
  {
    var s := p + b;
    assert s[..|p|] == p;
    assert s[|p|..] == b;
  }

  /** Without a match at the front, the first character is copied. */
  lemma ReplaceCopiesFirst(s: string, p: string, r: string)
    requires |p| > 0 && |s| >= |p| && s[..|p|] != p
    ensures ReplaceAll(s, p, r) == [s[0]] + ReplaceAll(s[1..], p, r)
  {
  }

  lemma DropFirst(a: string, p: string, b: string)
    requires |a| > 0
    ensures (a + p + b)[1..] == a[1..] + p + b
  {
  }

  /** When `a` holds no `p` and `p` cannot overlap itself, replacing in
      `a + p + b` keeps `a`, rewrites that copy of `p` and carries on in `b`. */
  lemma {:induction false} ReplaceFirst(a: string, p: string, b: string, r: string)
    requires EndsUnique(p)
    requires !Contains(a, p)
    ensures ReplaceAll(a + p + b, p, r) == a + r + ReplaceAll(b, p, r)
    decreases |a|
  {
    if |a| == 0 {
      ReplaceFirstAtStart(a, p, b, r);
    } else {
      AbsentFromSuffix(a, p, 1);
      ReplaceFirst(a[1..], p, b, r);
      ReplaceFirstStep(a, p, b, r);
    }
  }

  lemma EmptyFront(a: string, x: string, y: string)
    requires |a| == 0
    ensures a + x + y == x + y
  {
  }

  lemma ReplaceFirstAtStart(a: string, p: string, b: string, r: string)
    requires |p| > 0 && |a| == 0
    ensures ReplaceAll(a + p + b, p, r) == a + r + ReplaceAll(b, p, r)
  {
    EmptyFront(a, p, b);
    EmptyFront(a, r, ReplaceAll(b, p, r));
    ReplaceAtStart(p, b, r);
  }

  lemma ReplaceFirstStep(a: string, p: string, b: string, r: string)
    requires EndsUnique(p)
    requires !Contains(a, p) && |a| > 0
    requires ReplaceAll(a[1..] + p + b, p, r) == a[1..] + r + ReplaceAll(b, p, r)
    ensures ReplaceAll(a + p + b, p, r) == a + r + ReplaceAll(b, p, r)
  {
    NotAtStart(a, p, b);
    ReplaceCopiesFirst(a + p + b, p, r);
    DropFirst(a, p, b);
    SeqAssoc3([a[0]], a[1..], r, ReplaceAll(b, p, r));
    assert [a[0]] + a[1..] == a;
  }

  /** The index of the first `c` in `s`, or `|s|` when there is none
      (Python's `s.find(c)`, with `|s|` for -1). */
  function FirstIndexOf(s: string, c: char): (k: nat)
    ensures k <= |s|
    ensures forall i :: 0 <= i < k ==> s[i] != c
    ensures k < |s| ==> s[k] == c
    decreases |s|
  {
    if |s| == 0 then 0
    else if s[0] == c then 0
    else 1 + FirstIndexOf(s[1..], c)
  }

  /** The first `c` in `a + b` is the head of `b` when `a` holds none. */
  lemma FirstIndexAfter(a: string, b: string, c: char)
    requires c !in a && |b| > 0 && b[0] == c
    ensures FirstIndexOf(a + b, c) == |a|
  {
    var s := a + b;
    assert s[|a|] == c;
    assert forall i :: 0 <= i < |a| ==> s[i] == a[i];
  }

  /** Python's `sep.join(xs)`. */
  function Join(sep: string, xs: seq<string>): string
    decreases |xs|
  {
    if |xs| == 0 then ""
    else if |xs| == 1 then xs[0]
    else xs[0] + sep + Join(sep, xs[1..])
  }

  predicate AllDigits(s: string) {
    forall i :: 0 <= i < |s| ==> '0' <= s[i] <= '9'
  }

  function DigitChar(d: nat): (c: char)
    requires d < 10
  {
    ('0' as int + d) as char
  }

  /** Python's `f"{n}"` for a non-negative integer. */
  function Decimal(n: nat): (r: string)
    ensures |r| > 0 && AllDigits(r)
    ensures r[0] == '0' ==> n == 0
    decreases n
  {
    if n < 10 then [DigitChar(n)]
    else Decimal(n / 10) + [DigitChar(n % 10)]
  }

  /** Reads a string of decimal digits back as a number (Python's `int(s)`). */
  function ParseDecimal(s: string): nat
    requires AllDigits(s)
    decreases |s|
  {
    if |s| == 0 then 0
    else
      ParseDecimal(s[..|s| - 1]) * 10 + (s[|s| - 1] as int - '0' as int)
  }

  lemma {:induction false} ParseDecimalInverts(n: nat)
    ensures ParseDecimal(Decimal(n)) == n
    decreases n
  {
    if n >= 10 {
      var s := Decimal(n);
      assert s[..|s| - 1] == Decimal(n / 10);
      ParseDecimalInverts(n / 10);
    }
  }

  /** Python's `f"{n}"` for any integer: a minus sign before the digits of a
      negative number. */
  function SignedDecimal(n: int): (r: string)
    ensures |r| > 0
    ensures (r[0] == '-') <==> n < 0
    ensures forall i :: 0 <= i < |r| ==> r[i] == '-' || '0' <= r[i] <= '9'
  {
    if n < 0 then "-" + Decimal(-n) else Decimal(n)
  }

  /** Python's `str.isspace` for one character. */
  predicate IsSpace(c: char) {
    || '\U{0009}' <= c <= '\U{000D}'
    || '\U{001C}' <= c <= '\U{0020}'
    || c == '\U{0085}' || c == '\U{00A0}' || c == '\U{1680}'
    || '\U{2000}' <= c <= '\U{200A}'
    || c == '\U{2028}' || c == '\U{2029}' || c == '\U{202F}' || c == '\U{205F}' || c == '\U{3000}'
  }

  function TrimStart(s: string): (r: string)
    ensures |r| <= |s| && r == s[|s| - |r|..]
    ensures forall i :: 0 <= i < |s| - |r| ==> IsSpace(s[i])
    ensures |r| > 0 ==> !IsSpace(r[0])
    decreases |s|
  {
    if |s| > 0 && IsSpace(s[0]) then TrimStart(s[1..]) else s
  }

  function TrimEnd(s: string): (r: string)
    ensures |r| <= |s| && r == s[..|r|]
    ensures forall i :: |r| <= i < |s| ==> IsSpace(s[i])
    ensures |r| > 0 ==> !IsSpace(r[|r| - 1])
    decreases |s|
  {
    if |s| > 0 && IsSpace(s[|s| - 1]) then TrimEnd(s[..|s| - 1]) else s
  }

  /** Python's `s.strip()`: drops leading and trailing whitespace. */
  function Strip(s: string): string {
    TrimEnd(TrimStart(s))
  }

  /** `s.strip()` is empty exactly when `s` is all whitespace. */
  lemma StripEmptyIffBlank(s: string)
    ensures Strip(s) == "" <==> forall i :: 0 <= i < |s| ==> IsSpace(s[i])
  {
    var t := TrimStart(s);
    var u := TrimEnd(t);
    assert |t| > 0 ==> t[0] == s[|s| - |t|];
  }
  // ---------------------------------------------------------------------
  // Text-mode files: `open(path, 'r' | 'w')` with the default `newline=None`
  // ---------------------------------------------------------------------

  /** The platform's line separator `os.linesep`. */
  datatype Newline = Lf | CrLf

  /** What a text-mode write puts on disk: each `\n` becomes the separator. */
  function WriteNewlines(nl: Newline, s: string): string
    decreases |s|
  {
    if |s| == 0 then ""
    else (if s[0] == '\n' && nl == CrLf then "\r\n" else [s[0]]) + WriteNewlines(nl, s[1..])
  }

  /** What a text-mode read returns (universal newlines): `\r\n` and a lone
      `\r` each become `\n`, so no `\r` is ever read. */
  function ReadNewlines(s: string): (r: string)
    ensures '\r' !in r
    decreases |s|
  {
    if |s| == 0 then ""
    else if s[0] == '\r' then "\n" + ReadNewlines(if |s| > 1 && s[1] == '\n' then s[2..] else s[1..])
    else [s[0]] + ReadNewlines(s[1..])
  }

  /** A string written in text mode and read back. */
  function Settle(nl: Newline, s: string): string {
    ReadNewlines(WriteNewlines(nl, s))
  }

  /** A text without `\r` is read as it is. */
  lemma {:induction false} ReadPlain(s: string)
    requires '\r' !in s
    ensures ReadNewlines(s) == s
    decreases |s|
  {
    if |s| > 0 {
      ReadPlain(s[1..]);
    }
  }

  /** A read introduces no character other than `\n`. */
  lemma {:induction false} ReadKeepsChar(s: string, c: char)
    requires c != '\n' && c !in s
    ensures c !in ReadNewlines(s)
    decreases |s|
  {
    if |s| > 0 {
      var k := if s[0] == '\r' && |s| > 1 && s[1] == '\n' then 2 else 1;
      var h := if s[0] == '\r' then "\n" else [s[0]];
      ReadStep(s, k, h);
      assert forall i :: 0 <= i < |s[k..]| ==> s[k..][i] == s[i + k];
      ReadKeepsChar(s[k..], c);
    }
  }

  /** On a platform whose separator is `\n` a write translates nothing. */
  lemma {:induction false} WriteLf(s: string)
    ensures WriteNewlines(Lf, s) == s
    decreases |s|
  {
    if |s| > 0 {
      WriteLf(s[1..]);
    }
  }

  /** Writing a text without `\r` and reading it back gives the text again. */
  lemma {:induction false} WriteThenRead(nl: Newline, s: string)
    requires '\r' !in s
    ensures Settle(nl, s) == s
    decreases |s|
  {
    if |s| > 0 {
      var w := WriteNewlines(nl, s[1..]);
      WriteThenRead(nl, s[1..]);
      if s[0] == '\n' && nl == CrLf {
        assert WriteNewlines(nl, s) == "\r\n" + w;
        assert ("\r\n" + w)[2..] == w;
      } else {
        assert WriteNewlines(nl, s) == [s[0]] + w;
        assert ([s[0]] + w)[1..] == w;
      }
    }
  }

  lemma {:induction false} WriteConcat(nl: Newline, a: string, b: string)
    ensures WriteNewlines(nl, a + b) == WriteNewlines(nl, a) + WriteNewlines(nl, b)
    decreases |a|
  {
    if |a| > 0 {
      assert (a + b)[1..] == a[1..] + b;
      WriteConcat(nl, a[1..], b);
    } else {
      assert a + b == b;
    }
  }

  /** A write keeps the last character: `\n` ends both of its renderings. */
  lemma {:induction false} WriteLast(nl: Newline, s: string)
    requires |s| > 0
    ensures |WriteNewlines(nl, s)| > 0
    ensures WriteNewlines(nl, s)[|WriteNewlines(nl, s)| - 1] == s[|s| - 1]
    decreases |s|
  {
    if |s| > 1 {
      WriteLast(nl, s[1..]);
    }
  }

  /** Two texts are read separately unless a `\r` ends the first and a `\n`
      starts the second: that pair is read as a single `\n`. */
  lemma {:induction false} ReadConcat(a: string, b: string)
    requires |a| == 0 || |b| == 0 || a[|a| - 1] != '\r' || b[0] != '\n'
    ensures ReadNewlines(a + b) == ReadNewlines(a) + ReadNewlines(b)
    decreases |a|
  {
    var s := a + b;
    if |a| == 0 {
      assert s == b;
    } else if a[0] != '\r' {
      ReadConcatStep(a, b, 1, [a[0]]);
    } else if |a| > 1 && a[1] == '\n' {
      assert s[1] == '\n';
      ReadConcatStep(a, b, 2, "\n");
    } else if |a| > 1 {
      assert s[1] == a[1];
      ReadConcatStep(a, b, 1, "\n");
    } else {
      assert |s| > 1 ==> s[1] == b[0];
      ReadConcatStep(a, b, 1, "\n");
    }
  }

  /** The inductive step of `ReadConcat`: `a` and `a + b` both start with the
      piece `h`, which covers `k` characters. */
  lemma {:induction false} ReadConcatStep(a: string, b: string, k: int, h: string)
    requires 0 < k <= |a|
    requires |a| == 0 || |b| == 0 || a[|a| - 1] != '\r' || b[0] != '\n'
    requires ReadNewlines(a) == h + ReadNewlines(a[k..])
    requires ReadNewlines(a + b) == h + ReadNewlines((a + b)[k..])
    ensures ReadNewlines(a + b) == ReadNewlines(a) + ReadNewlines(b)
    decreases |a|, 0
  {
    var rest := a[k..];
    DropFront(a, b, k);
    ReadConcat(rest, b);
    Assoc3(h, ReadNewlines(rest), ReadNewlines(b));
  }

  /** Dropping `k` characters of `a` from `a + b`, and what `a[k..]` ends with. */
  lemma DropFront(a: string, b: string, k: int)
    requires 0 <= k <= |a|
    ensures (a + b)[k..] == a[k..] + b
    ensures |a[k..]| > 0 ==> a[k..][|a[k..]| - 1] == a[|a| - 1]
  {
  }

  lemma Assoc3(x: string, y: string, z: string)
    ensures x + (y + z) == (x + y) + z
  {
  }

  /** The read of `s` is its first piece `h`, covering `k` characters, then
      the read of the rest. */
  lemma ReadStep(s: string, k: int, h: string)
    requires |s| > 0 && k == (if s[0] == '\r' && |s| > 1 && s[1] == '\n' then 2 else 1)
    requires h == (if s[0] == '\r' then "\n" else [s[0]])
    ensures ReadNewlines(s) == h + ReadNewlines(s[k..])
  {
  }

  /** Writing `a + x + b` puts the three writes side by side. */
  lemma WriteSplice(nl: Newline, a: string, x: string, b: string)
    ensures WriteNewlines(nl, a + x + b) == WriteNewlines(nl, a) + (WriteNewlines(nl, x) + WriteNewlines(nl, b))
  {
    WriteConcat(nl, a + x, b);
    WriteConcat(nl, a, x);
  }

  /** Only the middle of a text framed by `\r`-free parts, the right one not
      starting with `\n`, changes when it is written and read back. */
  lemma SettleSplice(nl: Newline, a: string, x: string, b: string)
    requires '\r' !in a && '\r' !in b
    requires |b| > 0 && b[0] != '\n'
    ensures Settle(nl, a + x + b) == a + Settle(nl, x) + b
  {
    var wa, wx, wb := WriteNewlines(nl, a), WriteNewlines(nl, x), WriteNewlines(nl, b);
    WriteSplice(nl, a, x, b);
    assert wb == (if b[0] == '\n' && nl == CrLf then "\r\n" else [b[0]]) + WriteNewlines(nl, b[1..]);
    ReadConcat(wx, wb);
    if |a| > 0 {
      WriteLast(nl, a);
    }
    ReadConcat(wa, wx + wb);
    WriteThenRead(nl, a);
    WriteThenRead(nl, b);
  }

  /** A pattern without line breaks read at the front was at the front. */
  lemma {:induction false} ReadPrefix(s: string, p: string)
    requires '\r' !in p && '\n' !in p
    requires IsPrefix(p, ReadNewlines(s))
    ensures IsPrefix(p, s)
    decreases |s|
  {
    if |p| > 0 {
      assert ReadNewlines(s)[0] == p[0];
      assert s[0] != '\r';
      assert ReadNewlines(s) == [s[0]] + ReadNewlines(s[1..]);
      assert ReadNewlines(s)[..|p|] == [s[0]] + ReadNewlines(s[1..])[..|p| - 1];
      ReadPrefix(s[1..], p[1..]);
      assert s[..|p|] == [s[0]] + s[1..][..|p| - 1];
    }
  }

  /** A pattern without line breaks that a read shows was already in the file. */
  lemma {:induction false} ReadOccurs(s: string, p: string, i: int)
    requires '\r' !in p && '\n' !in p
    requires Occurs(ReadNewlines(s), p, i)
    ensures Contains(s, p)
    decreases |s|
  {
    if |p| == 0 {
      assert Occurs(s, p, 0);
    } else if i == 0 {
      ReadPrefix(s, p);
      assert Occurs(s, p, 0);
    } else {
      var k := if s[0] == '\r' && |s| > 1 && s[1] == '\n' then 2 else 1;
      assert ReadNewlines(s) == [ReadNewlines(s)[0]] + ReadNewlines(s[k..]);
      OccursInRight([ReadNewlines(s)[0]], ReadNewlines(s[k..]), p, i);
      ReadOccurs(s[k..], p, i - 1);
      var j :| Occurs(s[k..], p, j);
      OccursInSuffix(s, p, k, j);
    }
  }

  lemma {:induction false} WritePrefix(nl: Newline, s: string, p: string)
    requires '\r' !in p && '\n' !in p
    requires IsPrefix(p, WriteNewlines(nl, s))
    ensures IsPrefix(p, s)
    decreases |s|
  {
    if |p| > 0 {
      var w := WriteNewlines(nl, s);
      assert w[0] == p[0];
      assert !(s[0] == '\n' && nl == CrLf);
      assert w == [s[0]] + WriteNewlines(nl, s[1..]);
      assert w[..|p|] == [s[0]] + WriteNewlines(nl, s[1..])[..|p| - 1];
      WritePrefix(nl, s[1..], p[1..]);
      assert s[..|p|] == [s[0]] + s[1..][..|p| - 1];
    }
  }

  /** A pattern without line breaks found in what a write put on disk was in
      the text written. */
  lemma {:induction false} WriteOccurs(nl: Newline, s: string, p: string, i: int)
    requires '\r' !in p && '\n' !in p
    requires Occurs(WriteNewlines(nl, s), p, i)
    ensures Contains(s, p)
    decreases |s|
  {
    var w := WriteNewlines(nl, s);
    if |p| == 0 {
      assert Occurs(s, p, 0);
    } else if i == 0 {
      WritePrefix(nl, s, p);
      assert Occurs(s, p, 0);
    } else {
      var h := if s[0] == '\n' && nl == CrLf then "\r\n" else [s[0]];
      assert w == h + WriteNewlines(nl, s[1..]);
      assert p[0] == w[i] && p[0] != '\n';
      assert |h| == 2 ==> w[1] == '\n';
      if i < |h| {
        assert false;
      } else {
        OccursInRight(h, WriteNewlines(nl, s[1..]), p, i);
        WriteOccurs(nl, s[1..], p, i - |h|);
        var j :| Occurs(s[1..], p, j);
        OccursInSuffix(s, p, 1, j);
      }
    }
  }

  /** Writing and reading back create no pattern without line breaks. */
  lemma SettleKeepsAbsent(nl: Newline, s: string, p: string)
    requires '\r' !in p && '\n' !in p
    requires !Contains(s, p)
    ensures !Contains(Settle(nl, s), p)
  {
    if Contains(Settle(nl, s), p) {
      var i :| Occurs(Settle(nl, s), p, i);
      ReadOccurs(WriteNewlines(nl, s), p, i);
      var j :| Occurs(WriteNewlines(nl, s), p, j);
      WriteOccurs(nl, s, p, j);
    }
  }

  /** A lone carriage return in a text comes back as a line feed, and on a
      `\r\n` platform a written `\r\n` comes back as two line feeds. */
  lemma CarriageReturnsSettle(nl: Newline)
    ensures Settle(nl, "a\rb") == "a\nb"
    ensures Settle(CrLf, "a\r\nb") == "a\n\nb"
  {
    assert "a\rb" == "a" + "\r" + "b";
    SettleSplice(nl, "a", "\r", "b");
    assert "a\r\nb" == "a" + "\r\n" + "b";
    SettleSplice(CrLf, "a", "\r\n", "b");
    assert WriteNewlines(CrLf, "\r\n") == "\r\r\n";
    assert ReadNewlines("\r\r\n") == "\n\n";
  }
}
