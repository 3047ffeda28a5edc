/** The Python string built-ins the program leans on: truthiness of an optional
    string, `startswith`, the `in` operator, `str.replace`, `str.strip`, slicing
    with a possibly negative bound, and `str(n)` for a natural number. */
module Strings {
  import opened Wrappers

  /** Python truthiness of an `Optional[str]`: present and non-empty. */
  predicate Truthy(s: Option<string>) {
    s.Some? && s.value != ""
  }

  predicate StartsWith(s: string, prefix: string) {
    |prefix| <= |s| && s[..|prefix|] == prefix
  }

  predicate EndsWith(s: string, suffix: string) {
    |suffix| <= |s| && s[|s| - |suffix|..] == suffix
  }

  /** `s[i:].startswith(pat)`, checked one character at a time. */
  predicate PrefixAt(s: string, i: nat, pat: string)
    decreases |pat|
  {
    pat == [] || (i < |s| && s[i] == pat[0] && PrefixAt(s, i + 1, pat[1..]))
  }

  lemma {:induction false} PrefixAtIff(s: string, i: nat, pat: string)
    requires i <= |s|
    ensures PrefixAt(s, i, pat) <==> StartsWith(s[i..], pat)
    decreases |pat|
  {
    if pat != [] && i < |s| {
      PrefixAtIff(s, i + 1, pat[1..]);
      assert s[i..][1..] == s[i + 1..];
      if StartsWith(s[i..], pat) {
        assert s[i..][..|pat|][1..] == s[i + 1..][..|pat| - 1];
      }
      if PrefixAt(s, i, pat) {
        assert s[i..][..|pat|] == [s[i]] + s[i + 1..][..|pat| - 1];
      }
    }
  }

  /** Python's `sub in s`. */
  predicate Contains(s: string, sub: string)
    decreases |s|
  {
    StartsWith(s, sub) || (s != [] && Contains(s[1..], sub))
  }

  /** Python's `s.replace(pat, rep)` for a non-empty pattern: every leftmost,
      non-overlapping occurrence of `pat`, scanning left to right, becomes `rep`. */
  function ReplaceAll(s: string, pat: string, rep: string): string
    requires pat != []
    decreases |s|
  {
    if |s| < |pat| then s
    else if s[..|pat|] == pat then rep + ReplaceAll(s[|pat|..], pat, rep)
    else [s[0]] + ReplaceAll(s[1..], pat, rep)
  }

  /** Replacing a single character works piece by piece. */
  lemma {:induction false} ReplaceCharAppend(a: string, b: string, c: char, rep: string)
    ensures ReplaceAll(a + b, [c], rep) == ReplaceAll(a, [c], rep) + ReplaceAll(b, [c], rep)
    decreases |a|
  {
    if a == [] {
      assert a + b == b;
    } else {
      assert (a + b)[..1] == a[..1];
      assert (a + b)[1..] == a[1..] + b;
      ReplaceCharAppend(a[1..], b, c, rep);
    }
  }

  /** Replacing a character that does not occur changes nothing. */
  lemma {:induction false} ReplaceCharAbsent(s: string, c: char, rep: string)
    requires c !in s
    ensures ReplaceAll(s, [c], rep) == s
    decreases |s|
  {
    if s != [] {
      assert s[..1] == [s[0]];
      ReplaceCharAbsent(s[1..], c, rep);
    }
  }

  /** Python's `s.lstrip(c)`. */
  function StripLeft(s: string, c: char): (r: string)
    ensures r == [] || r[0] != c
    ensures |r| <= |s| && r == s[|s| - |r|..]
    ensures forall i :: 0 <= i < |s| - |r| ==> s[i] == c
    decreases |s|
  {
    if s != [] && s[0] == c then StripLeft(s[1..], c) else s
  }

  /** Python's `s.rstrip(c)`. */
  function StripRight(s: string, c: char): (r: string)
    ensures r == [] || r[|r| - 1] != c
    ensures |r| <= |s| && r == s[..|r|]
    ensures forall i :: |r| <= i < |s| ==> s[i] == c
    decreases |s|
  {
    if s != [] && s[|s| - 1] == c then StripRight(s[..|s| - 1], c) else s
  }

  /** Python's `s.strip(c)`. */
  function Strip(s: string, c: char): (r: string)
    ensures r == [] || (r[0] != c && r[|r| - 1] != c)
  {
    StripLeft(StripRight(s, c), c)
  }

  /** Python's `s[:k]`: a negative bound counts from the end. */
  function SliceTo(s: string, k: int): (r: string)
    ensures |r| == if k >= 0 then (if k <= |s| then k else |s|) else (if |s| + k >= 0 then |s| + k else 0)
    ensures r == s[..|r|]
  {
    if k >= 0 then (if k <= |s| then s[..k] else s)
    else if |s| + k >= 0 then s[..|s| + k] else []
  }

  /** Index of the first character of `s` that is in `stops`, or `|s|` when
      there is none: Python's `find`, with `len(s)` standing for "not found". */
  function IndexOfAny(s: string, stops: set<char>): (i: nat)
    ensures i <= |s|
    decreases |s|
  {
    if s == [] then 0 else if s[0] in stops then 0 else 1 + IndexOfAny(s[1..], stops)
  }

  /** The index IndexOfAny gives is the first position holding a stop. */
  lemma {:induction false} IndexOfAnyIs(s: string, stops: set<char>, k: nat)
    requires k <= |s| && (k < |s| ==> s[k] in stops)
    requires forall j :: 0 <= j < k ==> s[j] !in stops
    ensures IndexOfAny(s, stops) == k
    decreases |s|
  {
    if k > 0 {
      IndexOfAnyIs(s[1..], stops, k - 1);
    }
  }

  /** Index of the last occurrence of `c` in `s`: Python's `rfind`, which
      gives -1 when there is none. */
  function LastIndexOf(s: string, c: char): (i: int)
    ensures -1 <= i < |s|
    decreases |s|
  {
    if s == [] then -1 else if s[|s| - 1] == c then |s| - 1 else LastIndexOf(s[..|s| - 1], c)
  }

  /** The index LastIndexOf gives is the last position holding `c`. */
  lemma {:induction false} LastIndexOfIs(s: string, c: char, k: nat)
    requires k < |s| && s[k] == c
    requires forall j :: k < j < |s| ==> s[j] != c
    ensures LastIndexOf(s, c) == k
    decreases |s|
  {
    if k < |s| - 1 {
      LastIndexOfIs(s[..|s| - 1], c, k);
    }
  }

  function DigitChar(d: nat): char
    requires d < 10
  {
    "0123456789"[d]
  }

  predicate IsDigit(c: char) {
    '0' <= c <= '9'
  }

  /** Python's `str(n)` for a natural number: shortest decimal, no sign. */
  function NatToString(n: nat): (r: string)
    ensures |r| >= 1
    ensures forall i :: 0 <= i < |r| ==> IsDigit(r[i])
    ensures n < 10 <==> |r| == 1
  {
    if n < 10 then [DigitChar(n)] else NatToString(n / 10) + [DigitChar(n % 10)]
  }

  /** The value a decimal digit string denotes: the reading a parser applies. */
  function DecimalValue(s: string): nat
    requires forall i :: 0 <= i < |s| ==> IsDigit(s[i])
  {
    if s == [] then 0
    else
      assert IsDigit(s[|s| - 1]);
      DecimalValue(s[..|s| - 1]) * 10 + ((s[|s| - 1] as int) - ('0' as int))
  }

  /** Reading back what `str(n)` printed gives n. */
  lemma {:induction false} NatToStringRoundTrip(n: nat)
    ensures DecimalValue(NatToString(n)) == n
  {
    var r := NatToString(n);
    if n >= 10 {
      NatToStringRoundTrip(n / 10);
      assert r[..|r| - 1] == NatToString(n / 10);
    }
  }

  /** Distinct numbers print differently. */
  lemma NatToStringInjective(a: nat, b: nat)
    requires NatToString(a) == NatToString(b)
    ensures a == b
  {
    NatToStringRoundTrip(a);
    NatToStringRoundTrip(b);
  }

  /** A fixed text around a printed number determines the number. */
  lemma NumberedNameInjective(pre: string, a: nat, b: nat, post: string)
    requires pre + NatToString(a) + post == pre + NatToString(b) + post
    ensures a == b
  {
    var x, y := NatToString(a), NatToString(b);
    var s := pre + x + post;
    assert |x| == |y|;
    assert x == s[|pre|..|pre| + |x|];
    assert y == (pre + y + post)[|pre|..|pre| + |y|];
    NatToStringInjective(a, b);
  }
}
