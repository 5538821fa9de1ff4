/**
 * The pieces of Rust's `str` API that the server relies on, over `string`
 * (one `char` per Unicode scalar value): `split` with a string or char
 * pattern, `trim`, `replace`, and the decimal formatting of an integer.
 */
module Strings {
  import opened Wrappers

  const NUL: char := '\0'

  /** `pat` occurs in `s` starting at index `i`. */
  predicate OccursAt(s: string, pat: string, i: int)
  {
    0 <= i && i + |pat| <= |s| && s[i..i + |pat|] == pat
  }

  ghost predicate Contains(s: string, pat: string)
  {
    exists i :: OccursAt(s, pat, i)
  }

  lemma OccursAtChar(s: string, c: char, i: int)
    ensures OccursAt(s, [c], i) <==> 0 <= i < |s| && s[i] == c
  {
    if 0 <= i < |s| {
      assert s[i..i + 1] == [s[i]];
    }
  }

  /** The leftmost occurrence of `pat` in `s` at or after `from`. */
  function IndexFrom(s: string, pat: string, from: nat): (r: Option<nat>)
    requires |pat| > 0
    ensures r.Some? ==> from <= r.value && OccursAt(s, pat, r.value)
    ensures forall j :: from <= j && (r.None? || j < r.value) ==> !OccursAt(s, pat, j)
    decreases |s| - from
  {
    if from + |pat| > |s| then None
    else if s[from..from + |pat|] == pat then Some(from)
    else IndexFrom(s, pat, from + 1)
  }

  lemma FreeBefore(s: string, pat: string, i: nat)
    requires |pat| > 0 && i <= |s|
    requires forall j :: 0 <= j < i ==> !OccursAt(s, pat, j)
    ensures !Contains(s[..i], pat)
  {
    if Contains(s[..i], pat) {
      var j :| OccursAt(s[..i], pat, j);
      assert s[..i][j..j + |pat|] == s[j..j + |pat|];
      assert OccursAt(s, pat, j);
    }
  }

  /** Inverse of Split: the parts glued back together with `sep`. */
  function Join(parts: seq<string>, sep: string): string
  {
    if |parts| == 0 then ""
    else if |parts| == 1 then parts[0]
    else parts[0] + sep + Join(parts[1..], sep)
  }

  /** Every character of a part is a character of the joined text. */
  lemma {:induction false} JoinedPart(parts: seq<string>, sep: string, k: nat)
    requires k < |parts|
    ensures forall c :: c in parts[k] ==> c in Join(parts, sep)
  {
    if |parts| > 1 {
      if k > 0 {
        JoinedPart(parts[1..], sep, k - 1);
        assert parts[1..][k - 1] == parts[k];
      }
    }
  }

  /**
   * Rust's `s.split(sep)`: the pieces between leftmost, non-overlapping
   * occurrences of `sep`; an input without `sep` (the empty one included)
   * gives one piece, and a trailing `sep` gives a trailing empty piece.
   */
  function Split(s: string, sep: string): (parts: seq<string>)
    requires |sep| > 0
    ensures |parts| >= 1
    ensures Join(parts, sep) == s
    ensures forall k :: 0 <= k < |parts| ==> !Contains(parts[k], sep)
    decreases |s|
  {
    match IndexFrom(s, sep, 0)
    case None => [s]
    case Some(i) =>
      var rest := s[i + |sep|..];
      assert s == s[..i] + sep + rest;
      FreeBefore(s, sep, i);
      [s[..i]] + Split(rest, sep)
  }

  /** When the separator's first character is absent from `a`, the first piece is exactly `a`. */
  lemma SplitFirst(a: string, sep: string, b: string)
    requires |sep| > 0 && sep[0] !in a
    ensures Split(a + sep + b, sep) == [a] + Split(b, sep)
  {
    var s := a + sep + b;
    assert s[|a|..|a| + |sep|] == sep;
    assert OccursAt(s, sep, |a|);
    assert forall j :: 0 <= j < |a| ==> !OccursAt(s, sep, j);
    var r := IndexFrom(s, sep, 0);
    assert r == Some(|a|);
    assert s[..|a|] == a;
    assert s[|a| + |sep|..] == b;
  }

  lemma SplitWhole(a: string, sep: string)
    requires |sep| > 0 && sep[0] !in a
    ensures Split(a, sep) == [a]
  {
    assert forall j :: 0 <= j ==> !OccursAt(a, sep, j);
    assert IndexFrom(a, sep, 0).None?;
  }

  /** Rust's `s.replace(pat, rep)`: every leftmost occurrence of `pat` replaced. */
  function Replace(s: string, pat: string, rep: string): (r: string)
    requires |pat| > 0
    ensures rep == pat ==> r == s
  {
    Join(Split(s, pat), rep)
  }

  /**
   * `replace` rewrites the first occurrence and carries on after it: when
   * no match starts inside `a`, the first match in `a + pat + b` is the one
   * right after `a`.
   */
  lemma ReplaceFirst(a: string, pat: string, b: string, rep: string)
    requires |pat| > 0
    requires forall j :: 0 <= j < |a| ==> !OccursAt(a + pat + b, pat, j)
    ensures Replace(a + pat + b, pat, rep) == a + rep + Replace(b, pat, rep)
  {
    var s := a + pat + b;
    assert s[|a|..|a| + |pat|] == pat;
    assert OccursAt(s, pat, |a|);
    assert IndexFrom(s, pat, 0) == Some(|a|);
    assert s[..|a|] == a;
    assert s[|a| + |pat|..] == b;
    var rest := Split(b, pat);
    assert Split(s, pat) == [a] + rest;
    assert ([a] + rest)[1..] == rest;
  }

  lemma ReplaceAbsent(s: string, pat: string, rep: string)
    requires |pat| > 0
    ensures !Contains(s, pat) ==> Replace(s, pat, rep) == s
  {
    if !Contains(s, pat) {
      assert forall j :: 0 <= j ==> !OccursAt(s, pat, j);
      assert IndexFrom(s, pat, 0).None?;
    }
  }

  lemma NoCharOccurrence(s: string, c: char)
    requires forall j :: 0 <= j ==> !OccursAt(s, [c], j)
    ensures c !in s
  {
    forall j | 0 <= j < |s|
      ensures s[j] != c
    {
      OccursAtChar(s, c, j);
    }
  }

  lemma FirstCharAt(s: string, c: char, i: nat)
    requires OccursAt(s, [c], i)
    requires forall j :: 0 <= j < i ==> !OccursAt(s, [c], j)
    ensures i < |s| && s[i] == c && c !in s[..i]
    ensures s == s[..i] + [c] + s[i + 1..]
  {
    OccursAtChar(s, c, i);
    forall j | 0 <= j < i
      ensures s[..i][j] != c
    {
      OccursAtChar(s, c, j);
    }
    assert s == s[..i] + [c] + s[i + 1..];
  }

  /** Where `split_once(c)` cuts: the first `c`, with none before it. */
  lemma FirstChar(s: string, c: char)
    ensures IndexFrom(s, [c], 0).None? ==> c !in s
    ensures IndexFrom(s, [c], 0).Some? ==>
      var i := IndexFrom(s, [c], 0).value;
      i < |s| && s[i] == c && c !in s[..i] && s == s[..i] + [c] + s[i + 1..]
  {
    var r := IndexFrom(s, [c], 0);
    if r.None? {
      NoCharOccurrence(s, c);
    } else {
      FirstCharAt(s, c, r.value);
    }
  }

  function Count(s: string, c: char): nat
  {
    if s == [] then 0 else (if s[0] == c then 1 else 0) + Count(s[1..], c)
  }

  lemma {:induction false} CountAppend(a: string, b: string, c: char)
    ensures Count(a + b, c) == Count(a, c) + Count(b, c)
  {
    if a == [] {
      assert a + b == b;
    } else {
      assert (a + b)[1..] == a[1..] + b;
      CountAppend(a[1..], b, c);
    }
  }

  lemma {:induction false} CountAbsent(s: string, c: char)
    requires c !in s
    ensures Count(s, c) == 0
  {
    if s != [] {
      assert c !in s[1..];
      CountAbsent(s[1..], c);
    }
  }

  /** Splitting on a character gives one piece more than there are occurrences of it. */
  lemma {:induction false} SplitCharCount(s: string, c: char)
    ensures |Split(s, [c])| == Count(s, c) + 1
    decreases |s|
  {
    var r := IndexFrom(s, [c], 0);
    if r.None? {
      forall j | 0 <= j < |s|
        ensures s[j] != c
      {
        OccursAtChar(s, c, j);
      }
      CountAbsent(s, c);
    } else {
      var i := r.value;
      var rest := s[i + 1..];
      OccursAtChar(s, c, i);
      forall j | 0 <= j < i
        ensures s[..i][j] != c
      {
        OccursAtChar(s, c, j);
      }
      assert s == s[..i] + [c] + rest;
      CountAppend(s[..i] + [c], rest, c);
      CountAppend(s[..i], [c], c);
      CountAbsent(s[..i], c);
      SplitCharCount(rest, c);
      assert Split(s, [c]) == [s[..i]] + Split(rest, [c]);
    }
  }

  /** Rust's `char::is_whitespace`: the Unicode White_Space property. */
  predicate IsWhitespace(c: char)
  {
    || '\t' <= c <= '\r'
    || c == ' '
    || c == '\U{85}'
    || c == '\U{A0}'
    || c == '\U{1680}'
    || '\U{2000}' <= c <= '\U{200A}'
    || c == '\U{2028}'
    || c == '\U{2029}'
    || c == '\U{202F}'
    || c == '\U{205F}'
    || c == '\U{3000}'
  }

  function TrimStart(s: string): (t: string)
    ensures |t| <= |s|
    ensures |t| > 0 ==> !IsWhitespace(t[0])
    ensures forall c :: !IsWhitespace(c) ==> (c in t <==> c in s)
  {
    if |s| > 0 && IsWhitespace(s[0]) then TrimStart(s[1..]) else s
  }

  function TrimEnd(s: string): (t: string)
    ensures |t| <= |s|
    ensures |t| > 0 ==> !IsWhitespace(t[|t| - 1]) && t[0] == s[0]
    ensures forall c :: !IsWhitespace(c) ==> (c in t <==> c in s)
  {
    if |s| > 0 && IsWhitespace(s[|s| - 1]) then TrimEnd(s[..|s| - 1]) else s
  }

  /** Rust's `str::trim`: leading and trailing whitespace removed, nothing else. */
  function Trim(s: string): (t: string)
    ensures |t| <= |s|
    ensures |t| > 0 ==> !IsWhitespace(t[0]) && !IsWhitespace(t[|t| - 1])
    ensures forall c :: !IsWhitespace(c) ==> (c in t <==> c in s)
  {
    TrimEnd(TrimStart(s))
  }

  function DigitChar(d: nat): char
    requires d < 10
  {
    "0123456789"[d]
  }

  function DigitValue(ch: char): nat
  {
    if '0' <= ch <= '9' then (ch - '0') as nat else 0
  }

  /** Rust's `Display` for an unsigned integer: decimal, no leading zeros. */
  function NatToString(n: nat): (s: string)
    ensures |s| >= 1
    ensures forall k :: 0 <= k < |s| ==> '0' <= s[k] <= '9'
    ensures n >= 10 ==> s[0] != '0'
  {
    if n < 10 then [DigitChar(n)] else NatToString(n / 10) + [DigitChar(n % 10)]
  }

  /** Reading a decimal numeral back. */
  function DecimalValue(s: string): nat
  {
    if s == [] then 0 else 10 * DecimalValue(s[..|s| - 1]) + DigitValue(s[|s| - 1])
  }

  lemma {:induction false} DecimalRoundTrip(n: nat)
    ensures DecimalValue(NatToString(n)) == n
  {
    var s := NatToString(n);
    if n < 10 {
      assert DigitValue(DigitChar(n)) == n;
    } else {
      DecimalRoundTrip(n / 10);
      assert s[..|s| - 1] == NatToString(n / 10);
      assert DigitValue(DigitChar(n % 10)) == n % 10;
    }
  }

  lemma {:induction false} NatToStringLength3(n: nat)
    requires 100 <= n < 1000
    ensures |NatToString(n)| == 3
  {
    var tens := n / 10;
    assert 10 <= tens < 100 && tens / 10 == n / 100 && 1 <= n / 100 < 10;
    assert |NatToString(n / 100)| == 1;
    assert |NatToString(tens)| == |NatToString(tens / 10)| + 1;
    assert |NatToString(n)| == |NatToString(tens)| + 1;
  }
}
