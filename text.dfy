/**
 * String helpers with JavaScript meaning: `String.prototype.trim`, the regex
 * class `\s`, the e-mail pattern of the students page, truthiness of optional
 * strings, and the orders and matching used by the SQL statements.
 */
module Text {
  import opened Wrappers

  /** JavaScript white space and line terminators: what `trim` strips and `\s` matches. */
  predicate IsSpace(c: char) {
    c == '\t' || c == '\n' || c == '\U{000B}' || c == '\U{000C}' || c == '\r' || c == ' ' ||
    c == '\U{00A0}' || c == '\U{1680}' || ('\U{2000}' <= c <= '\U{200A}') ||
    c == '\U{2028}' || c == '\U{2029}' || c == '\U{202F}' || c == '\U{205F}' ||
    c == '\U{3000}' || c == '\U{FEFF}'
  }

  predicate AllSpace(s: string) {
    forall k :: 0 <= k < |s| ==> IsSpace(s[k])
  }

  /** A value that JavaScript treats as true: present and not the empty string. */
  predicate Truthy(v: Option<string>) {
    v.Some? && v.value != []
  }

  /** The number of white-space characters at the front of `s`. */
  function LeadingSpaces(s: string): (k: nat)
    ensures k <= |s| && AllSpace(s[..k])
    ensures k < |s| ==> !IsSpace(s[k])
  {
    if s == [] || !IsSpace(s[0]) then 0
    else
      var k' := LeadingSpaces(s[1..]);
      assert s[..k' + 1] == [s[0]] + s[1..][..k'];
      k' + 1
  }

  /** The start of the longest all-white-space suffix of `s` that begins at or after `lo`. */
  function TrailingStart(s: string, lo: nat): (j: nat)
    requires lo <= |s|
    ensures lo <= j <= |s| && AllSpace(s[j..])
    ensures j > lo ==> !IsSpace(s[j - 1])
    decreases |s|
  {
    if |s| == lo || !IsSpace(s[|s| - 1]) then |s|
    else
      var j := TrailingStart(s[..|s| - 1], lo);
      assert s[j..] == s[..|s| - 1][j..] + [s[|s| - 1]];
      j
  }

  /** `s[i..j]` is what remains of `s` once white space is stripped from both ends. */
  ghost predicate TrimSplit(s: string, i: int, j: int) {
    0 <= i <= j <= |s| && AllSpace(s[..i]) && AllSpace(s[j..]) &&
    (i == j ==> AllSpace(s)) &&
    (i < j ==> !IsSpace(s[i]) && !IsSpace(s[j - 1]))
  }

  /** `String.prototype.trim`: white space removed from both ends, nothing else changed. */
  function Trim(s: string): (r: string)
    ensures |r| <= |s|
    ensures r == [] <==> AllSpace(s)
    ensures r == [] || (!IsSpace(r[0]) && !IsSpace(r[|r| - 1]))
  {
    var i := LeadingSpaces(s);
    var j := TrailingStart(s, i);
    assert i == j ==> AllSpace(s) by {
      if i == j {
        assert s == s[..i] + s[j..];
      }
    }
    s[i..j]
  }

  /** The trimmed string is the middle of `s` between two all-white-space ends. */
  lemma TrimSlice(s: string) returns (i: nat, j: nat)
    ensures TrimSplit(s, i, j) && Trim(s) == s[i..j]
  {
    i := LeadingSpaces(s);
    j := TrailingStart(s, i);
    assert i == j ==> AllSpace(s) by {
      if i == j {
        assert s == s[..i] + s[j..];
      }
    }
  }

  /** A string that neither starts nor ends with white space is its own trim. */
  lemma TrimKeeps(s: string)
    requires s == [] || (!IsSpace(s[0]) && !IsSpace(s[|s| - 1]))
    ensures Trim(s) == s
  {
    var i, j := TrimSlice(s);
  }

  /** Trimming twice is trimming once. */
  lemma TrimIdempotent(s: string)
    ensures Trim(Trim(s)) == Trim(s)
  {
    TrimKeeps(Trim(s));
  }

  // ---------------------------------------------------------------------
  // The e-mail pattern /^[^\s@]+@[^\s@]+\.[^\s@]+$/ of the students page.

  /** Every character belongs to the regex class `[^\s@]`. */
  predicate PlainRun(s: string) {
    forall k :: 0 <= k < |s| ==> !IsSpace(s[k]) && s[k] != '@'
  }

  /** A way for the regex to match: '@' at `at`, the separating '.' at `dot`. */
  ghost predicate EmailSplit(s: string, at: int, dot: int) {
    0 < at && at + 1 < dot && dot + 1 < |s| && s[at] == '@' && s[dot] == '.' &&
    PlainRun(s[..at]) && PlainRun(s[at + 1..dot]) && PlainRun(s[dot + 1..])
  }

  /** The regex matches `s` in full. */
  ghost predicate MatchesEmailPattern(s: string) {
    exists at, dot :: EmailSplit(s, at, dot)
  }

  /** The position of the first `c` in `s`, if any. */
  function IndexOf(s: string, c: char): (r: Option<nat>)
    ensures r.Some? ==> r.value < |s| && s[r.value] == c && c !in s[..r.value]
    ensures r.None? ==> c !in s
  {
    if s == [] then None
    else if s[0] == c then Some(0)
    else match IndexOf(s[1..], c)
      case None => None
      case Some(k) =>
        assert s[..k + 1] == [s[0]] + s[1..][..k];
        Some(k + 1)
  }

  /** The check the students page runs on a non-empty e-mail field. */
  predicate IsEmail(s: string) {
    match IndexOf(s, '@')
    case None => false
    case Some(at) =>
      0 < at && PlainRun(s[..at]) && PlainRun(s[at + 1..]) &&
      exists k :: at + 1 < k < |s| - 1 && s[k] == '.'
  }

  /** The first occurrence of `c` is found wherever `c` first occurs. */
  lemma {:induction false} IndexOfFirst(s: string, c: char, k: nat)
    requires k < |s| && s[k] == c && c !in s[..k]
    ensures IndexOf(s, c) == Some(k)
  {
    if k > 0 {
      assert s[0] == s[..k][0];
      assert s[1..][..k - 1] == s[1..k];
      IndexOfFirst(s[1..], c, k - 1);
    }
  }

  /** `IsEmail` accepts exactly the strings the regular expression matches. */
  lemma EmailPatternIff(s: string)
    ensures IsEmail(s) <==> MatchesEmailPattern(s)
  {
    if IsEmail(s) {
      var at := IndexOf(s, '@').value;
      var dot :| at + 1 < dot < |s| - 1 && s[dot] == '.';
      assert s[at + 1..dot] == s[at + 1..][..dot - at - 1];
      assert s[dot + 1..] == s[at + 1..][dot - at..];
      assert EmailSplit(s, at, dot);
    }
    if MatchesEmailPattern(s) {
      var at, dot :| EmailSplit(s, at, dot);
      IndexOfFirst(s, '@', at);
      var domain := s[at + 1..];
      forall k | 0 <= k < |domain|
        ensures !IsSpace(domain[k]) && domain[k] != '@'
      {
        if k < dot - at - 1 {
          assert domain[k] == s[at + 1..dot][k];
        } else if k > dot - at - 1 {
          assert domain[k] == s[dot + 1..][k - (dot - at)];
        }
      }
      assert IsEmail(s);
    }
  }

  /** A string that passes the e-mail check contains no white space at all. */
  lemma EmailHasNoSpace(s: string)
    requires IsEmail(s)
    ensures forall k :: 0 <= k < |s| ==> !IsSpace(s[k])
  {
    var at := IndexOf(s, '@').value;
    forall k | 0 <= k < |s|
      ensures !IsSpace(s[k])
    {
      if k < at {
        assert s[k] == s[..at][k];
      } else if k > at {
        assert s[k] == s[at + 1..][k - at - 1];
      }
    }
  }

  /** A field with white space at either end never passes the e-mail check. */
  lemma EmailRejectsPadding(s: string)
    requires s != [] && (IsSpace(s[0]) || IsSpace(s[|s| - 1]))
    ensures !IsEmail(s)
  {
    if IsEmail(s) {
      EmailHasNoSpace(s);
      assert false;
    }
  }

  /** A string the e-mail check accepts is its own trim. */
  lemma EmailIsTrimmed(s: string)
    requires IsEmail(s)
    ensures Trim(s) == s
  {
    EmailHasNoSpace(s);
    TrimKeeps(s);
  }

  // ---------------------------------------------------------------------
  // Orders and matching used by the SQL statements.

  /** Lexicographic order on code points: `ORDER BY name` under a binary collation. */
  predicate StrLe(a: string, b: string) {
    a == [] || (b != [] && (a[0] < b[0] || (a[0] == b[0] && StrLe(a[1..], b[1..]))))
  }

  lemma {:induction false} StrLeTotal(a: string, b: string)
    ensures StrLe(a, b) || StrLe(b, a)
  {
    if a != [] && b != [] && a[0] == b[0] {
      StrLeTotal(a[1..], b[1..]);
    }
  }

  lemma {:induction false} StrLeTrans(a: string, b: string, c: string)
    requires StrLe(a, b) && StrLe(b, c)
    ensures StrLe(a, c)
  {
    if a != [] && b != [] && c != [] && a[0] == b[0] == c[0] {
      StrLeTrans(a[1..], b[1..], c[1..]);
    }
  }

  /** ASCII case folding, the part of ILIKE's case-insensitivity this model keeps. */
  function Lower(c: char): char {
    if 'A' <= c <= 'Z' then (c as int + 32) as char else c
  }

  function LowerStr(s: string): (r: string)
    ensures |r| == |s| && forall k :: 0 <= k < |s| ==> r[k] == Lower(s[k])
  {
    seq(|s|, k requires 0 <= k < |s| => Lower(s[k]))
  }

  /** `needle` occurs in `hay` starting at position `i`. */
  predicate OccursAt(hay: string, needle: string, i: nat) {
    i + |needle| <= |hay| && hay[i..i + |needle|] == needle
  }

  /** `needle` occurs in `hay` as a contiguous run. */
  predicate HasInfix(hay: string, needle: string) {
    exists i: nat :: i <= |hay| && OccursAt(hay, needle, i)
  }

  /** `hay ILIKE '%' || needle || '%'`, treating `%` and `_` in needle literally. */
  predicate ILike(hay: string, needle: string) {
    HasInfix(LowerStr(hay), LowerStr(needle))
  }
}
