/** The handful of Python `str` operations the pipeline relies on, with the
    semantics CPython gives them, stated over `seq<char>`. */
module PyStr {

  /** `s.startswith(prefix)` */
  predicate StartsWith(s: string, prefix: string) {
    |prefix| <= |s| && s[..|prefix|] == prefix
  }

  /** `s.endswith(suffix)` */
  predicate EndsWith(s: string, suffix: string) {
    |suffix| <= |s| && s[|s| - |suffix|..] == suffix
  }

  /** `s[:-k]` for k > 0: all but the last k characters, or "" when s is shorter. */
  function DropLast(s: string, k: nat): (r: string)
    requires k > 0
    ensures |r| == if |s| >= k then |s| - k else 0
    ensures r <= s
  {
    if |s| >= k then s[..|s| - k] else []
  }

  // ---------------------------------------------------------------------------
  // `sub in s`

  /** `sub` occurs in `s` starting at index `i`. */
  predicate OccursAt(s: string, sub: string, i: nat) {
    i + |sub| <= |s| && s[i..i + |sub|] == sub
  }

  /** `sub in s`: some position holds an occurrence. */
  predicate Contains(s: string, sub: string) {
    exists i: nat :: i <= |s| - |sub| && OccursAt(s, sub, i)
  }

  // ---------------------------------------------------------------------------
  // `s.lower()`

  /** Lower-casing of one character, for the ASCII letters. */
  function LowerChar(c: char): (d: char)
    ensures 'A' <= c <= 'Z' ==> 'a' <= d <= 'z' && d as int == c as int + 32
    ensures !('A' <= c <= 'Z') ==> d == c
  {
    if 'A' <= c <= 'Z' then (c as int + 32) as char else c
  }

  /** `s.lower()`, character by character. */
  function Lower(s: string): (r: string)
    ensures |r| == |s|
    ensures forall i :: 0 <= i < |s| ==> r[i] == LowerChar(s[i])
  {
    seq(|s|, i requires 0 <= i < |s| => LowerChar(s[i]))
  }

  lemma LowerAppend(a: string, b: string)
    ensures Lower(a + b) == Lower(a) + Lower(b)
  {
  }

  /** Lower-casing commutes with taking a slice. */
  lemma LowerSlice(s: string, i: nat, j: nat)
    requires i <= j <= |s|
    ensures Lower(s)[i..j] == Lower(s[i..j])
  {
  }

  // ---------------------------------------------------------------------------
  // `s.replace(pat, rep)`

  /** `s.replace(pat, rep)`: every non-overlapping occurrence of `pat`, found
      left to right, is replaced by `rep`. */
  function Replace(s: string, pat: string, rep: string): string
    requires |pat| > 0
    decreases |s|
  {
    if |s| < |pat| then s
    else if s[..|pat|] == pat then rep + Replace(s[|pat|..], pat, rep)
    else [s[0]] + Replace(s[1..], pat, rep)
  }

  /** A replacement of the same length as the pattern keeps the length. */
  lemma {:induction false} ReplaceLength(s: string, pat: string, rep: string)
    requires |pat| > 0 && |rep| == |pat|
    ensures |Replace(s, pat, rep)| == |s|
    decreases |s|
  {
    if |s| < |pat| {
    } else if s[..|pat|] == pat {
      ReplaceLength(s[|pat|..], pat, rep);
    } else {
      ReplaceLength(s[1..], pat, rep);
    }
  }

  /** Where the pattern does not occur, nothing changes. */
  lemma {:induction false} ReplaceAbsent(s: string, pat: string, rep: string)
    requires |pat| > 0 && !Contains(s, pat)
    ensures Replace(s, pat, rep) == s
    decreases |s|
  {
    if |s| >= |pat| {
      assert !OccursAt(s, pat, 0);
      assert !Contains(s[1..], pat) by {
        forall i: nat | i <= |s[1..]| - |pat| && OccursAt(s[1..], pat, i)
          ensures OccursAt(s, pat, i + 1)
        {
          assert s[1..][i..i + |pat|] == s[i + 1..i + 1 + |pat|];
        }
      }
      ReplaceAbsent(s[1..], pat, rep);
    }
  }

  /** A suffix survives putting something in front. */
  lemma EndsWithAppend(x: string, y: string, suffix: string)
    requires EndsWith(y, suffix)
    ensures EndsWith(x + y, suffix)
  {
    assert (x + y)[|x + y| - |suffix|..] == y[|y| - |suffix|..];
  }

  /** A pattern whose first character does not occur again in it cannot
      overlap itself: a text that starts with it, ends with it and is longer
      holds two separate occurrences. */
  lemma SeparateOccurrences(s: string, pat: string)
    requires |pat| > 0 && pat[0] !in pat[1..]
    requires |s| > |pat| && s[..|pat|] == pat && EndsWith(s, pat)
    ensures |s| >= 2 * |pat|
  {
    var k := |s| - |pat|;
    assert s[k] == s[|s| - |pat|..][0] == pat[0];
    assert forall j :: 0 < j < |pat| ==> pat[j] == pat[1..][j - 1];
  }

  /** A text ending in the pattern ends in the replacement once every
      occurrence is replaced, when the pattern cannot overlap itself. */
  lemma {:induction false} ReplaceSuffix(s: string, pat: string, rep: string)
    requires |pat| > 0 && pat[0] !in pat[1..]
    requires EndsWith(s, pat)
    ensures EndsWith(Replace(s, pat, rep), rep)
    decreases |s|
  {
    if |s| == |pat| {
      assert s[..|pat|] == s;
      assert Replace(s, pat, rep) == rep + Replace(s[|pat|..], pat, rep);
      assert Replace(s, pat, rep) == rep;
    } else if s[..|pat|] == pat {
      SeparateOccurrences(s, pat);
      var t := s[|pat|..];
      assert t[|t| - |pat|..] == s[|s| - |pat|..];
      ReplaceSuffix(t, pat, rep);
      EndsWithAppend(rep, Replace(t, pat, rep), rep);
    } else {
      var t := s[1..];
      assert t[|t| - |pat|..] == s[|s| - |pat|..];
      ReplaceSuffix(t, pat, rep);
      EndsWithAppend([s[0]], Replace(t, pat, rep), rep);
    }
  }

  /** A name ending in ".ogg" ends in ".wav" once every ".ogg" is replaced. */
  lemma ReplaceOggSuffix(s: string)
    requires EndsWith(s, ".ogg")
    ensures EndsWith(Replace(s, ".ogg", ".wav"), ".wav")
  {
    assert ".ogg"[1..] == "ogg";
    ReplaceSuffix(s, ".ogg", ".wav");
  }

  // ---------------------------------------------------------------------------
  // `" ".join(parts)`

  /** `" ".join(parts)` */
  function JoinSpace(parts: seq<string>): string
  {
    if |parts| == 0 then ""
    else if |parts| == 1 then parts[0]
    else parts[0] + " " + JoinSpace(parts[1..])
  }

  /** Joining a further part appends a single space and that part. */
  lemma {:induction false} JoinSpaceAppend(parts: seq<string>, p: string)
    requires |parts| > 0
    ensures JoinSpace(parts + [p]) == JoinSpace(parts) + " " + p
    decreases |parts|
  {
    if |parts| == 1 {
      assert (parts + [p])[1..] == [p];
    } else {
      assert (parts + [p])[1..] == parts[1..] + [p];
      JoinSpaceAppend(parts[1..], p);
    }
  }

  /** Total length of some strings. */
  function TotalLength(parts: seq<string>): nat
  {
    if |parts| == 0 then 0 else |parts[0]| + TotalLength(parts[1..])
  }

  /** The joined text holds every part and exactly one separator between
      neighbours. */
  lemma {:induction false} JoinSpaceLength(parts: seq<string>)
    requires |parts| > 0
    ensures |JoinSpace(parts)| == TotalLength(parts) + |parts| - 1
    decreases |parts|
  {
    if |parts| > 1 {
      JoinSpaceLength(parts[1..]);
    }
  }

  // ---------------------------------------------------------------------------
  // `str(n)` for a natural number

  function DigitChar(d: nat): char
    requires d < 10
  {
    "0123456789"[d]
  }

  function DigitValue(c: char): nat
  {
    if '0' <= c <= '9' then c as int - '0' as int else 0
  }

  /** `str(n)`: the decimal digits of n, without leading zeros. */
  function NatToString(n: nat): (r: string)
    ensures |r| >= 1
    decreases n
  {
    if n < 10 then [DigitChar(n)] else NatToString(n / 10) + [DigitChar(n % 10)]
  }

  /** `int(s)` for a string of decimal digits. */
  function ParseNat(s: string): nat
    decreases |s|
  {
    if |s| == 0 then 0 else ParseNat(s[..|s| - 1]) * 10 + DigitValue(s[|s| - 1])
  }

  /** Reading back the decimal digits recovers the number. */
  lemma {:induction false} ParseNatToString(n: nat)
    ensures ParseNat(NatToString(n)) == n
    decreases n
  {
    var r := NatToString(n);
    if n < 10 {
      assert r[..|r| - 1] == [];
    } else {
      ParseNatToString(n / 10);
      assert r[..|r| - 1] == NatToString(n / 10);
    }
  }

  /** Different numbers have different decimal representations. */
  lemma NatToStringInjective(m: nat, n: nat)
    requires NatToString(m) == NatToString(n)
    ensures m == n
  {
    ParseNatToString(m);
    ParseNatToString(n);
  }
}
