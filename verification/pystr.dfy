/**
  The few Python string builtins the health-document core relies on:
  `str.isspace` (shared by `str.strip()` and the regular-expression class `\s`),
  ASCII case folding for `(?i)`, `str.strip()`, `str.endswith`,
  `str.replace` of one character and `'\n'.join`, with `str.split('\n')` as its inverse.
 */
module PyStr {

  /** The characters Python's `str.isspace()` accepts; `\s` and `strip()` use the same set. */
  predicate IsSpace(c: char) {
    || ('\t' <= c <= '\r')
    || ('\U{1C}' <= c <= '\U{1F}')
    || c == ' '
    || c == '\U{85}'
    || c == '\U{A0}'
    || c == '\U{1680}'
    || ('\U{2000}' <= c <= '\U{200A}')
    || c == '\U{2028}'
    || c == '\U{2029}'
    || c == '\U{202F}'
    || c == '\U{205F}'
    || c == '\U{3000}'
  }

  /** Case folding used when comparing a keyword with the text (ASCII letters only). */
  function Lower(c: char): (r: char)
    ensures !('A' <= r <= 'Z')
    ensures 'A' <= c <= 'Z' ==> r as int == c as int + 32
    ensures !('A' <= c <= 'Z') ==> r == c
  {
    if 'A' <= c <= 'Z' then (c as int + 32) as char else c
  }

  /** `upper` is an upper-case ASCII letter and `lower` the same letter in lower case. */
  predicate CaseVariants(upper: char, lower: char) {
    'A' <= upper <= 'Z' && lower as int == upper as int + 32
  }

  /**
    What `(?i)` means for one pair of characters: they fold together exactly when they are
    equal or are the two cases of one ASCII letter.
   */
  lemma LowerEqualIff(a: char, b: char)
    ensures Lower(a) == Lower(b) <==> a == b || CaseVariants(a, b) || CaseVariants(b, a)
  {
  }

  // ---------------------------------------------------------------------------
  // str.strip()

  /** `s[a..b]` is what is left of `s` once whitespace is removed from both ends. */
  ghost predicate StrippedAt(s: string, a: nat, b: nat) {
    && a <= b <= |s|
    && (forall k :: 0 <= k < a ==> IsSpace(s[k]))
    && (forall k :: b <= k < |s| ==> IsSpace(s[k]))
    && (a < b ==> !IsSpace(s[a]) && !IsSpace(s[b - 1]))
  }

  /** Number of leading whitespace characters of `s`. */
  function LeadingSpaces(s: string): (n: nat)
    ensures n <= |s|
    ensures forall k :: 0 <= k < n ==> IsSpace(s[k])
    ensures n < |s| ==> !IsSpace(s[n])
  {
    if s == [] || !IsSpace(s[0]) then 0
    else
      var n := 1 + LeadingSpaces(s[1..]);
      assert forall k :: 1 <= k < n ==> s[k] == s[1..][k - 1];
      n
  }

  /** Start of the trailing whitespace of `s`, never below `lo`. */
  function TrailingStart(s: string, lo: nat): (n: nat)
    requires lo <= |s|
    ensures lo <= n <= |s|
    ensures forall k :: n <= k < |s| ==> IsSpace(s[k])
    ensures lo < n ==> !IsSpace(s[n - 1])
    decreases |s|
  {
    if |s| == lo || !IsSpace(s[|s| - 1]) then |s|
    else
      var n := TrailingStart(s[..|s| - 1], lo);
      assert forall k :: n <= k < |s| - 1 ==> s[k] == s[..|s| - 1][k];
      n
  }

  /** Python's `s.strip()` with no argument. */
  function Strip(s: string): (r: string)
    ensures |r| <= |s|
    ensures exists a: nat, b: nat :: StrippedAt(s, a, b) && r == s[a..b]
    ensures r != [] ==> !IsSpace(r[0]) && !IsSpace(r[|r| - 1])
  {
    var a := LeadingSpaces(s);
    var b := TrailingStart(s, a);
    assert StrippedAt(s, a, b);
    s[a..b]
  }

  /** Any split of `s` into whitespace, a core and whitespace yields the same core as `Strip`. */
  lemma StripUnique(s: string, a: nat, b: nat)
    requires StrippedAt(s, a, b)
    ensures Strip(s) == s[a..b]
  {
    var a0 := LeadingSpaces(s);
    var b0 := TrailingStart(s, a0);
    if a < b {
      assert a0 == a;
      assert b0 == b;
    } else {
      // `s` is whitespace only, so both cores are empty
      assert forall k :: 0 <= k < |s| ==> IsSpace(s[k]);
      assert a0 == |s|;
    }
  }

  /** Whitespace appended to a split stays in its trailing part. */
  lemma StrippedAtAppendSpace(s: string, c: char, a: nat, b: nat)
    requires StrippedAt(s, a, b) && IsSpace(c)
    ensures StrippedAt(s + [c], a, b)
    ensures (s + [c])[a..b] == s[a..b]
  {
    var t := s + [c];
    assert forall k :: 0 <= k < |s| ==> t[k] == s[k];
  }

  /** Appending a whitespace character never changes what `strip()` returns. */
  lemma StripAppendSpace(s: string, c: char)
    requires IsSpace(c)
    ensures Strip(s + [c]) == Strip(s)
  {
    var a := LeadingSpaces(s);
    var b := TrailingStart(s, a);
    StrippedAtAppendSpace(s, c, a, b);
    StripUnique(s + [c], a, b);
  }

  /** A string whose first character is not whitespace keeps that start under `strip()`. */
  lemma StripKeepsPrefix(s: string, m: nat)
    requires 0 < m <= |s|
    requires !IsSpace(s[0]) && !IsSpace(s[m - 1])
    ensures m <= |Strip(s)|
    ensures Strip(s) == s[..|Strip(s)|]
  {
    var b := TrailingStart(s, 0);
    assert b >= m;
    assert StrippedAt(s, 0, b);
    StripUnique(s, 0, b);
  }

  // ---------------------------------------------------------------------------
  // str.endswith

  /** Python's `s.endswith(suffix)`: an exact, case-sensitive comparison of the tail. */
  predicate EndsWith(s: string, suffix: string) {
    |suffix| <= |s| && s[|s| - |suffix|..] == suffix
  }

  /** `endswith` holds exactly when `s` is some stem followed by the suffix. */
  lemma EndsWithIffConcat(s: string, suffix: string)
    ensures EndsWith(s, suffix) <==> |suffix| <= |s| && s == s[..|s| - |suffix|] + suffix
    ensures forall stem :: s == stem + suffix ==> EndsWith(s, suffix)
  {
    forall stem | s == stem + suffix ensures EndsWith(s, suffix) {
      assert s[|s| - |suffix|..] == suffix;
    }
    if |suffix| <= |s| {
      assert s == s[..|s| - |suffix|] + s[|s| - |suffix|..];
    }
  }

  // ---------------------------------------------------------------------------
  // str.replace for a single character

  /** Python's `s.replace(from, to)` where `from` and `to` are single characters. */
  function ReplaceChar(s: string, from: char, to: char): (r: string)
    ensures |r| == |s|
    ensures forall i :: 0 <= i < |s| ==> r[i] == (if s[i] == from then to else s[i])
  {
    if s == [] then []
    else [if s[0] == from then to else s[0]] + ReplaceChar(s[1..], from, to)
  }

  // ---------------------------------------------------------------------------
  // '\n'.join and str.split('\n')

  /** Python's `'\n'.join(parts)`: the parts in order, one newline between neighbours. */
  function JoinLines(parts: seq<string>): (r: string) {
    if |parts| == 0 then ""
    else if |parts| == 1 then parts[0]
    else parts[0] + "\n" + JoinLines(parts[1..])
  }

  /** Python's `s.split('\n')`: the pieces between newlines, at least one. */
  function SplitLines(s: string): (r: seq<string>)
    ensures |r| >= 1
  {
    if s == [] then [""]
    else
      var rest := SplitLines(s[1..]);
      if s[0] == '\n' then [""] + rest
      else [[s[0]] + rest[0]] + rest[1..]
  }

  /** Joining two non-empty lists is joining their joins with one newline. */
  lemma {:induction false} JoinLinesAppend(a: seq<string>, b: seq<string>)
    requires a != [] && b != []
    ensures JoinLines(a + b) == JoinLines(a) + "\n" + JoinLines(b)
    decreases |a|
  {
    if |a| == 1 {
      assert (a + b)[1..] == b;
    } else {
      JoinLinesAppend(a[1..], b);
      assert (a + b)[1..] == a[1..] + b;
    }
  }

  /** Splitting after a newline-free prefix glues the prefix onto the first piece. */
  lemma {:induction false} SplitLinesPrefix(p: string, s: string)
    requires '\n' !in p
    ensures SplitLines(p + s) == [p + SplitLines(s)[0]] + SplitLines(s)[1..]
    decreases |p|
  {
    var pieces := SplitLines(s);
    if p == [] {
      assert p + pieces[0] == pieces[0];
      assert pieces == [pieces[0]] + pieces[1..];
      assert p + s == s;
    } else {
      SplitLinesPrefix(p[1..], s);
      assert (p + s)[1..] == p[1..] + s;
      var rest := SplitLines(p[1..] + s);
      assert rest[0] == p[1..] + pieces[0];
      assert rest[1..] == pieces[1..];
      assert (p + s)[0] == p[0] != '\n';
      assert [p[0]] + (p[1..] + pieces[0]) == p + pieces[0];
    }
  }

  /** Splitting a joined list of newline-free parts gives the parts back. */
  lemma {:induction false} SplitJoinLines(parts: seq<string>)
    requires parts != []
    requires forall i :: 0 <= i < |parts| ==> '\n' !in parts[i]
    ensures SplitLines(JoinLines(parts)) == parts
    decreases |parts|
  {
    if |parts| == 1 {
      SplitLinesPrefix(parts[0], "");
      assert parts[0] + "" == parts[0];
    } else {
      var tail := JoinLines(parts[1..]);
      SplitJoinLines(parts[1..]);
      SplitLinesPrefix(parts[0], "\n" + tail);
      assert ("\n" + tail)[1..] == tail;
      assert SplitLines("\n" + tail) == [""] + parts[1..];
      assert parts[0] + "\n" + tail == parts[0] + ("\n" + tail);
      assert parts[0] + "" == parts[0];
      assert [parts[0]] + parts[1..] == parts;
    }
  }

  /** Putting a character in front of the first part puts it in front of the join. */
  lemma JoinLinesPrepend(c: char, parts: seq<string>)
    requires parts != []
    ensures JoinLines([[c] + parts[0]] + parts[1..]) == [c] + JoinLines(parts)
  {
    var glued := [[c] + parts[0]] + parts[1..];
    if |parts| == 1 {
      assert glued == [[c] + parts[0]];
    } else {
      var tail := JoinLines(parts[1..]);
      assert glued[1..] == parts[1..];
      calc {
        JoinLines(glued);
        ([c] + parts[0]) + "\n" + tail;
        [c] + (parts[0] + "\n" + tail);
      }
    }
  }

  /** Joining the pieces of a split gives back the original string. */
  lemma {:induction false} JoinSplitLines(s: string)
    ensures JoinLines(SplitLines(s)) == s
    decreases |s|
  {
    if s != [] {
      var rest := SplitLines(s[1..]);
      JoinSplitLines(s[1..]);
      if s[0] == '\n' {
        assert ([""] + rest)[1..] == rest;
        assert JoinLines([""] + rest) == "" + "\n" + JoinLines(rest);
      } else {
        JoinLinesPrepend(s[0], rest);
      }
      assert s == [s[0]] + s[1..];
    }
  }
}
