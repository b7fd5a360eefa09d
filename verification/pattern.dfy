/**
  The regular expression that `find_sections` builds for one section,
      (?i)(kw1|kw2|...).*?(?=\n\s*\n|$)
  searched with `re.search` and the DOTALL flag, written out as an explicit scanner.

  `re.search` tries the start positions from left to right and, at each one, the
  alternatives in list order. Once a keyword has matched, the lazy `.*?` grows one
  character at a time until the lookahead succeeds. Because `$` always succeeds at the
  end of the text, the continuation never fails, so the engine never backtracks into the
  alternation: the match is the leftmost keyword occurrence (the first alternative in list
  order at that position) extended to the first stop position at or after its end.
 */
module Pattern {
  import opened Wrappers
  import opened PyStr

  /** Keyword `kw` occurs at position `i` of `text`, letters compared without regard to case. */
  predicate KeywordAt(text: string, i: nat, kw: string) {
    i + |kw| <= |text| && forall j :: 0 <= j < |kw| ==> Lower(text[i + j]) == Lower(kw[j])
  }

  /** Some keyword of the alternation occurs somewhere in `text`. */
  ghost predicate Occurs(text: string, keywords: seq<string>) {
    exists i: nat, k :: 0 <= k < |keywords| && KeywordAt(text, i, keywords[k])
  }

  /**
    The regex engine starts its match at `start` with alternative `alt`: no keyword occurs
    further left, and no earlier alternative occurs at `start`.
   */
  ghost predicate MatchStart(text: string, keywords: seq<string>, start: nat, alt: nat) {
    && alt < |keywords|
    && KeywordAt(text, start, keywords[alt])
    && (forall k :: 0 <= k < alt ==> !KeywordAt(text, start, keywords[k]))
    && (forall i: nat, k :: i < start && 0 <= k < |keywords| ==> !KeywordAt(text, i, keywords[k]))
  }

  /** The lookahead `\n\s*\n` succeeds at `q`: a newline, whitespace, then another newline. */
  predicate BlankLineAt(text: string, q: nat) {
    && q < |text|
    && text[q] == '\n'
    && exists q2 :: q < q2 < |text| && text[q2] == '\n' && forall m :: q < m < q2 ==> IsSpace(text[m])
  }

  /**
    The lookahead `(?=\n\s*\n|$)` succeeds at `q`. Without MULTILINE, Python's `$` matches at
    the end of the text and also just before a newline that ends the text.
   */
  predicate StopAt(text: string, q: nat) {
    || q == |text|
    || (q + 1 == |text| && text[q] == '\n')
    || BlankLineAt(text, q)
  }

  /** `end` is where the lazy `.*?` stops when it starts growing at `from`. */
  ghost predicate LazyEndAt(text: string, from: nat, end: nat) {
    && from <= end <= |text|
    && StopAt(text, end)
    && (forall q :: from <= q < end ==> !StopAt(text, q))
  }

  /** A successful `re.search`: where the match starts, which alternative matched, where it ends. */
  datatype Match = Match(start: nat, alt: nat, end: nat)

  /** The first alternative, from index `k0` on, that occurs at position `i`. */
  function FirstAlternative(text: string, i: nat, keywords: seq<string>, k0: nat): (r: Option<nat>)
    requires k0 <= |keywords|
    ensures r.None? ==> forall k :: k0 <= k < |keywords| ==> !KeywordAt(text, i, keywords[k])
    ensures r.Some? ==> k0 <= r.value < |keywords| && KeywordAt(text, i, keywords[r.value])
    ensures r.Some? ==> forall k :: k0 <= k < r.value ==> !KeywordAt(text, i, keywords[k])
    decreases |keywords| - k0
  {
    if k0 == |keywords| then None
    else if KeywordAt(text, i, keywords[k0]) then Some(k0)
    else FirstAlternative(text, i, keywords, k0 + 1)
  }

  /** The leftmost position at or after `from` where an alternative occurs, and which one. */
  function LeftmostStart(text: string, keywords: seq<string>, from: nat): (r: Option<(nat, nat)>)
    ensures r.None? ==> forall i: nat, k :: from <= i && 0 <= k < |keywords| ==> !KeywordAt(text, i, keywords[k])
    ensures r.Some? ==> from <= r.value.0 <= |text| && r.value.1 < |keywords|
    ensures r.Some? ==> KeywordAt(text, r.value.0, keywords[r.value.1])
    ensures r.Some? ==> forall k :: 0 <= k < r.value.1 ==> !KeywordAt(text, r.value.0, keywords[k])
    ensures r.Some? ==>
      forall i: nat, k :: from <= i < r.value.0 && 0 <= k < |keywords| ==> !KeywordAt(text, i, keywords[k])
    decreases |text| + 1 - from
  {
    if from > |text| then None
    else match FirstAlternative(text, from, keywords, 0)
      case Some(k) => Some((from, k))
      case None => LeftmostStart(text, keywords, from + 1)
  }

  /** Where the lazy `.*?` followed by `(?=\n\s*\n|$)` stops when it starts at `from`. */
  function LazyEnd(text: string, from: nat): (end: nat)
    requires from <= |text|
    ensures LazyEndAt(text, from, end)
    decreases |text| - from
  {
    if StopAt(text, from) then from else LazyEnd(text, from + 1)
  }

  /** `re.search(pattern, text, re.DOTALL)` for the pattern built from `keywords`. */
  function Search(text: string, keywords: seq<string>): (r: Option<Match>)
    ensures r.None? <==> !Occurs(text, keywords)
    ensures r.Some? ==> MatchStart(text, keywords, r.value.start, r.value.alt)
    ensures r.Some? ==> LazyEndAt(text, r.value.start + |keywords[r.value.alt]|, r.value.end)
  {
    match LeftmostStart(text, keywords, 0)
    case None => None
    case Some((start, alt)) => Some(Match(start, alt, LazyEnd(text, start + |keywords[alt]|)))
  }

  /** The two clauses of `Search`'s contract pin the match down: no other match satisfies them. */
  lemma SearchUnique(text: string, keywords: seq<string>, m: Match)
    requires MatchStart(text, keywords, m.start, m.alt)
    requires LazyEndAt(text, m.start + |keywords[m.alt]|, m.end)
    ensures Search(text, keywords) == Some(m)
  {
    var r := Search(text, keywords).value;
    assert r.start == m.start;
    assert r.alt == m.alt;
  }

  // ---------------------------------------------------------------------------
  // What the matched span looks like

  /** A blank-line separator inside a slice is one inside the whole text. */
  lemma BlankLineInSlice(text: string, lo: nat, hi: nat, p: nat)
    requires lo <= hi <= |text|
    ensures BlankLineAt(text[lo..hi], p) ==> BlankLineAt(text, lo + p)
  {
    var span := text[lo..hi];
    if BlankLineAt(span, p) {
      var q2 :| p < q2 < |span| && span[q2] == '\n' && forall m :: p < m < q2 ==> IsSpace(span[m]);
      assert text[lo + q2] == '\n';
      assert forall m :: lo + p < m < lo + q2 ==> text[m] == span[m - lo];
    }
  }

  /** No character of a keyword free of newlines folds onto a newline of the text. */
  lemma KeywordHasNoNewline(text: string, i: nat, kw: string, j: nat)
    requires KeywordAt(text, i, kw) && '\n' !in kw && j < |kw|
    ensures text[i + j] != '\n'
  {
    assert Lower(kw[j]) != '\n';
  }

  /**
    The matched span never contains a blank-line separator: the lazy end stops at the
    first one after the keyword, and the keyword itself holds no newline.
   */
  lemma {:induction false} NoBlankLineInMatch(text: string, keywords: seq<string>)
    requires forall k :: 0 <= k < |keywords| ==> '\n' !in keywords[k]
    ensures Search(text, keywords).Some? ==>
      var m := Search(text, keywords).value;
      forall p :: 0 <= p < m.end - m.start ==> !BlankLineAt(text[m.start..m.end], p)
  {
    if Search(text, keywords).Some? {
      var m := Search(text, keywords).value;
      var kwEnd := m.start + |keywords[m.alt]|;
      forall p | 0 <= p < m.end - m.start
        ensures !BlankLineAt(text[m.start..m.end], p)
      {
        BlankLineInSlice(text, m.start, m.end, p);
        if m.start + p < kwEnd {
          KeywordHasNoNewline(text, m.start, keywords[m.alt], p);
          assert text[m.start..m.end][p] != '\n';
        } else {
          assert !StopAt(text, m.start + p);
        }
      }
    }
  }

  // ---------------------------------------------------------------------------
  // `$` before a final newline makes no difference once the span is stripped

  /** The lookahead with `$` read as "end of text" only. */
  predicate StopAtTextEnd(text: string, q: nat) {
    q == |text| || BlankLineAt(text, q)
  }

  /** The lazy end under that simpler reading of `$`. */
  function LazyEndAtTextEnd(text: string, from: nat): (end: nat)
    requires from <= |text|
    ensures from <= end <= |text| && StopAtTextEnd(text, end)
    ensures forall q :: from <= q < end ==> !StopAtTextEnd(text, q)
    decreases |text| - from
  {
    if StopAtTextEnd(text, from) then from else LazyEndAtTextEnd(text, from + 1)
  }

  /**
    Reading `$` as "end of text" can only move the lazy end past a final newline, which
    `strip()` removes again: the stored value is the same either way.
   */
  lemma DollarIsEndOfTextAfterStrip(text: string, start: nat, from: nat)
    requires start <= from <= |text|
    ensures Strip(text[start..LazyEnd(text, from)]) == Strip(text[start..LazyEndAtTextEnd(text, from)])
  {
    var e1 := LazyEnd(text, from);
    var e2 := LazyEndAtTextEnd(text, from);
    forall q | from <= q < e1 ensures !StopAtTextEnd(text, q) {
      assert !StopAt(text, q);
    }
    if StopAtTextEnd(text, e1) {
      assert e2 == e1 by {
        assert e2 < e1 ==> StopAtTextEnd(text, e2);
        assert e1 < e2 ==> StopAtTextEnd(text, e1);
      }
    } else {
      assert e1 + 1 == |text| && text[e1] == '\n';
      assert e2 == |text|;
      assert text[start..e2] == text[start..e1] + ['\n'];
      StripAppendSpace(text[start..e1], '\n');
    }
  }
}
