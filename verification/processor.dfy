/**
  `HealthDocProcessor`: the fixed keyword table, `extract_text` (extension check and page
  join) and `find_sections` (one keyword-driven regular-expression search per section).
  The PDF reader is replaced by the sequence of page texts it would produce, and the
  generative model by a function value passed in by the caller.
 */
module HealthDocProcessor {
  import opened Wrappers
  import opened PyStr
  import opened Pattern

  // ---------------------------------------------------------------------------
  // The keyword table

  /** One entry of `key_sections`: a section name and its trigger keywords, in list order. */
  datatype SectionRule = SectionRule(name: string, keywords: seq<string>)

  /** `self.key_sections`, in the order the dictionary literal lists it. */
  const KeySections: seq<SectionRule> := [
    SectionRule("patient_details", ["patient details", "name", "age", "gender"]),
    SectionRule("medical_conditions", ["medical conditions", "diagnosis", "symptoms"]),
    SectionRule("treatment_plan", ["treatment plan", "therapy", "procedures"]),
    SectionRule("medications", ["medications", "prescription", "drugs"]),
    SectionRule("risks", ["risks", "complications", "side effects"])
  ]

  predicate IsLowerLetter(c: char) {
    'a' <= c <= 'z'
  }

  /** A keyword as the table writes them: lower-case words separated by single spaces. */
  predicate WellFormedKeyword(kw: string) {
    && |kw| > 0
    && IsLowerLetter(kw[0])
    && IsLowerLetter(kw[|kw| - 1])
    && (forall j :: 0 <= j < |kw| ==> IsLowerLetter(kw[j]) || kw[j] == ' ')
    && (forall j :: 0 < j < |kw| && kw[j] == ' ' ==> kw[j - 1] != ' ')
  }

  /**
    Case-insensitive matching of a keyword of lower-case letters and spaces: each text
    character is the keyword's character itself or, for a letter, its upper-case form.
   */
  lemma KeywordAtCaseless(text: string, i: nat, kw: string)
    requires forall j :: 0 <= j < |kw| ==> IsLowerLetter(kw[j]) || kw[j] == ' '
    ensures KeywordAt(text, i, kw) <==>
      i + |kw| <= |text| &&
      forall j :: 0 <= j < |kw| ==>
        text[i + j] == kw[j] || (IsLowerLetter(kw[j]) && text[i + j] as int == kw[j] as int - 32)
  {
    if i + |kw| <= |text| {
      forall j | 0 <= j < |kw| {
        LowerEqualIff(text[i + j], kw[j]);
      }
    }
  }

  /** No two entries of the table share a name. */
  predicate DistinctNames(table: seq<SectionRule>) {
    forall i, j :: 0 <= i < j < |table| ==> table[i].name != table[j].name
  }

  predicate WellFormedTable(table: seq<SectionRule>) {
    && DistinctNames(table)
    && forall i, k :: 0 <= i < |table| && 0 <= k < |table[i].keywords| ==> WellFormedKeyword(table[i].keywords[k])
  }

  /** The fixed table has five distinctly named sections whose keywords are well formed. */
  lemma KeySectionsWellFormed()
    ensures |KeySections| == 5
    ensures WellFormedTable(KeySections)
  {
    forall i, k | 0 <= i < |KeySections| && 0 <= k < |KeySections[i].keywords|
      ensures WellFormedKeyword(KeySections[i].keywords[k])
    {
      RuleKeywordWellFormed(KeySections[i], k);
    }
  }

  /** Each keyword of each entry of the fixed table is well formed. */
  lemma RuleKeywordWellFormed(rule: SectionRule, k: nat)
    requires rule in KeySections && k < |rule.keywords|
    ensures WellFormedKeyword(rule.keywords[k])
  {
    var kw := rule.keywords[k];
    forall j | 0 <= j < |kw| ensures IsLowerLetter(kw[j]) || kw[j] == ' ' {
    }
    RuleKeywordSingleSpaces(rule, k);
  }

  /** No keyword of the fixed table holds two spaces in a row. */
  lemma RuleKeywordSingleSpaces(rule: SectionRule, k: nat)
    requires rule in KeySections && k < |rule.keywords|
    ensures forall j :: 0 < j < |rule.keywords[k]| && rule.keywords[k][j] == ' ' ==> rule.keywords[k][j - 1] != ' '
  {
    var kw := rule.keywords[k];
    forall j | 0 < j < |kw| && kw[j] == ' ' ensures kw[j - 1] != ' ' {
    }
  }

  // ---------------------------------------------------------------------------
  // extract_text

  const PdfSuffix := ".pdf"
  const UnsupportedFormatMessage := "Unsupported file format. Please upload a PDF file."

  /** The exceptions that end a request: the `ValueError` of `extract_text`, or a failed model call. */
  datatype Error = UnsupportedFormat(message: string) | ModelCallFailed(message: string)

  /**
    `extract_text`: a file whose name ends with exactly `.pdf` yields its page texts joined
    by newlines; any other name raises `ValueError` and yields no text.
   */
  function ExtractText(fileName: string, pages: seq<string>): (r: Result<string, Error>)
    ensures r.Success? <==> EndsWith(fileName, PdfSuffix)
    ensures r.Failure? ==> r.error == UnsupportedFormat(UnsupportedFormatMessage)
    ensures r.Success? ==> r.value == JoinLines(pages)
  {
    if EndsWith(fileName, PdfSuffix) then Success(JoinLines(pages))
    else Failure(UnsupportedFormat(UnsupportedFormatMessage))
  }

  /**
    The join loses nothing: when no page text holds a newline, splitting the extracted text
    at newlines gives the pages back, in order.
   */
  lemma ExtractedTextSplitsIntoPages(fileName: string, pages: seq<string>)
    requires EndsWith(fileName, PdfSuffix)
    requires pages != [] && forall i :: 0 <= i < |pages| ==> '\n' !in pages[i]
    ensures SplitLines(ExtractText(fileName, pages).value) == pages
  {
    SplitJoinLines(pages);
  }

  /** The suffix test is case-sensitive, and `.docx` is refused although the upload offers it. */
  lemma ExtensionCheckExamples(pages: seq<string>)
    ensures ExtractText("report.pdf", pages).Success?
    ensures ExtractText("report.PDF", pages).Failure?
    ensures ExtractText("report.docx", pages) == Failure(UnsupportedFormat(UnsupportedFormatMessage))
    ensures ExtractText("report.pdf.txt", pages).Failure?
  {
    assert "report.pdf"[6..] == PdfSuffix;
    assert "report.PDF"[6..][1] != PdfSuffix[1];
    assert "report.docx"[7..][1] != PdfSuffix[1];
    assert "report.pdf.txt"[10..][1] != PdfSuffix[1];
  }

  // ---------------------------------------------------------------------------
  // find_sections

  /**
    The value `find_sections` stores for one section: the first match of the section's
    pattern, stripped. It exists exactly when some keyword occurs in the text.
   */
  function Section(text: string, keywords: seq<string>): (r: Option<string>)
    ensures r.Some? <==> Occurs(text, keywords)
  {
    match Search(text, keywords)
    case None => None
    case Some(m) => Some(Strip(text[m.start..m.end]))
  }

  /** A character that folds onto a lower-case letter is not whitespace. */
  lemma FoldsToLetterIsNotSpace(c: char, l: char)
    requires IsLowerLetter(l) && Lower(c) == l
    ensures !IsSpace(c)
  {
  }

  /**
    The stored value is a piece of the text that starts where the match starts, begins with
    the matched keyword (up to case) and has no whitespace at either end.
   */
  lemma SectionValueShape(text: string, keywords: seq<string>)
    requires forall k :: 0 <= k < |keywords| ==> WellFormedKeyword(keywords[k])
    ensures Section(text, keywords).Some? ==>
      var m := Search(text, keywords).value;
      var v := Section(text, keywords).value;
      && WellFormedKeyword(keywords[m.alt])
      && |keywords[m.alt]| <= |v|
      && m.start + |v| <= m.end
      && v == text[m.start..m.start + |v|]
      && KeywordAt(v, 0, keywords[m.alt])
      && !IsSpace(v[0]) && !IsSpace(v[|v| - 1])
  {
    if Section(text, keywords).Some? {
      var m := Search(text, keywords).value;
      var kw := keywords[m.alt];
      var span := text[m.start..m.end];
      assert KeywordAt(text, m.start, kw);
      FoldsToLetterIsNotSpace(span[0], kw[0]);
      FoldsToLetterIsNotSpace(span[|kw| - 1], kw[|kw| - 1]);
      StripKeepsPrefix(span, |kw|);
      var v := Strip(span);
      assert v == span[..|v|];
      assert span[..|v|] == text[m.start..m.start + |v|];
      assert forall j :: 0 <= j < |kw| ==> v[j] == text[m.start + j];
    }
  }

  /** A well-formed keyword holds no newline. */
  lemma WellFormedKeywordHasNoNewline(kw: string)
    requires WellFormedKeyword(kw)
    ensures '\n' !in kw
  {
    assert forall j :: 0 <= j < |kw| ==> kw[j] != '\n';
  }

  /**
    The stored value never contains a blank-line separator: sections end at the first blank
    line after their keyword.
   */
  lemma SectionValueHasNoBlankLine(text: string, keywords: seq<string>)
    requires forall k :: 0 <= k < |keywords| ==> WellFormedKeyword(keywords[k])
    ensures Section(text, keywords).Some? ==>
      var v := Section(text, keywords).value;
      forall p :: 0 <= p < |v| ==> !BlankLineAt(v, p)
  {
    if Section(text, keywords).Some? {
      var m := Search(text, keywords).value;
      var span := text[m.start..m.end];
      SectionValueShape(text, keywords);
      var v := Strip(span);
      assert v == span[0..|v|];
      forall k | 0 <= k < |keywords| ensures '\n' !in keywords[k] {
        WellFormedKeywordHasNoNewline(keywords[k]);
      }
      NoBlankLineInMatch(text, keywords);
      forall p | 0 <= p < |v| ensures !BlankLineAt(v, p) {
        BlankLineInSlice(span, 0, |v|, p);
      }
    }
  }

  /** A keyword whose first letter differs (up to case) from the text does not occur there. */
  lemma FirstLetterMismatch(text: string, i: nat, kw: string)
    requires i < |text| && |kw| > 0 && Lower(text[i]) != Lower(kw[0])
    ensures !KeywordAt(text, i, kw)
  {
  }

  /**
    Matching is plain substring matching without word boundaries: in `dosage` the
    patient-details pattern matches the `age` at index 3, so that section is found
    and stores `age`.
   */
  lemma {:induction false} NoWordBoundaries(text: string, keywords: seq<string>)
    requires text == "dosage" && keywords == KeySections[0].keywords
    ensures Search(text, keywords) == Some(Match(3, 2, 6))
    ensures Section(text, keywords) == Some("age")
  {
    assert keywords == ["patient details", "name", "age", "gender"];
    assert KeywordAt(text, 3, keywords[2]);
    forall i: nat, k | i < 4 && 0 <= k < |keywords| && !(i == 3 && k >= 2)
      ensures !KeywordAt(text, i, keywords[k])
    {
      FirstLetterMismatch(text, i, keywords[k]);
    }
    SearchUnique(text, keywords, Match(3, 2, 6));
    assert text[3..6] == "age";
    StripUnique("age", 0, 3);
    assert "age"[0..3] == "age";
  }

  /**
    A section ends at the first blank line after its keyword, and the keyword is matched
    whatever its case: in `Age: 45`, a line holding one space, then `Drugs`, the
    patient-details section is `Age: 45`.
   */
  lemma {:induction false} BlankLineEndsSection(text: string, keywords: seq<string>)
    requires text == "Age: 45\n \nDrugs" && keywords == KeySections[0].keywords
    ensures Search(text, keywords) == Some(Match(0, 2, 7))
    ensures Section(text, keywords) == Some("Age: 45")
  {
    assert keywords == ["patient details", "name", "age", "gender"];
    assert KeywordAt(text, 0, keywords[2]);
    forall k | 0 <= k < 2 ensures !KeywordAt(text, 0, keywords[k]) {
      FirstLetterMismatch(text, 0, keywords[k]);
    }
    assert BlankLineAt(text, 7) by {
      assert text[7] == '\n' && text[8] == ' ' && text[9] == '\n';
    }
    forall q | 3 <= q < 7 ensures !StopAt(text, q) {
      assert text[q] != '\n';
    }
    SearchUnique(text, keywords, Match(0, 2, 7));
    assert text[0..7] == "Age: 45";
    StripUnique("Age: 45", 0, 7);
    assert "Age: 45"[0..7] == "Age: 45";
  }

  /**
    Sections are searched independently in the same unmodified text, so their values may
    overlap: in `age drugs` the patient-details match starts at `age` and runs to the end of
    the text, so it contains the medications value `drugs` (below).
   */
  lemma {:induction false} PatientDetailsOfAgeDrugs(text: string, keywords: seq<string>)
    requires text == "age drugs" && keywords == KeySections[0].keywords
    ensures Search(text, keywords) == Some(Match(0, 2, 9))
    ensures Section(text, keywords) == Some("age drugs")
  {
    assert keywords == ["patient details", "name", "age", "gender"];
    forall q | 3 <= q < 9 ensures !StopAt(text, q) {
      assert text[q] != '\n';
    }
    assert KeywordAt(text, 0, keywords[2]);
    forall k | 0 <= k < 2 ensures !KeywordAt(text, 0, keywords[k]) {
      FirstLetterMismatch(text, 0, keywords[k]);
    }
    SearchUnique(text, keywords, Match(0, 2, 9));
    assert text[0..9] == text;
    StripUnique(text, 0, 9);
  }

  /** In `age drugs` the medications match is `drugs`, at index 4. */
  lemma {:induction false} MedicationsOfAgeDrugs(text: string, keywords: seq<string>)
    requires text == "age drugs" && keywords == KeySections[3].keywords
    ensures Search(text, keywords) == Some(Match(4, 2, 9))
    ensures Section(text, keywords) == Some("drugs")
  {
    assert keywords == ["medications", "prescription", "drugs"];
    assert KeywordAt(text, 4, keywords[2]);
    forall i: nat, k | i < 5 && 0 <= k < |keywords| && !(i == 4 && k >= 2)
      ensures !KeywordAt(text, i, keywords[k])
    {
      FirstLetterMismatch(text, i, keywords[k]);
    }
    SearchUnique(text, keywords, Match(4, 2, 9));
    assert text[4..9] == "drugs";
    StripUnique("drugs", 0, 5);
    assert "drugs"[0..5] == "drugs";
  }

  /**
    The map `find_sections` builds from the entries of `table`, in table order: an entry
    whose section is found stores its value under its name.
   */
  function Sections(table: seq<SectionRule>, text: string): (r: map<string, string>)
    decreases |table|
  {
    if table == [] then map[]
    else
      var rule := table[|table| - 1];
      var found := Sections(table[..|table| - 1], text);
      match Section(text, rule.keywords)
      case None => found
      case Some(v) => found[rule.name := v]
  }

  /** A name is a key of the result exactly when it names an entry one of whose keywords occurs. */
  lemma {:induction false} SectionsKeys(table: seq<SectionRule>, text: string)
    ensures forall name :: name in Sections(table, text) <==>
      exists k :: 0 <= k < |table| && table[k].name == name && Occurs(text, table[k].keywords)
    decreases |table|
  {
    if table != [] {
      var init := table[..|table| - 1];
      SectionsKeys(init, text);
      assert forall k :: 0 <= k < |init| ==> init[k] == table[k];
    }
  }

  /**
    With distinct names, each found section's value is computed from the text and that
    section's own keywords only: entries never overwrite each other.
   */
  lemma {:induction false} SectionsValues(table: seq<SectionRule>, text: string)
    requires DistinctNames(table)
    ensures forall k :: 0 <= k < |table| && Occurs(text, table[k].keywords) ==>
      table[k].name in Sections(table, text) &&
      Some(Sections(table, text)[table[k].name]) == Section(text, table[k].keywords)
    decreases |table|
  {
    if table != [] {
      var n := |table| - 1;
      var init := table[..n];
      assert forall k :: 0 <= k < n ==> init[k] == table[k];
      assert DistinctNames(init);
      SectionsValues(init, text);
      var found := Sections(init, text);
      var last := table[n];
      forall k | 0 <= k < |table| && Occurs(text, table[k].keywords)
        ensures table[k].name in Sections(table, text)
        ensures Some(Sections(table, text)[table[k].name]) == Section(text, table[k].keywords)
      {
        if k < n {
          assert table[k].name != last.name;
          assert table[k].name in found && Some(found[table[k].name]) == Section(text, table[k].keywords);
        }
      }
    }
  }

  /** A text in which no keyword of any section occurs yields an empty map, not an error. */
  lemma NoKeywordsNoSections(text: string)
    requires forall k :: 0 <= k < |KeySections| ==> !Occurs(text, KeySections[k].keywords)
    ensures Sections(KeySections, text) == map[]
  {
    SectionsKeys(KeySections, text);
  }

  /**
    `find_sections`: for each table entry in turn, search its pattern in the unmodified text
    and, on a match, store the stripped match under the entry's name. The processor always
    passes its own table, `KeySections`; any table with distinct names behaves the same way.
   */
  method FindSections(table: seq<SectionRule>, text: string) returns (results: map<string, string>)
    requires DistinctNames(table)
    ensures results == Sections(table, text)
    ensures forall name :: name in results <==>
      exists k :: 0 <= k < |table| && table[k].name == name && Occurs(text, table[k].keywords)
    ensures forall k :: 0 <= k < |table| && table[k].name in results ==>
      Some(results[table[k].name]) == Section(text, table[k].keywords)
  {
    results := map[];
    var i := 0;
    while i < |table|
      invariant i <= |table|
      invariant results == Sections(table[..i], text)
    {
      var rule := table[i];
      var found := Search(text, rule.keywords);
      if found.Some? {
        results := results[rule.name := Strip(text[found.value.start..found.value.end])];
      }
      assert table[..i + 1][..i] == table[..i];
      i := i + 1;
    }
    assert table[..i] == table;
    SectionsKeys(table, text);
    SectionsValues(table, text);
  }

  // ---------------------------------------------------------------------------
  // analyze_with_gemini

  /** `model.generate_content(input).text`, or the message of the exception the call raises. */
  type Model = string -> Result<string, string>

  /** `analyze_with_gemini`: the model always receives the prompt followed by the text. */
  function AnalyzeWithGemini(model: Model, text: string, prompt: string): (r: Result<string, string>) {
    model(prompt + text)
  }
}
