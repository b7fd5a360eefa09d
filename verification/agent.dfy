/**
  `HealthAIAgent`: the five prompt builders and `analyze_document`, which extracts the
  text, finds the sections, asks the model for document metadata and risks, and then for
  a summary, details and actions of every section found. Any failed model call ends the
  whole request; nothing gathered before it is returned.
 */
module HealthAIAgent {
  import opened Wrappers
  import opened PyStr
  import opened HealthDocProcessor

  // ---------------------------------------------------------------------------
  // Prompts

  const SummaryHead := "Summarize this "
  const SummaryTail := " section in 3 bullet points:\n"
  const DetailsPrompt := "Extract key details from this section:\n"
  const ActionsPrompt := "Suggest actions or next steps based on this section:\n"
  const MetadataPrompt :=
    "Extract metadata from this healthcare document:\n"
    + "        - Patient name\n"
    + "        - Date of birth\n"
    + "        - Medical record number\n"
    + "        - Document type (e.g., prescription, medical report)\n"
    + "        Format as JSON:"
  const RisksPrompt :=
    "Identify potential risks or issues in this healthcare document:\n"
    + "        - Medication side effects\n"
    + "        - Treatment complications\n"
    + "        - Missing information\n"
    + "        Format as bullet points:"

  /** Neither fixed part of the summary prompt holds an underscore. */
  lemma NoUnderscoreInSummaryFrame()
    ensures '_' !in SummaryHead && '_' !in SummaryTail
  {
  }

  /**
    The prompt of `_summarize_section`: it names the section with every underscore of the
    section name replaced by a space, so no underscore reaches the model.
   */
  function SummaryPrompt(sectionName: string): (r: string)
    ensures |r| == |SummaryHead| + |sectionName| + |SummaryTail|
    ensures r[..|SummaryHead|] == SummaryHead
    ensures r[|SummaryHead| + |sectionName|..] == SummaryTail
    ensures forall i :: 0 <= i < |sectionName| ==>
      r[|SummaryHead| + i] == (if sectionName[i] == '_' then ' ' else sectionName[i])
    ensures '_' !in r
  {
    var spaced := ReplaceChar(sectionName, '_', ' ');
    NoUnderscoreInSummaryFrame();
    assert '_' !in spaced by {
      assert forall i :: 0 <= i < |spaced| ==> spaced[i] != '_';
    }
    SummaryHead + spaced + SummaryTail
  }

  /** The summary prompt spells the section name out in words. */
  lemma SummaryPromptSpellsName(name: string, words: string)
    requires |name| == |words|
    requires forall i :: 0 <= i < |name| ==> words[i] == (if name[i] == '_' then ' ' else name[i])
    ensures SummaryPrompt(name) == SummaryHead + words + SummaryTail
  {
    assert ReplaceChar(name, '_', ' ') == words;
  }

  /** For instance, the treatment-plan section is summarised as "treatment plan". */
  lemma TreatmentPlanSummaryPrompt(name: string, words: string)
    requires name == "treatment_plan" && words == "treatment plan"
    ensures SummaryPrompt(name) == SummaryHead + words + SummaryTail
  {
    SummaryPromptSpellsName(name, words);
  }

  function SummarizeSection(model: Model, text: string, sectionName: string): (r: Result<string, string>) {
    AnalyzeWithGemini(model, text, SummaryPrompt(sectionName))
  }

  function ExtractDetails(model: Model, text: string): (r: Result<string, string>) {
    AnalyzeWithGemini(model, text, DetailsPrompt)
  }

  function SuggestActions(model: Model, text: string): (r: Result<string, string>) {
    AnalyzeWithGemini(model, text, ActionsPrompt)
  }

  function GetMetadata(model: Model, text: string): (r: Result<string, string>) {
    AnalyzeWithGemini(model, text, MetadataPrompt)
  }

  function IdentifyRisks(model: Model, text: string): (r: Result<string, string>) {
    AnalyzeWithGemini(model, text, RisksPrompt)
  }

  // ---------------------------------------------------------------------------
  // The sequence of model calls

  /** The model inputs for one section, in the order the entry's dictionary is built. */
  function SectionInputs(name: string, content: string): (r: seq<string>) {
    [SummaryPrompt(name) + content, DetailsPrompt + content, ActionsPrompt + content]
  }

  /** The model inputs for the found sections among the first `n` table entries, in table order. */
  function SectionsInputs(table: seq<SectionRule>, sections: map<string, string>, n: nat): (r: seq<string>)
    requires n <= |table|
  {
    if n == 0 then []
    else
      var name := table[n - 1].name;
      SectionsInputs(table, sections, n - 1)
      + (if name in sections then SectionInputs(name, sections[name]) else [])
  }

  /** Every model input `analyze_document` would send for `text`, in the order it sends them. */
  function CallInputs(text: string): (r: seq<string>) {
    [MetadataPrompt + text, RisksPrompt + text]
    + SectionsInputs(KeySections, Sections(KeySections, text), |KeySections|)
  }

  /** The error of the first model call in `inputs` that fails, if any. */
  function FirstFailure(model: Model, inputs: seq<string>): (r: Option<string>) {
    if inputs == [] then None
    else if model(inputs[0]).Failure? then Some(model(inputs[0]).error)
    else FirstFailure(model, inputs[1..])
  }

  /** There is no first failure exactly when every call succeeds. */
  lemma {:induction false} FirstFailureNone(model: Model, inputs: seq<string>)
    ensures FirstFailure(model, inputs).None? <==> forall i :: 0 <= i < |inputs| ==> model(inputs[i]).Success?
    decreases |inputs|
  {
    if inputs != [] {
      FirstFailureNone(model, inputs[1..]);
      assert forall i :: 1 <= i < |inputs| ==> inputs[i] == inputs[1..][i - 1];
    }
  }

  /** The first failure of a concatenation is the first one of the left part, else of the right. */
  lemma {:induction false} FirstFailureAppend(model: Model, a: seq<string>, b: seq<string>)
    ensures FirstFailure(model, a + b) ==
      if FirstFailure(model, a).Some? then FirstFailure(model, a) else FirstFailure(model, b)
    decreases |a|
  {
    if a == [] {
      assert a + b == b;
    } else {
      FirstFailureAppend(model, a[1..], b);
      assert (a + b)[1..] == a[1..] + b;
    }
  }

  /** The inputs for fewer entries are a prefix of those for more. */
  lemma {:induction false} SectionsInputsPrefix(table: seq<SectionRule>, sections: map<string, string>, n: nat, m: nat)
    requires n <= m <= |table|
    ensures var small := SectionsInputs(table, sections, n);
      var large := SectionsInputs(table, sections, m);
      |small| <= |large| && large == small + large[|small|..]
    decreases m - n
  {
    if n < m {
      SectionsInputsPrefix(table, sections, n, m - 1);
      var small := SectionsInputs(table, sections, n);
      var mid := SectionsInputs(table, sections, m - 1);
      var large := SectionsInputs(table, sections, m);
      assert large[..|mid|] == mid;
      assert large == small + large[|small|..] by {
        assert large[..|small|] == mid[..|small|] == small;
      }
    } else {
      var small := SectionsInputs(table, sections, n);
      assert small == small + small[|small|..];
    }
  }

  /** With no section found, the loop over the table makes no call. */
  lemma {:induction false} NoSectionsNoInputs(table: seq<SectionRule>, n: nat)
    requires n <= |table|
    ensures SectionsInputs(table, map[], n) == []
  {
    if n > 0 {
      NoSectionsNoInputs(table, n - 1);
    }
  }

  /** When no section is found, only the two document-wide calls are made. */
  lemma OnlyDocumentCallsWithoutSections(text: string)
    ensures Sections(KeySections, text) == map[] ==>
      CallInputs(text) == [MetadataPrompt + text, RisksPrompt + text]
  {
    NoSectionsNoInputs(KeySections, |KeySections|);
  }

  /** Adding one table entry adds the first failure of its section's calls, if it was found. */
  lemma FirstFailureStep(model: Model, table: seq<SectionRule>, sections: map<string, string>, i: nat)
    requires i < |table|
    requires FirstFailure(model, SectionsInputs(table, sections, i)).None?
    ensures var name := table[i].name;
      FirstFailure(model, SectionsInputs(table, sections, i + 1)) ==
        if name in sections then FirstFailure(model, SectionInputs(name, sections[name])) else None
  {
    var name := table[i].name;
    var before := SectionsInputs(table, sections, i);
    if name in sections {
      FirstFailureAppend(model, before, SectionInputs(name, sections[name]));
    } else {
      assert SectionsInputs(table, sections, i + 1) == before;
    }
  }

  /** The names of the found sections among the first `n` table entries. */
  function FoundNames(table: seq<SectionRule>, sections: map<string, string>, n: nat): (names: set<string>)
    requires n <= |table|
    ensures names <= sections.Keys
  {
    if n == 0 then {}
    else
      var name := table[n - 1].name;
      FoundNames(table, sections, n - 1) + (if name in sections then {name} else {})
  }

  /** A name is found among the first `n` entries when it is a key named by one of them. */
  lemma {:induction false} FoundNamesIff(table: seq<SectionRule>, sections: map<string, string>, n: nat)
    requires n <= |table|
    ensures forall name :: name in FoundNames(table, sections, n) <==>
      name in sections && exists k :: 0 <= k < n && table[k].name == name
  {
    if n > 0 {
      FoundNamesIff(table, sections, n - 1);
    }
  }

  /** A failure within the inputs for the first `n` entries is the first failure for all of them. */
  lemma FailureInPrefix(model: Model, table: seq<SectionRule>, sections: map<string, string>, n: nat)
    requires n <= |table|
    requires FirstFailure(model, SectionsInputs(table, sections, n)).Some?
    ensures FirstFailure(model, SectionsInputs(table, sections, |table|)) ==
      FirstFailure(model, SectionsInputs(table, sections, n))
  {
    var prefix := SectionsInputs(table, sections, n);
    var all := SectionsInputs(table, sections, |table|);
    SectionsInputsPrefix(table, sections, n, |table|);
    FirstFailureAppend(model, prefix, all[|prefix|..]);
  }

  // ---------------------------------------------------------------------------
  // analyze_document

  /** What the model said about one section. */
  datatype SectionAnalysis = SectionAnalysis(summary: string, details: string, actions: string)

  /** The dictionary `analyze_document` returns. */
  datatype Analysis = Analysis(metadata: string, keySections: map<string, SectionAnalysis>, risks: string)

  /** `entry` holds the model's answers to the three prompts about one section's content. */
  predicate Answers(model: Model, name: string, content: string, entry: SectionAnalysis) {
    && model(SummaryPrompt(name) + content) == Success(entry.summary)
    && model(DetailsPrompt + content) == Success(entry.details)
    && model(ActionsPrompt + content) == Success(entry.actions)
  }

  /**
    The entry `analyze_document` builds for one section: summary, details and actions, asked
    in that order; the first failing call ends the request with its error.
   */
  method AnalyzeSection(model: Model, name: string, content: string) returns (r: Result<SectionAnalysis, string>)
    ensures var failure := FirstFailure(model, SectionInputs(name, content));
      if failure.Some? then r == Failure(failure.value) else r.Success?
    ensures r.Success? ==> Answers(model, name, content, r.value)
  {
    ghost var calls := SectionInputs(name, content);
    var summary := SummarizeSection(model, content, name);
    if summary.Failure? {
      return Failure(summary.error);
    }
    var details := ExtractDetails(model, content);
    if details.Failure? {
      assert calls[1..][0] == DetailsPrompt + content;
      return Failure(details.error);
    }
    var actions := SuggestActions(model, content);
    if actions.Failure? {
      assert calls[1..][1..][0] == ActionsPrompt + content;
      assert FirstFailure(model, calls[1..][1..]) == Some(actions.error);
      return Failure(actions.error);
    }
    assert forall j :: 0 <= j < |calls| ==> model(calls[j]).Success?;
    FirstFailureNone(model, calls);
    r := Success(SectionAnalysis(summary.value, details.value, actions.value));
  }

  /**
    What the loop of `analyze_document` has achieved after the first `i` table entries: no
    call has failed, and `done` holds an entry for exactly the sections found so far.
   */
  ghost predicate Progress(model: Model, table: seq<SectionRule>, sections: map<string, string>, i: nat,
                           done: map<string, SectionAnalysis>)
    requires i <= |table|
  {
    && FirstFailure(model, SectionsInputs(table, sections, i)).None?
    && done.Keys == FoundNames(table, sections, i)
    && forall name :: name in done ==> name in sections && Answers(model, name, sections[name], done[name])
  }

  /** An entry whose name was not found adds nothing. */
  lemma ProgressSkip(model: Model, table: seq<SectionRule>, sections: map<string, string>, i: nat,
                     done: map<string, SectionAnalysis>)
    requires i < |table| && table[i].name !in sections
    requires Progress(model, table, sections, i, done)
    ensures Progress(model, table, sections, i + 1, done)
  {
    FirstFailureStep(model, table, sections, i);
  }

  /** A found section whose three calls all succeed adds its entry. */
  lemma ProgressAdd(model: Model, table: seq<SectionRule>, sections: map<string, string>, i: nat,
                    done: map<string, SectionAnalysis>, entry: SectionAnalysis)
    requires i < |table| && table[i].name in sections
    requires Progress(model, table, sections, i, done)
    requires var name := table[i].name;
      FirstFailure(model, SectionInputs(name, sections[name])).None? && Answers(model, name, sections[name], entry)
    ensures Progress(model, table, sections, i + 1, done[table[i].name := entry])
  {
    FirstFailureStep(model, table, sections, i);
  }

  /** A found section whose calls fail makes that failure the first one of the whole loop. */
  lemma ProgressFail(model: Model, table: seq<SectionRule>, sections: map<string, string>, i: nat,
                     done: map<string, SectionAnalysis>)
    requires i < |table| && table[i].name in sections
    requires Progress(model, table, sections, i, done)
    requires FirstFailure(model, SectionInputs(table[i].name, sections[table[i].name])).Some?
    ensures FirstFailure(model, SectionsInputs(table, sections, |table|)) ==
      FirstFailure(model, SectionInputs(table[i].name, sections[table[i].name]))
  {
    FirstFailureStep(model, table, sections, i);
    FailureInPrefix(model, table, sections, i + 1);
  }

  /** Once every entry has been visited, `done` covers exactly the found sections. */
  lemma ProgressDone(model: Model, table: seq<SectionRule>, sections: map<string, string>,
                     done: map<string, SectionAnalysis>)
    requires forall name :: name in sections ==> exists k :: 0 <= k < |table| && table[k].name == name
    requires Progress(model, table, sections, |table|, done)
    ensures done.Keys == sections.Keys
  {
    var found := FoundNames(table, sections, |table|);
    FoundNamesIff(table, sections, |table|);
    forall name | name in sections ensures name in found {
      var k :| 0 <= k < |table| && table[k].name == name;
    }
    assert found == sections.Keys;
  }

  /**
    The loop of `analyze_document` over the found sections, in the dictionary's order (the
    order of `table`, in which `find_sections` inserted them), stopping at the first
    failure. On success the result has exactly the keys of `sections`, and each entry holds
    the answers to that section's three prompts.
   */
  method AnalyzeSections(model: Model, table: seq<SectionRule>, sections: map<string, string>)
    returns (r: Result<map<string, SectionAnalysis>, string>)
    requires forall name :: name in sections ==> exists k :: 0 <= k < |table| && table[k].name == name
    ensures var failure := FirstFailure(model, SectionsInputs(table, sections, |table|));
      if failure.Some? then r == Failure(failure.value) else r.Success?
    ensures r.Success? ==>
      && r.value.Keys == sections.Keys
      && forall name :: name in r.value ==> Answers(model, name, sections[name], r.value[name])
  {
    var keySections: map<string, SectionAnalysis> := map[];
    var i := 0;
    while i < |table|
      invariant i <= |table|
      invariant Progress(model, table, sections, i, keySections)
    {
      var name := table[i].name;
      if name in sections {
        var entry := AnalyzeSection(model, name, sections[name]);
        if entry.Failure? {
          ProgressFail(model, table, sections, i, keySections);
          return Failure(entry.error);
        }
        ProgressAdd(model, table, sections, i, keySections, entry.value);
        keySections := keySections[name := entry.value];
      } else {
        ProgressSkip(model, table, sections, i, keySections);
      }
      i := i + 1;
    }
    ProgressDone(model, table, sections, keySections);
    r := Success(keySections);
  }

  /**
    `analyze_document`. The `key_sections` map has exactly the keys `find_sections`
    produced; metadata and risks come from the whole text whatever was found; every model
    input is a prompt followed by a text; and the request fails with the error of the first
    failing call, in the order the source makes them, or with `ValueError` for a non-PDF name.
   */
  method AnalyzeDocument(model: Model, fileName: string, pages: seq<string>) returns (r: Result<Analysis, Error>)
    ensures !EndsWith(fileName, PdfSuffix) ==> r == Failure(UnsupportedFormat(UnsupportedFormatMessage))
    ensures EndsWith(fileName, PdfSuffix) ==>
      var failure := FirstFailure(model, CallInputs(JoinLines(pages)));
      if failure.Some? then r == Failure(ModelCallFailed(failure.value)) else r.Success?
    ensures r.Success? ==>
      var text := JoinLines(pages);
      var sections := Sections(KeySections, text);
      && EndsWith(fileName, PdfSuffix)
      && model(MetadataPrompt + text) == Success(r.value.metadata)
      && model(RisksPrompt + text) == Success(r.value.risks)
      && r.value.keySections.Keys == sections.Keys
      && forall name :: name in r.value.keySections ==>
        var entry := r.value.keySections[name];
        && model(SummaryPrompt(name) + sections[name]) == Success(entry.summary)
        && model(DetailsPrompt + sections[name]) == Success(entry.details)
        && model(ActionsPrompt + sections[name]) == Success(entry.actions)
  {
    var extracted := ExtractText(fileName, pages);
    if extracted.Failure? {
      return Failure(extracted.error);
    }
    var text := extracted.value;
    KeySectionsWellFormed();
    var sections := FindSections(KeySections, text);
    ghost var head := [MetadataPrompt + text, RisksPrompt + text];
    ghost var rest := SectionsInputs(KeySections, sections, |KeySections|);
    assert CallInputs(text) == head + rest;

    var metadata := GetMetadata(model, text);
    if metadata.Failure? {
      return Failure(ModelCallFailed(metadata.error));
    }
    var risks := IdentifyRisks(model, text);
    if risks.Failure? {
      assert (head + rest)[1..][0] == RisksPrompt + text;
      return Failure(ModelCallFailed(risks.error));
    }
    FirstFailureNone(model, head);
    FirstFailureAppend(model, head, rest);
    var entries := AnalyzeSections(model, KeySections, sections);
    if entries.Failure? {
      return Failure(ModelCallFailed(entries.error));
    }
    r := Success(Analysis(metadata.value, entries.value, risks.value));
  }
}
