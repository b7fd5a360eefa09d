# Health document analyzer: a verified model of its core

`healthbot.py` is a small Streamlit application. It takes an uploaded healthcare PDF and
extracts its text. It then finds five kinds of section in the text: patient details,
medical conditions, treatment plan, medications and risks. Finally it asks a generative
model for document metadata, for risks, and for a summary, details and suggested actions
for every section it found.

This project models the part of that program that has real logic:

- **Keyword table.** `HealthDocProcessor.key_sections` is `HealthDocProcessor.KeySections`,
  the five entries in dictionary order.
- **`extract_text`.** The case-sensitive `.pdf` check and the `'\n'.join` of the page
  texts (`HealthDocProcessor.ExtractText`).
- **`find_sections`.** Module `Pattern` writes out the regular expression
  `(?i)(kw1|...).*?(?=\n\s*\n|$)`, searched with DOTALL, as an explicit scanner:
  - the match starts at the leftmost position where a keyword occurs, letters compared
    without regard to case;
  - at that position, the first keyword in list order wins;
  - the lazy `.*?` stops at the first position where a blank-line separator or `$`
    follows.

  `HealthDocProcessor.Section` strips that span. `HealthDocProcessor.FindSections` is the
  loop that fills the result dictionary.
- **Prompt builders and `analyze_document`.** `analyze_with_gemini` sends
  `prompt + text` to the model. Here the model is a function value
  `string -> Result<string, string>`, where `Failure` stands for the exception a call
  raises.

  `HealthAIAgent.AnalyzeDocument` makes the calls in the program's order: metadata, risks,
  then summary, details and actions for each found section in table order. It ends with
  the first failure, as the raised exception would.

  `HealthAIAgent.CallInputs` lists every input the model receives for a text. The
  contracts of `AnalyzeDocument` are stated against that list.

Module `PyStr` holds the Python string builtins the core relies on: `str.isspace`, ASCII
case folding, `strip`, `endswith`, `replace` and `'\n'.join`. It also defines
`split('\n')`, which the program never calls, only as the inverse of the join in the
round-trip lemmas.

The match is extended lazily (`.*?`), not greedily, and the stored value is the match
after `strip()`, not the verbatim span; the model follows healthbot.py:33-36 on both.

The keyword table is free of regular-expression metacharacters. Every keyword is
lower-case letters and single spaces (`HealthDocProcessor.KeySectionsWellFormed`), so
compiling the pattern never fails and a keyword stands for itself.

## Model

| member | source | states |
|---|---|---|
| PyStr.LowerEqualIff | healthbot.py:33 | under `(?i)` two characters match exactly when they are equal or are the upper- and lower-case forms of one ASCII letter |
| PyStr.LeadingSpaces | healthbot.py:36 | the length of the maximal whitespace prefix: all characters before it are whitespace, the one at it is not |
| PyStr.TrailingStart | healthbot.py:36 | the start of the maximal whitespace suffix above a lower bound |
| PyStr.Strip | healthbot.py:36 | `strip()` keeps a contiguous piece `s[a..b]` with only whitespace outside it, and the piece neither starts nor ends with whitespace |
| PyStr.StripUnique | healthbot.py:36 | any split of a string into whitespace, core and whitespace has the core `strip()` returns, so `strip()` is fully determined |
| PyStr.StripAppendSpace | healthbot.py:36 | appending whitespace never changes what `strip()` returns |
| PyStr.StripKeepsPrefix | healthbot.py:36 | a string that starts with a non-space piece keeps that piece, and its own start, under `strip()` |
| PyStr.EndsWithIffConcat | healthbot.py:23 | `endswith(suffix)` holds exactly when the string is some stem followed by the suffix |
| PyStr.ReplaceChar | healthbot.py:70 | `replace('_', ' ')` keeps the length and changes exactly the matching characters |
| PyStr.JoinLinesAppend | healthbot.py:25 | joining a concatenation of non-empty lists is joining each list, with one newline between them |
| PyStr.SplitJoinLines | healthbot.py:25 | splitting the join of newline-free parts at newlines gives the parts back |
| PyStr.JoinSplitLines | healthbot.py:25 | joining the pieces of a split gives back the original string |
| Pattern.FirstAlternative | healthbot.py:33-34 | at one position, the first alternative in list order that occurs there, and none earlier does |
| Pattern.LeftmostStart | healthbot.py:33-34 | the leftmost position at which some keyword occurs, with the first alternative there; no keyword occurs further left |
| Pattern.LazyEnd | healthbot.py:33 | the lazy `.*?` stops at the first position at or after its start where the lookahead `\n\s*\n` or `$` holds |
| Pattern.Search | healthbot.py:33-34 | `re.search` finds nothing exactly when no keyword occurs; otherwise the match starts leftmost, with the first alternative in list order, and ends at the lazy end after the keyword |
| Pattern.SearchUnique | healthbot.py:33-34 | those conditions determine the match completely |
| Pattern.NoBlankLineInMatch | healthbot.py:33 | with newline-free keywords, the matched span holds no blank-line separator |
| Pattern.LazyEndAtTextEnd | healthbot.py:33 | the lazy end when `$` is read as end of text only: the first blank-line separator, else the end |
| Pattern.DollarIsEndOfTextAfterStrip | healthbot.py:33-36 | reading `$` as end of text, or also as before a final newline, gives the same stripped value |
| HealthDocProcessor.KeySectionsWellFormed | healthbot.py:13-19 | the table has five entries with distinct names, and every keyword is lower-case words separated by single spaces |
| HealthDocProcessor.KeywordAtCaseless | healthbot.py:33-34 | a keyword of lower-case letters and spaces occurs at a position exactly when each text character there is the keyword's character or, for a letter, its upper-case form |
| HealthDocProcessor.RuleKeywordSingleSpaces | healthbot.py:13-19 | no keyword of the table holds two spaces in a row |
| HealthDocProcessor.RuleKeywordWellFormed | healthbot.py:13-19 | each keyword of each table entry is well formed |
| HealthDocProcessor.ExtractText | healthbot.py:21-27 | text is returned exactly when the name ends with the case-sensitive `.pdf`, and it is then the pages joined by newlines; otherwise it is the `ValueError` with its message |
| HealthDocProcessor.ExtractedTextSplitsIntoPages | healthbot.py:25 | when no page holds a newline, the extracted text splits back into the pages, in order |
| HealthDocProcessor.ExtensionCheckExamples | healthbot.py:23-27 | `report.pdf` is accepted; `report.PDF`, `report.docx` and `report.pdf.txt` are refused |
| HealthDocProcessor.Section | healthbot.py:33-36 | a section has a value exactly when one of its keywords occurs in the text |
| HealthDocProcessor.SectionValueShape | healthbot.py:33-36 | the value is a contiguous piece of the text starting at the match start; it begins with the matched keyword up to case, and has no whitespace at either end |
| HealthDocProcessor.SectionValueHasNoBlankLine | healthbot.py:33-36 | the value never contains a blank-line separator |
| HealthDocProcessor.NoWordBoundaries | healthbot.py:33-34 | there are no word boundaries: in `dosage` the patient-details pattern matches `age` at index 3, and the value is `age` |
| HealthDocProcessor.BlankLineEndsSection | healthbot.py:33-36 | a section ends at the first blank line (a line of whitespace counts) after its keyword, and an upper-case keyword in the text still matches |
| HealthDocProcessor.PatientDetailsOfAgeDrugs | healthbot.py:32-36 | in `age drugs` the patient-details value is the whole text, so it overlaps the medications value |
| HealthDocProcessor.MedicationsOfAgeDrugs | healthbot.py:32-36 | in `age drugs` the medications value is `drugs`, found in the same unmodified text |
| HealthDocProcessor.SectionsKeys | healthbot.py:31-37 | a name is a key of the result exactly when it names a table entry one of whose keywords occurs in the text |
| HealthDocProcessor.SectionsValues | healthbot.py:31-37 | with distinct names, each found section's value depends only on the text and that section's own keywords |
| HealthDocProcessor.NoKeywordsNoSections | healthbot.py:31-37 | a text without any keyword yields an empty map, not an error |
| HealthDocProcessor.FindSections | healthbot.py:29-37 | the loop builds exactly the specified map: keys iff some keyword of the entry occurs, values the stripped first match |
| HealthAIAgent.SummaryPrompt | healthbot.py:68-71 | the summary prompt is the fixed head, the section name with every `_` turned into a space, and the fixed tail; it contains no `_` |
| HealthAIAgent.SummaryPromptSpellsName | healthbot.py:70 | the prompt spells the name in words: underscores become spaces and nothing else changes |
| HealthAIAgent.TreatmentPlanSummaryPrompt | healthbot.py:70 | `treatment_plan` is summarised as `treatment plan` |
| HealthAIAgent.FirstFailureNone | healthbot.py:48-66 | no call fails exactly when every call in the list succeeds |
| HealthAIAgent.FirstFailureAppend | healthbot.py:48-66 | in calls made one after the other, the first failure is the first one of the earlier calls, else of the later ones |
| HealthAIAgent.SectionsInputsPrefix | healthbot.py:59-64 | the calls for the first entries are a prefix of the calls for more entries |
| HealthAIAgent.NoSectionsNoInputs | healthbot.py:59-64 | with an empty sections map, the loop over the table makes no model call |
| HealthAIAgent.OnlyDocumentCallsWithoutSections | healthbot.py:53-64 | with no section found, only the metadata and risks calls are made |
| HealthAIAgent.FailureInPrefix | healthbot.py:59-64 | a failure among the calls of the first entries is the failure of the whole loop |
| HealthAIAgent.FirstFailureStep | healthbot.py:59-64 | visiting one more entry adds the first failure of its three calls, if its section was found |
| HealthAIAgent.FoundNames | healthbot.py:59-64 | every name collected while visiting the first entries is a key of the sections map |
| HealthAIAgent.FoundNamesIff | healthbot.py:59-64 | a name was visited exactly when it is a key named by one of the entries so far |
| HealthAIAgent.ProgressAdd | healthbot.py:59-64 | a found section whose three calls succeed adds its entry and keeps the loop invariant |
| HealthAIAgent.ProgressSkip | healthbot.py:59 | an entry whose section was not found leaves the result unchanged |
| HealthAIAgent.ProgressFail | healthbot.py:59-64 | a found section whose calls fail ends the loop with that failure |
| HealthAIAgent.ProgressDone | healthbot.py:59-64 | after the last entry, the result has exactly the keys of the sections map |
| HealthAIAgent.AnalyzeSection | healthbot.py:60-64 | summary, details and actions are asked in that order, and the first failure is returned; on success the entry holds the three answers |
| HealthAIAgent.AnalyzeSections | healthbot.py:59-64 | the loop fails with the first failing call in table order; otherwise its map has exactly the keys of the sections, each with its three answers |
| HealthAIAgent.AnalyzeDocument | healthbot.py:48-66 | a non-PDF name gives the `ValueError`; otherwise the request fails with the first failing call, in program order; on success `key_sections` has exactly the keys `find_sections` returned, each holding its section's three answers, and metadata and risks are the answers for the whole text |

## Left out

- The Streamlit user interface (healthbot.py:102-138): the upload widget, spinner,
  expanders and error display. It is presentation and I/O. The upload widget also accepts
  `.docx`, which `extract_text` then refuses. That refusal is modelled.
- The Gemini client: its configuration, the model name and the hard-coded API key
  (healthbot.py:2, 7-8). A call is a parameter `model` of type
  `string -> Result<string, string>`. `Failure` stands for any exception raised by
  `generate_content` or by reading `.text`; its payload stands for the exception.
- PyPDF2 page decoding (healthbot.py:3, 24-25). The page texts are an input sequence of
  strings. A page whose `extract_text()` yields `None`, and a reader error, are not
  modelled.
- The constructors `HealthDocProcessor()` and `HealthAIAgent()` (healthbot.py:10-19,
  44-46). They hold no state beyond the fixed table, which is the constant
  `HealthDocProcessor.KeySections`. `FindSections` takes the table as a parameter, and
  `AnalyzeDocument` passes `KeySections`.
- PyStr.Lower: folds ASCII letters only. Python's `(?i)` on `str` patterns also folds
  other letters, such as the Kelvin sign U+212A, which matches `k`, and the long s U+017F,
  which matches `s`. With those characters in a document, Python can find a keyword that
  the model does not.
- PyStr.IsSpace: the whitespace set is the one `str.isspace()` accepts. That one set is
  used both for `\s` in the lookahead and for `strip()`.
- The prompt builders `SummarizeSection`, `ExtractDetails`, `SuggestActions`,
  `GetMetadata` and `IdentifyRisks` (healthbot.py:68-100), and
  `HealthDocProcessor.AnalyzeWithGemini` (healthbot.py:39-42), carry no contracts of their
  own. Each is one model call on a fixed prompt followed by a text. What they send is
  stated by `HealthAIAgent.CallInputs` and by the contracts of `AnalyzeSection` and
  `AnalyzeDocument`. The prompt texts are copied exactly, including the eight-space
  indentation inside the triple-quoted prompts.
- The analysis dictionaries are the datatypes `Analysis` and `SectionAnalysis`. The order
  of `key_sections` is not stored in the map. It is the table order, in which both loops
  visit the sections.
