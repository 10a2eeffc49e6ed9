# Résumé/job matching engine of `job_search`, modelled in Dafny

`job_search` is a service that structures a résumé, searches job postings
and scores how well the résumé fits each posting. This project models its
core:

- **Matching** (`app/services/matching.py`). It computes four sub-scores:
  skills, experience, education and description. It combines them with the
  fixed weights 0.3/0.3/0.1/0.3. It reports the matched and missing keywords
  and a list of recommendations.
- **Résumé structuring** (`app/services/resume_parser.py`). It takes the
  name, e-mail, phone, skills, experience and education entries, and the
  summary out of the extracted text. `_extract_section` searches the
  section headers in order. `parse_resume` picks the extractor by file
  extension.
- **Job search** (`app/services/job_search.py`). It queries the named
  sources, LinkedIn first. It pools their postings, ignoring a source that
  raised. It keeps the first posting of each URL and cuts the result to
  `max_results`.
- **Comparison script** (`scripts/compare_resume.py`). It scores every
  posting and stable-sorts by overall score, highest first. It keeps the
  top N rows. It colours a score for the HTML report and loads the saved
  postings, skipping entries that do not validate.

Modules, one per file:

- `Wrappers`: `Option` and `Result`.
- `Seqs`: subsequences, distinctness, and Python's `xs[:n]`.
- `Text`: Python string behaviour, namely `in`, `lower`, `strip`,
  `split()`, `split('\n')[0]` and `re.split(r'\n\s*\n', …)`.
- `Models`: the records.
- `Matching`, `ResumeParser`, `JobSearch` and `CompareResume`: the four
  parts of the core listed above.

Each source loop that accumulates a list is a Dafny method with a loop. It
is proved equal to a specification function, and the source's promises are
lemmas about that function. Where the source iterates over a Python `set`,
the method picks elements in an unspecified order. Its contract then states
only what holds for every order.

Behaviour of the code that the model keeps as written:

- Structuring an empty text gives the name `Some("")`, not no name: the
  first line is `""`, which is short and has no '@'
  (`ResumeParser.StructureOfEmptyText`).
- The "add more skills" advice needs at least one skill and fewer than
  five. A résumé with no skills does not get it.
- The experience score of 20 is never returned. With no experience the
  function has already returned 0 (`Matching.ExperienceScoreSpec`).
- The stop-word filter on missing keywords never removes anything. Every
  stop word has at most four letters, and missing keywords need five
  (`Matching.StopWordsNeverFilter`).
- `"java"` counts as a required and as a matched skill in any posting that
  mentions JavaScript, because matching is by substring
  (`Matching.JavaFoundInJavaScript`).

## Model

| member | source | states |
|---|---|---|
| Matching.TermsIn | app/services/matching.py:77 | a term is kept exactly when it is one of the terms and occurs in the text; never more terms than given |
| Matching.TermsInCounts | app/services/matching.py:66-69 | the filter keeps the terms in order and keeps every occurrence of a term found in the text, duplicates included, so its length is the count the skills score divides |
| Matching.LowerAll | app/services/matching.py:63 | the list keeps its length and holds each skill lower-cased at its own position |
| Matching.Percentage | app/services/matching.py:83-84 | min(count/total·100, 100) lies in [0, 100], is 0 exactly when the count is 0, and is 100 once the count reaches the total |
| Matching.SkillsMatch | app/services/matching.py:56-84 | the skills loop computes the skills score of the résumé against the posting |
| Matching.SkillsScoreSpec | app/services/matching.py:56-84 | skills score in [0, 100]; 0 without skills; 50 when the posting names no known tech term; otherwise 0 exactly when no résumé skill occurs in the posting |
| Matching.JavaFoundInJavaScript | app/services/matching.py:68-77 | a posting that mentions "javascript" requires "java", and a "Java" skill matches it |
| Matching.ExperienceScoreSpec | app/services/matching.py:86-111 | experience score is one of 0, 50, 70, 80, 90; 0 exactly when there is no experience; never 20; 90 exactly for a senior posting and at least 3 entries; the title does not matter |
| Matching.EducationScoreSpec | app/services/matching.py:113-128 | education score is one of 50, 70, 80; 50 exactly when there is no education; the title does not matter |
| Matching.CollectKeywords | app/services/matching.py:138-152 | the two comprehensions over the job-word set list each common (length > 3, in the résumé) and each missing (length > 4, not in the résumé, not a stop word) word exactly once |
| Matching.DescriptionMatch | app/services/matching.py:130-161 | returns the description score, at most 20 distinct common words and at most 10 distinct missing words, drawn from those sets, as many as the caps allow |
| Matching.DescriptionScoreSpec | app/services/matching.py:154-159 | description score in [0, 100], and 0 when the posting has no words |
| Matching.StopWordsNeverFilter | app/services/matching.py:148-151 | the missing keywords are exactly the job words longer than 4 that the résumé lacks |
| Matching.EmptyPostingHasNoKeywords | app/services/matching.py:134-161 | a posting with empty title and description scores 0 and reports no keywords |
| Matching.ReportedKeywordsSpec | app/services/matching.py:141-161 | a word is never both matched and missing; matched words are long enough and in both texts; missing words are long enough and only in the posting; under the caps the lists cover their sets |
| Matching.OverallBetweenSubScores | app/services/matching.py:33-38 | the weighted overall score lies between the smallest and the largest sub-score |
| Matching.GenerateRecommendations | app/services/matching.py:163-187 | advice in source order: keyword advice naming the first 5 missing words exactly when some are missing; each section advice exactly when its condition holds; "good fit" exactly when nothing else applies |
| Matching.AdviceAdvised | app/services/matching.py:168-187 | the list built by the four conditional appends and the good-fit fallback is exactly the advice the résumé calls for |
| Matching.AdviceSpec | app/services/matching.py:168-187 | there is always advice; the first item is keyword advice exactly when keywords are missing, and it names 1 to 5 of them; "good fit" comes only alone |
| Matching.CalculateMatch | app/services/matching.py:15-54 | the match holds the four sub-scores, their 0.3/0.3/0.1/0.3 weighted sum, the reported keywords and the advice for the missing ones; overall in [0, 100] |
| Matching.MatchScoreBounds | app/services/matching.py:15-54 | every score of a match lies in [0, 100] |
| Text.Lower | app/services/resume_parser.py:82 | `lower()` keeps the length and lower-cases each ASCII letter, keeping every other character at its position |
| Text.ContainsIffOccurs | app/services/matching.py:68 | Python substring `in` holds exactly when the pattern occurs at some position |
| Text.StripSpec | app/services/resume_parser.py:70 | `strip` removes only whitespace from both ends and leaves no whitespace at either end |
| Text.TrimStartSpec | app/services/resume_parser.py:70 | `lstrip` keeps a suffix not starting with whitespace and removes only whitespace |
| Text.TrimEndSpec | app/services/resume_parser.py:70 | `rstrip` keeps a prefix not ending with whitespace and removes only whitespace |
| Text.WordsSpec | app/services/matching.py:138-139 | a string is a word of `split()` exactly when it is a maximal run of non-whitespace of the text: non-empty, free of whitespace, bounded by whitespace or the ends |
| Text.FirstLine | app/services/resume_parser.py:68-70 | the first line is a prefix with no line break, ended by a line break or by the end of the text |
| Text.SplitBlocksSeparated | app/services/resume_parser.py:92 | no piece of `re.split(r'\n\s*\n', …)` contains the separator |
| Text.SplitBlocksRejoin | app/services/resume_parser.py:92 | there is one separator between each two pieces, and the pieces rejoined with them give back the text |
| Text.SeparatorsAreBlankLines | app/services/resume_parser.py:92 | each separator cut out is whitespace that starts and ends with a line break, as `\n\s*\n` matches |
| Text.SplitWithoutSeparator | app/services/resume_parser.py:101 | a text with no blank-line separator splits into itself alone |
| Seqs.PyPrefix | app/services/resume_parser.py:93 | `xs[:n]` is a prefix of length min(n, len) for n >= 0 and of len + n (at least 0) for negative n |
| ResumeParser.FirstFound | app/services/resume_parser.py:59 | the first match, or none exactly when there is no match |
| ResumeParser.ExtractName | app/services/resume_parser.py:66-72 | the name is the stripped first line when shorter than 50 and free of '@' (so it has no line break), else none |
| ResumeParser.FoundSkills | app/services/resume_parser.py:75-85 | a vocabulary term is found exactly when its lower-case form occurs in the lower-cased text |
| ResumeParser.FoundSkillsInOrder | app/services/resume_parser.py:81-85 | the found skills keep the vocabulary's order |
| ResumeParser.CollectSkills | app/services/resume_parser.py:81-85 | the skills loop finds exactly the vocabulary terms present |
| ResumeParser.FirstSectionSpec | app/services/resume_parser.py:123-130 | no section exactly when no header name matches; otherwise the stripped capture of the first name that matches, every earlier name failing |
| ResumeParser.ExtractSection | app/services/resume_parser.py:123-130 | the search loop with early return yields the first matching header's stripped capture |
| ResumeParser.KeptEntriesInOrder | app/services/resume_parser.py:93-95 | kept entries are stripped blocks, in block order; each stripped block longer than the minimum is kept as many times as it occurs among the blocks, and no other text is kept |
| ResumeParser.SectionEntriesSpec | app/services/resume_parser.py:88-104 | at most the block limit of entries, each longer than the minimum, each a stripped block among the first blocks, in order; every one of those blocks longer than the minimum once stripped is an entry, as many times as it occurs among them |
| ResumeParser.CollectEntries | app/services/resume_parser.py:90-95 | the entries loop keeps the stripped blocks longer than the minimum among the first blocks |
| ResumeParser.SummaryOf | app/services/resume_parser.py:106-110 | no summary exactly when the section is absent or empty; otherwise the section's first min(len, 500) characters |
| ResumeParser.ExtractResumeData | app/services/resume_parser.py:54-121 | the structuring method builds the record of the specification function, field by field |
| ResumeParser.StructureSpec | app/services/resume_parser.py:54-121 | raw text kept; skills a vocabulary subsequence of the terms present; at most 5 experience entries over 20 characters; at most 3 education entries over 10; summary at most 500; name under 50 without '@' |
| ResumeParser.StructureOfEmptyText | app/services/resume_parser.py:54-121 | an empty text gives no contact fields, skills, entries or summary, and the name "" |
| ResumeParser.Extension | app/services/resume_parser.py:21 | the extension is a suffix of the name that is empty or starts with its only '.', and holds no '/' |
| ResumeParser.ExtensionSpec | app/services/resume_parser.py:21 | the extension is non-empty exactly when a '.' has no '.' or '/' after it and a non-dot character of the final path component before it; it is then everything from that '.' on |
| ResumeParser.FormatOf | app/services/resume_parser.py:21-31 | the lower-cased extension is refused exactly when it is not .pdf, .docx, .doc or .txt, with an error naming it; .pdf goes to the PDF extractor, .docx and .doc to the Word extractor, .txt to the plain-text reader |
| ResumeParser.ParseResume | app/services/resume_parser.py:16-52 | refuses the extensions other than .pdf/.docx/.doc/.txt (any case), naming the extension; fails with the extractor's error when the chosen extractor raises; otherwise returns the id and the structured text the extractor yields |
| ResumeParser.UpperCaseExtension | app/services/resume_parser.py:21-24 | ".PDF" is read as a PDF |
| ResumeParser.LastExtensionCounts | app/services/resume_parser.py:21-29 | only the last extension decides |
| ResumeParser.HiddenFileRefused | app/services/resume_parser.py:21-31 | ".pdf" alone has no extension and is refused |
| ResumeParser.OtherExtensionRefused | app/services/resume_parser.py:30-31 | another extension is refused with the error naming it |
| JobSearch.Queried | app/services/job_search.py:19-23 | one outcome per named source and no other; LinkedIn's first when it is named, Indeed's last when it is named |
| JobSearch.PooledNamedSources | app/services/job_search.py:19-31 | for every request, the pool is LinkedIn's postings if it is named, then Indeed's if it is named, a raising source contributing none |
| JobSearch.FirstOccurrencesInOrder | app/services/job_search.py:33-39 | de-duplication keeps postings in order |
| JobSearch.FirstOccurrencesUrls | app/services/job_search.py:33-39 | de-duplication keeps every URL of the pool exactly once |
| JobSearch.FirstOccurrencesKeepFirst | app/services/job_search.py:33-39 | for each URL the posting kept is the first that has it |
| JobSearch.DeduplicatedSpec | app/services/job_search.py:33-41 | the cut de-duplicated pool is in pool order, URL-distinct, within the limit, and has every URL when the cut is not reached |
| JobSearch.Deduplicate | app/services/job_search.py:33-41 | the seen-set loop and the cut yield the first occurrences, cut to the limit |
| JobSearch.SearchJobs | app/services/job_search.py:14-41 | the search returns the cut first occurrences of the pooled outcomes of the named sources |
| JobSearch.SearchedSpec | app/services/job_search.py:14-41 | for a valid request: at most max_results postings, from the pool in order, no URL twice, every pooled URL when the cut is not reached |
| JobSearch.NoSourcesNoJobs | app/services/job_search.py:19-25 | naming neither source gives no postings |
| JobSearch.FailedSourceIgnored | app/services/job_search.py:26-31 | a source that raised gives the same result as one that listed nothing |
| CompareResume.ScoreJobs | scripts/compare_resume.py:87-103 | every posting is paired, in order, with a match for it and that match's overall score |
| CompareResume.SortByScoreSpec | scripts/compare_resume.py:106 | the sort orders by overall score, highest first, and is a permutation |
| CompareResume.SortByScoreStable | scripts/compare_resume.py:106 | the sort is stable: rows with equal score keep their order |
| CompareResume.CompareResumeWithJobs | scripts/compare_resume.py:77-108 | the result is the first top_n of the sorted scoring of all postings |
| CompareResume.RankedSpec | scripts/compare_resume.py:105-108 | min(top_n, n) rows for a non-negative top_n and max(0, n + top_n) for a negative one, as Python's slice gives, sorted; kept and dropped rows together are the scored rows; no dropped row scores above a kept one |
| CompareResume.RankedRowsAreMatches | scripts/compare_resume.py:98-108 | every ranked row is a given posting with its own match, and its score is that posting's overall score |
| CompareResume.ColorOf | scripts/compare_resume.py:341 | green exactly from 70, red exactly below 50, orange in between |
| CompareResume.BadgeColor | scripts/compare_resume.py:341 | the badge is "#4caf50" exactly from 70, "#ff9800" exactly from 50 to below 70, "#f44336" exactly below 50 |
| CompareResume.ColorMonotone | scripts/compare_resume.py:341 | a higher score never gets a worse colour |
| CompareResume.RequiredText | app/models/job.py:7-13 | a required field validates exactly when present as a string, and yields that string |
| CompareResume.OptionalText | app/models/job.py:10-16 | an optional field fails exactly on a non-null non-string, and is unset exactly when absent or null |
| CompareResume.OptionalDate | app/models/job.py:14 | the date is unset exactly when absent or null, and a set date is one the date parser accepts |
| CompareResume.PostingFromSpec | scripts/compare_resume.py:65 | a posting carries its entry's text fields; an entry without a string url or id gives none |
| CompareResume.ExtraKeysIgnored | scripts/compare_resume.py:65 | keys a posting does not have do not affect validation |
| CompareResume.ValidPostingsAppend | scripts/compare_resume.py:62-69 | loading two lists of entries loads each in turn |
| CompareResume.ValidPostingsFromEntries | scripts/compare_resume.py:62-69 | each loaded posting is the posting of some entry |
| CompareResume.AllValidLoaded | scripts/compare_resume.py:62-69 | when every entry validates, all load, one for one, in order |
| CompareResume.InvalidEntrySkipped | scripts/compare_resume.py:64-69 | an entry that fails validation is skipped and loading goes on |
| Models.NewRequest | app/models/job.py:22 | a request is built exactly when max_results is from 1 to 100, and then it is valid and keeps the given fields |
| CompareResume.LoadJobs | scripts/compare_resume.py:45-75 | none exactly when the file is missing or unreadable; otherwise the postings of the valid entries |

## Left out

- Rounding: `round(x, 2)` on the five scores is not modelled. Scores are exact reals, and 0.3/0.1 are exact. The script sorts and colours on the rounded overall score, so the model can order near-ties differently (70.004 and 70.001 round to the same score and keep input order in the source, not here) and colour a score just under a threshold differently (69.996 rounds to 70.0 and is green in the source, orange here).
- `str.lower()` is modelled on ASCII letters only. Unicode case mapping is not modelled.
- The e-mail, phone and section-header regular expressions are parameters (`ResumeParser.Patterns`). `SoundPatterns` records only what the structuring proofs need from them. The blank-line split `\n\s*\n` is modelled exactly.
- Iteration order of Python sets in the description match: the reported keyword lists are some order of the sets, as the method's nondeterministic choice allows.
- Dates: date-time parsing of `posted_date` is a parameter, and the model keeps the date as its text.
- PDF and Word text extraction, file reading and `uuid.uuid4()` are parameters of `ResumeParser.ParseResume`. An extractor either yields text or raises; which files make pdfplumber, python-docx or the UTF-8 reader raise (a broken PDF, a legacy `.doc`, a non-UTF-8 `.txt`) is up to that parameter. A `.doc` file goes to the Word extractor, as in the source.
- `ResumeParser.Extension` follows `posixpath.splitext`, where only '/' separates path components. On Windows, where the comparison script also runs, `ntpath.splitext` also treats '\\' as a separator (a drive's ':' is not one, so "C:.txt" has the extension ".txt" there too); that variant is not modelled.
- The LinkedIn and Indeed scrapers and `asyncio.gather`: each source's outcome is a parameter, and the concurrency is not modelled. The error print is left out.
- JSON decoding: `CompareResume.JobsFile` is the already-decoded file. It is unreadable when the file is not JSON or not an object, or when "jobs" cannot be iterated (a number, a boolean or null). A "jobs" object or string is iterated by key or by character; none of those is an object, so each is skipped and nothing loads. JSON values are reduced to string, number, null or other. The validating library's coercions beyond these are not modelled.
- The OpenAI key read in `MatchingService.__init__`, the console output, the HTML report (except its colour rule), the REST API and the other scripts are not part of this model.
- Default arguments: `--top` defaults to 10 (scripts/compare_resume.py:427) and so does `top_n` (scripts/compare_resume.py:77); a request's `max_results` defaults to 20 and its `sources` to LinkedIn and Indeed (app/models/job.py:22-23). The model takes each of them as an explicit parameter.
- The score lists are sorted as values: `CompareResume.SortByScore` is a stable insertion sort function, not Python's in-place `list.sort`.
- `Models.Recommendation` replaces the fixed message texts with five kinds. The keyword advice carries the keywords it names.
