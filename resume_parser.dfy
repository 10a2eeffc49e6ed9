/** The résumé structurer: turns the text extracted from a résumé document
    into a `ResumeData` record, and picks the text extractor by file extension. */
module ResumeParser {
  import opened Wrappers
  import opened Seqs
  import opened Text
  import opened Models

  /** The skill terms looked for, in their canonical casing and order. */
  const SkillVocabulary: seq<string> := [
    "Python", "JavaScript", "Java", "C++", "C#", "React", "Vue", "Angular",
    "Node.js", "Django", "Flask", "FastAPI", "Spring", "SQL", "MongoDB",
    "PostgreSQL", "AWS", "Docker", "Kubernetes", "Git", "Linux", "Agile",
    "Machine Learning", "Deep Learning", "TensorFlow", "PyTorch", "Data Science"]

  /** Candidate section headers, tried in this order. */
  const ExperienceHeaders: seq<string> := ["Experience", "Work Experience", "Employment"]
  const EducationHeaders: seq<string> := ["Education", "Academic"]
  const SummaryHeaders: seq<string> := ["Summary", "Objective", "Profile", "About"]

  /** At most this many blocks are read, and a block is kept only when its
      stripped text is longer than the minimum. */
  const MaxExperienceBlocks := 5
  const MinExperienceLength := 20
  const MaxEducationBlocks := 3
  const MinEducationLength := 10

  const SummaryLimit := 500
  const NameLimit := 50

  /** The parser's three regular expressions, as functions of the text:
      `emails` is `re.findall` of the e-mail pattern, `phones` is `re.findall`
      of the phone pattern (which yields its optional country-code group, not
      the whole number), and `section(text, name)` is the first capture of the
      case-insensitive header pattern built for `name`, or `None` when it does
      not match. */
  datatype Patterns = Patterns(
    emails: string -> seq<string>,
    phones: string -> seq<string>,
    section: (string, string) -> Option<string>)

  predicate HasDigit(text: string)
  {
    exists i :: 0 <= i < |text| && '0' <= text[i] <= '9'
  }

  /** What the three patterns are known to guarantee: every e-mail found has
      an '@' and occurs in the text, a phone match needs digits, and a
      section capture occurs in the text. */
  ghost predicate SoundPatterns(p: Patterns)
  {
    && (forall text, i :: 0 <= i < |p.emails(text)| ==> '@' in p.emails(text)[i] && Contains(text, p.emails(text)[i]))
    && (forall text :: |p.phones(text)| > 0 ==> HasDigit(text))
    && (forall text, name :: p.section(text, name).Some? ==> Contains(text, p.section(text, name).value))
  }

  /** `xs[0] if xs else None`. */
  function FirstFound(found: seq<string>): (r: Option<string>)
    ensures r.None? <==> found == []
    ensures r.Some? ==> r.value == found[0]
  {
    if |found| > 0 then Some(found[0]) else None
  }

  // ------------------------------------------------------------------ name

  /** The stripped first line, accepted only when it is shorter than 50
      characters and has no '@'. */
  function ExtractName(text: string): (name: Option<string>)
    ensures name.Some? ==> name.value == Strip(FirstLine(text))
    ensures name.Some? ==> |name.value| < NameLimit && '@' !in name.value && '\n' !in name.value
    ensures name.None? ==> |Strip(FirstLine(text))| >= NameLimit || '@' in Strip(FirstLine(text))
  {
    var firstLine := Strip(FirstLine(text));
    StripChars(FirstLine(text));
    if |firstLine| < NameLimit && '@' !in firstLine then Some(firstLine) else None
  }

  // ---------------------------------------------------------------- skills

  /** The vocabulary terms whose lower-case form occurs in `textLower`, in
      vocabulary order and canonical casing. */
  function FoundSkills(vocabulary: seq<string>, textLower: string): (r: seq<string>)
    ensures forall t :: t in r <==> t in vocabulary && Contains(textLower, Lower(t))
  {
    if vocabulary == [] then []
    else
      var init, t := vocabulary[..|vocabulary| - 1], vocabulary[|vocabulary| - 1];
      assert vocabulary == init + [t];
      if Contains(textLower, Lower(t)) then FoundSkills(init, textLower) + [t] else FoundSkills(init, textLower)
  }

  /** The skills found keep the vocabulary's order. */
  lemma {:induction false} FoundSkillsInOrder(vocabulary: seq<string>, textLower: string)
    ensures Subseq(FoundSkills(vocabulary, textLower), vocabulary)
  {
    if vocabulary != [] {
      var init, t := vocabulary[..|vocabulary| - 1], vocabulary[|vocabulary| - 1];
      assert vocabulary == init + [t];
      FoundSkillsInOrder(init, textLower);
      SubseqSnoc(FoundSkills(init, textLower), init, t);
    }
  }

  /** The skills loop of `_extract_resume_data`. */
  method CollectSkills(text: string) returns (found: seq<string>)
    ensures found == FoundSkills(SkillVocabulary, Lower(text))
  {
    found := [];
    var textLower := Lower(text);
    for i := 0 to |SkillVocabulary|
      invariant found == FoundSkills(SkillVocabulary[..i], textLower)
    {
      assert SkillVocabulary[..i + 1][..i] == SkillVocabulary[..i];
      if Contains(textLower, Lower(SkillVocabulary[i])) {
        found := found + [SkillVocabulary[i]];
      }
    }
    assert SkillVocabulary[..|SkillVocabulary|] == SkillVocabulary;
  }

  // -------------------------------------------------------------- sections

  /** Header `k` is the first of `names` whose pattern matches. */
  predicate FirstHit(text: string, names: seq<string>, search: (string, string) -> Option<string>, k: nat)
  {
    && k < |names|
    && search(text, names[k]).Some?
    && forall j :: 0 <= j < k ==> search(text, names[j]).None?
  }

  /** `_extract_section`: the stripped capture of the first header name that matches. */
  function FirstSection(text: string, names: seq<string>, search: (string, string) -> Option<string>): Option<string>
  {
    if names == [] then None
    else match search(text, names[0])
      case Some(capture) => Some(Strip(capture))
      case None => FirstSection(text, names[1..], search)
  }

  /** No section is found exactly when no name matches; otherwise the first
      matching name supplies the section, and later names are not consulted. */
  lemma {:induction false} FirstSectionSpec(text: string, names: seq<string>, search: (string, string) -> Option<string>)
    ensures FirstSection(text, names, search).None? <==> forall k :: 0 <= k < |names| ==> search(text, names[k]).None?
    ensures FirstSection(text, names, search).Some? ==>
      exists k: nat :: FirstHit(text, names, search, k)
        && FirstSection(text, names, search).value == Strip(search(text, names[k]).value)
  {
    if names != [] && search(text, names[0]).None? {
      FirstSectionSpec(text, names[1..], search);
      if FirstSection(text, names, search).Some? {
        var k: nat :| FirstHit(text, names[1..], search, k)
          && FirstSection(text, names[1..], search).value == Strip(search(text, names[1..][k]).value);
        assert FirstHit(text, names, search, k + 1);
      }
      if forall k :: 0 <= k < |names| - 1 ==> search(text, names[1..][k]).None? {
        forall k | 0 <= k < |names| ensures search(text, names[k]).None? {
          if k > 0 {
            assert names[k] == names[1..][k - 1];
          }
        }
      }
    } else if names != [] {
      assert FirstHit(text, names, search, 0);
    }
  }

  /** The loop of `_extract_section`, returning at the first match. */
  method ExtractSection(text: string, names: seq<string>, search: (string, string) -> Option<string>) returns (section: Option<string>)
    ensures section == FirstSection(text, names, search)
  {
    for i := 0 to |names|
      invariant FirstSection(text, names, search) == FirstSection(text, names[i..], search)
    {
      assert names[i..][1..] == names[i + 1..];
      var found := search(text, names[i]);
      if found.Some? {
        return Some(Strip(found.value));
      }
    }
    return None;
  }

  /** Every block, stripped. */
  function StripAll(blocks: seq<string>): (r: seq<string>)
    ensures |r| == |blocks| && forall i :: 0 <= i < |blocks| ==> r[i] == Strip(blocks[i])
  {
    seq(|blocks|, i requires 0 <= i < |blocks| => Strip(blocks[i]))
  }

  /** The stripped blocks longer than `minLength`, in order. */
  function KeptEntries(blocks: seq<string>, minLength: nat): (r: seq<string>)
    ensures |r| <= |blocks|
    ensures forall e :: e in r ==> |e| > minLength
  {
    if blocks == [] then []
    else
      var init, entry := blocks[..|blocks| - 1], Strip(blocks[|blocks| - 1]);
      if |entry| > minLength then KeptEntries(init, minLength) + [entry] else KeptEntries(init, minLength)
  }

  /** The kept entries are stripped blocks, in block order, and every block
      whose stripped text is longer than `minLength` is kept, as many times
      as it occurs. */
  lemma {:induction false} KeptEntriesInOrder(blocks: seq<string>, minLength: nat)
    ensures Subseq(KeptEntries(blocks, minLength), StripAll(blocks))
    ensures forall i :: 0 <= i < |blocks| && |Strip(blocks[i])| > minLength ==> Strip(blocks[i]) in KeptEntries(blocks, minLength)
    ensures forall e :: multiset(KeptEntries(blocks, minLength))[e] == if |e| > minLength then multiset(StripAll(blocks))[e] else 0
  {
    KeptEntriesCount(blocks, minLength);
    forall i | 0 <= i < |blocks| && |Strip(blocks[i])| > minLength ensures Strip(blocks[i]) in KeptEntries(blocks, minLength) {
      assert StripAll(blocks)[i] == Strip(blocks[i]);
      assert multiset(StripAll(blocks))[Strip(blocks[i])] > 0;
    }
    if blocks != [] {
      var init := blocks[..|blocks| - 1];
      KeptEntriesInOrder(init, minLength);
      StripAllSnoc(blocks);
      SubseqSnoc(KeptEntries(init, minLength), StripAll(init), Strip(blocks[|blocks| - 1]));
    }
  }

  /** Stripping every block of a text ending in `last` ends in `last` stripped. */
  lemma StripAllSnoc(blocks: seq<string>)
    requires blocks != []
    ensures StripAll(blocks) == StripAll(blocks[..|blocks| - 1]) + [Strip(blocks[|blocks| - 1])]
  {
    var init := blocks[..|blocks| - 1];
    forall i | 0 <= i < |blocks| ensures StripAll(blocks)[i] == (StripAll(init) + [Strip(blocks[|blocks| - 1])])[i] {
      if i < |init| {
        assert blocks[i] == init[i];
      }
    }
  }

  /** Each stripped block longer than `minLength` is kept exactly as often as it occurs. */
  lemma {:induction false} KeptEntriesCount(blocks: seq<string>, minLength: nat)
    ensures forall e :: multiset(KeptEntries(blocks, minLength))[e] == if |e| > minLength then multiset(StripAll(blocks))[e] else 0
  {
    if blocks != [] {
      var init, last := blocks[..|blocks| - 1], Strip(blocks[|blocks| - 1]);
      KeptEntriesCount(init, minLength);
      StripAllSnoc(blocks);
      assert multiset(StripAll(blocks)) == multiset(StripAll(init)) + multiset{last};
      if |last| > minLength {
        assert KeptEntries(blocks, minLength) == KeptEntries(init, minLength) + [last];
        assert multiset(KeptEntries(blocks, minLength)) == multiset(KeptEntries(init, minLength)) + multiset{last};
      }
    }
  }

  /** The entries of a section: of its first `limit` blank-line separated
      blocks, those whose stripped text is longer than `minLength`. A missing
      or empty section has none. */
  function SectionEntries(section: Option<string>, limit: nat, minLength: nat): seq<string>
  {
    if section.Some? && section.value != "" then KeptEntries(PyPrefix(SplitBlocks(section.value), limit), minLength)
    else []
  }

  /** At most `limit` entries, each longer than `minLength`, each a stripped
      block from among the first `limit` blocks, in order; each of those
      blocks longer than `minLength` once stripped is an entry as many times
      as it occurs among them. */
  lemma SectionEntriesSpec(section: Option<string>, limit: nat, minLength: nat)
    ensures |SectionEntries(section, limit, minLength)| <= limit
    ensures forall e :: e in SectionEntries(section, limit, minLength) ==> |e| > minLength
    ensures section.Some? && section.value != "" ==>
      Subseq(SectionEntries(section, limit, minLength), StripAll(PyPrefix(SplitBlocks(section.value), limit)))
    ensures section.Some? && section.value != "" ==>
      var blocks := PyPrefix(SplitBlocks(section.value), limit);
      forall i :: 0 <= i < |blocks| && |Strip(blocks[i])| > minLength ==> Strip(blocks[i]) in SectionEntries(section, limit, minLength)
    ensures section.Some? && section.value != "" ==>
      var blocks := PyPrefix(SplitBlocks(section.value), limit);
      forall e :: multiset(SectionEntries(section, limit, minLength))[e] == if |e| > minLength then multiset(StripAll(blocks))[e] else 0
  {
    if section.Some? && section.value != "" {
      KeptEntriesInOrder(PyPrefix(SplitBlocks(section.value), limit), minLength);
    }
  }

  /** The experience or education loop of `_extract_resume_data`. */
  method CollectEntries(section: Option<string>, limit: nat, minLength: nat) returns (entries: seq<string>)
    ensures entries == SectionEntries(section, limit, minLength)
  {
    entries := [];
    if section.Some? && section.value != "" {
      var items := PyPrefix(SplitBlocks(section.value), limit);
      for i := 0 to |items|
        invariant entries == KeptEntries(items[..i], minLength)
      {
        assert items[..i + 1][..i] == items[..i];
        var item := Strip(items[i]);
        if |item| > minLength {
          entries := entries + [item];
        }
      }
      assert items[..|items|] == items;
    }
  }

  /** `summary_section[:500]` when the section is found and not empty. */
  function SummaryOf(section: Option<string>): (summary: Option<string>)
    ensures summary.None? <==> section.None? || section.value == ""
    ensures summary.Some? ==> summary.value <= section.value && 0 < |summary.value| <= SummaryLimit
    ensures summary.Some? ==> |summary.value| == Min(|section.value|, SummaryLimit)
    ensures summary.Some? && |section.value| <= SummaryLimit ==> summary.value == section.value
  {
    if section.Some? && section.value != "" then Some(PyPrefix(section.value, SummaryLimit)) else None
  }

  // ---------------------------------------------------------------- record

  /** The record `_extract_resume_data` builds from `text`. */
  function Structure(text: string, p: Patterns): ResumeData
  {
    ResumeData(
      name := ExtractName(text),
      email := FirstFound(p.emails(text)),
      phone := FirstFound(p.phones(text)),
      skills := FoundSkills(SkillVocabulary, Lower(text)),
      experience := SectionEntries(FirstSection(text, ExperienceHeaders, p.section), MaxExperienceBlocks, MinExperienceLength),
      education := SectionEntries(FirstSection(text, EducationHeaders, p.section), MaxEducationBlocks, MinEducationLength),
      summary := SummaryOf(FirstSection(text, SummaryHeaders, p.section)),
      rawText := text)
  }

  /** `_extract_resume_data`. */
  method ExtractResumeData(text: string, p: Patterns) returns (resume: ResumeData)
    ensures resume == Structure(text, p)
  {
    var emails := p.emails(text);
    var email := FirstFound(emails);
    var phones := p.phones(text);
    var phone := FirstFound(phones);
    var name := ExtractName(text);
    var foundSkills := CollectSkills(text);
    var experienceSection := ExtractSection(text, ExperienceHeaders, p.section);
    var experience := CollectEntries(experienceSection, MaxExperienceBlocks, MinExperienceLength);
    var educationSection := ExtractSection(text, EducationHeaders, p.section);
    var education := CollectEntries(educationSection, MaxEducationBlocks, MinEducationLength);
    var summarySection := ExtractSection(text, SummaryHeaders, p.section);
    var summary := SummaryOf(summarySection);
    resume := ResumeData(name, email, phone, foundSkills, experience, education, summary, text);
  }

  /** The bounds and shapes of a structured record: the raw text unchanged,
      the skills a vocabulary subsequence, at most 5 experience entries longer
      than 20 characters, at most 3 education entries longer than 10, and a
      summary of at most 500 characters. */
  lemma StructureSpec(text: string, p: Patterns)
    ensures var r := Structure(text, p);
      && r.rawText == text
      && Subseq(r.skills, SkillVocabulary)
      && (forall s :: s in r.skills <==> s in SkillVocabulary && Contains(Lower(text), Lower(s)))
      && |r.experience| <= MaxExperienceBlocks && (forall e :: e in r.experience ==> |e| > MinExperienceLength)
      && |r.education| <= MaxEducationBlocks && (forall e :: e in r.education ==> |e| > MinEducationLength)
      && (r.summary.Some? ==> 0 < |r.summary.value| <= SummaryLimit)
      && (r.name.Some? ==> |r.name.value| < NameLimit && '@' !in r.name.value)
  {
    FoundSkillsInOrder(SkillVocabulary, Lower(text));
    SectionEntriesSpec(FirstSection(text, ExperienceHeaders, p.section), MaxExperienceBlocks, MinExperienceLength);
    SectionEntriesSpec(FirstSection(text, EducationHeaders, p.section), MaxEducationBlocks, MinEducationLength);
  }

  /** A section found in an empty text is empty. */
  lemma EmptyTextSection(names: seq<string>, p: Patterns)
    requires SoundPatterns(p)
    ensures FirstSection("", names, p.section).None? || FirstSection("", names, p.section).value == ""
  {
    FirstSectionSpec("", names, p.section);
    if FirstSection("", names, p.section).Some? {
      var k: nat :| FirstHit("", names, p.section, k)
        && FirstSection("", names, p.section).value == Strip(p.section("", names[k]).value);
      OnlyEmptyInEmpty(p.section("", names[k]).value);
    }
  }

  /** Nothing but the empty string occurs in the empty text. */
  lemma OnlyEmptyInEmpty(p: string)
    requires Contains("", p)
    ensures p == ""
  {
    ContainsIffOccurs("", p);
  }

  /** When no term occurs, no skill is found. */
  lemma {:induction false} NothingFound(vocabulary: seq<string>, textLower: string)
    requires forall i :: 0 <= i < |vocabulary| ==> !Contains(textLower, Lower(vocabulary[i]))
    ensures FoundSkills(vocabulary, textLower) == []
  {
    if vocabulary != [] {
      NothingFound(vocabulary[..|vocabulary| - 1], textLower);
    }
  }

  /** No skill term is empty, so none occurs in an empty text. */
  lemma NoSkillsInEmptyText()
    ensures FoundSkills(SkillVocabulary, Lower("")) == []
  {
    assert Lower("") == "";
    forall i | 0 <= i < |SkillVocabulary| ensures !Contains("", Lower(SkillVocabulary[i])) {
      if Contains("", Lower(SkillVocabulary[i])) {
        OnlyEmptyInEmpty(Lower(SkillVocabulary[i]));
      }
    }
    NothingFound(SkillVocabulary, "");
  }

  /** Structuring an empty text: no contact fields, skills, entries or
      summary, and the raw text empty; but the name is the empty first line,
      since it is short and has no '@'. */
  lemma StructureOfEmptyText(p: Patterns)
    requires SoundPatterns(p)
    ensures Structure("", p) == ResumeData(Some(""), None, None, [], [], [], None, "")
  {
    assert FirstLine("") == "";
    if |p.emails("")| > 0 {
      OnlyEmptyInEmpty(p.emails("")[0]);
    }
    assert !HasDigit("");
    NoSkillsInEmptyText();
    EmptyTextSection(ExperienceHeaders, p);
    EmptyTextSection(EducationHeaders, p);
    EmptyTextSection(SummaryHeaders, p);
  }

  /** The position of the last `c` in `s` is the `c` with no `c` after it. */
  lemma LastIndexOfIs(s: string, c: char, i: nat)
    requires i < |s| && s[i] == c
    requires forall k :: i < k < |s| ==> s[k] != c
    ensures LastIndexOf(s, c) == i
  {
  }

  // ------------------------------------------------------ format dispatch

  /** The text extractors the parser dispatches to. */
  datatype DocumentFormat = Pdf | Word | PlainText

  /** Why parsing fails: the extension is not supported, or the extractor
      for the file raised (a broken PDF, a `.doc` file python-docx cannot
      open, a `.txt` file that is not UTF-8). */
  datatype ParseError = UnsupportedFormat(extension: string) | ExtractionFailed(message: string)

  /** The position of the last `c` in `s`, or -1. */
  function LastIndexOf(s: string, c: char): (i: int)
    ensures -1 <= i < |s|
    ensures i >= 0 ==> s[i] == c
    ensures forall k :: i < k < |s| ==> s[k] != c
  {
    if |s| == 0 then -1
    else if s[|s| - 1] == c then |s| - 1
    else LastIndexOf(s[..|s| - 1], c)
  }

  /** `os.path.splitext(path)[1]` with '/' as separator: from the last '.' of
      the final path component, unless that component is only dots up to it
      (so ".bashrc" has no extension). */
  function Extension(path: string): (ext: string)
    ensures |ext| <= |path| && ext == path[|path| - |ext|..]
    ensures ext == [] || ext[0] == '.'
    ensures forall k :: 0 < k < |ext| ==> ext[k] != '.' && ext[k] != '/'
  {
    var sepIndex := LastIndexOf(path, '/');
    var dotIndex := LastIndexOf(path, '.');
    if dotIndex > sepIndex && exists k :: sepIndex + 1 <= k < dotIndex && path[k] != '.' then path[dotIndex..]
    else ""
  }

  /** `path` has an extension starting at its '.' at `d`: no '.' or '/'
      follows it, and some character of the final path component before it
      is not a dot. */
  ghost predicate ExtensionStartsAt(path: string, d: int)
  {
    && 0 <= d < |path| && path[d] == '.'
    && (forall k :: d < k < |path| ==> path[k] != '.' && path[k] != '/')
    && exists k :: 0 <= k < d && path[k] != '.' && path[k] != '/' && forall m :: k < m < d ==> path[m] != '/'
  }

  /** `splitext` yields an extension exactly when the path has one, and the
      extension is then everything from that '.' on. */
  lemma ExtensionSpec(path: string)
    ensures Extension(path) != [] <==> exists d :: ExtensionStartsAt(path, d)
    ensures forall d :: ExtensionStartsAt(path, d) ==> Extension(path) == path[d..]
  {
    var sepIndex := LastIndexOf(path, '/');
    var dotIndex := LastIndexOf(path, '.');
    forall d | ExtensionStartsAt(path, d) ensures Extension(path) == path[d..] {
      LastIndexOfIs(path, '.', d);
      assert sepIndex < d;
      var k :| 0 <= k < d && path[k] != '.' && path[k] != '/' && forall m :: k < m < d ==> path[m] != '/';
      assert sepIndex + 1 <= k;
    }
    if Extension(path) != [] {
      var k :| sepIndex + 1 <= k < dotIndex && path[k] != '.';
      assert ExtensionStartsAt(path, dotIndex);
    }
  }

  /** The extractor for a file name, by its lower-cased extension. */
  function FormatOf(filename: string): (r: Result<DocumentFormat, ParseError>)
    ensures r.Failure? <==> Lower(Extension(filename)) !in SupportedExtensions
    ensures r.Failure? ==> r.error == UnsupportedFormat(Lower(Extension(filename)))
    ensures r == Success(Pdf) <==> Lower(Extension(filename)) == ".pdf"
    ensures r == Success(Word) <==> Lower(Extension(filename)) in [".docx", ".doc"]
    ensures r == Success(PlainText) <==> Lower(Extension(filename)) == ".txt"
  {
    var ext := Lower(Extension(filename));
    if ext == ".pdf" then Success(Pdf)
    else if ext == ".docx" || ext == ".doc" then Success(Word)
    else if ext == ".txt" then Success(PlainText)
    else Failure(UnsupportedFormat(ext))
  }

  const SupportedExtensions: seq<string> := [".pdf", ".docx", ".doc", ".txt"]

  /** `parse_resume`: a file id and the structured record of the text the
      extractor for the file's format yields; the unsupported-format error;
      or the error the extractor raised. The id generator and the extractors
      are supplied by the caller. */
  method ParseResume(filename: string, fileId: string, extractText: DocumentFormat -> Result<string, string>, p: Patterns)
    returns (r: Result<(string, ResumeData), ParseError>)
    ensures FormatOf(filename).Failure? ==> r == Failure(UnsupportedFormat(Lower(Extension(filename))))
    ensures FormatOf(filename).Success? && extractText(FormatOf(filename).value).Failure? ==>
      r == Failure(ExtractionFailed(extractText(FormatOf(filename).value).error))
    ensures FormatOf(filename).Success? && extractText(FormatOf(filename).value).Success? ==>
      r == Success((fileId, Structure(extractText(FormatOf(filename).value).value, p)))
  {
    var format := FormatOf(filename);
    if format.Failure? {
      return Failure(format.error);
    }
    var text := extractText(format.value);
    if text.Failure? {
      return Failure(ExtractionFailed(text.error));
    }
    var resumeData := ExtractResumeData(text.value, p);
    return Success((fileId, resumeData));
  }

  /** Dispatch ignores case. */
  lemma UpperCaseExtension()
    ensures FormatOf("CV.PDF") == Success(Pdf)
  {
    LastIndexOfIs("CV.PDF", '.', 2);
    assert "CV.PDF"[0] != '.';
    assert Extension("CV.PDF") == ".PDF";
    assert Lower(".PDF") == ".pdf";
  }

  /** Only the last extension counts. */
  lemma LastExtensionCounts()
    ensures FormatOf("cv.final.txt") == Success(PlainText)
  {
    LastIndexOfIs("cv.final.txt", '.', 8);
    assert "cv.final.txt"[0] != '.';
    assert Extension("cv.final.txt") == ".txt";
    assert Lower(".txt") == ".txt";
  }

  /** A name that is only a leading dot and a word, like ".pdf", has no
      extension, so it is refused. */
  lemma HiddenFileRefused()
    ensures FormatOf(".pdf") == Failure(UnsupportedFormat(""))
  {
    LastIndexOfIs(".pdf", '.', 0);
    assert Extension(".pdf") == "";
    assert Lower("") == "";
  }

  /** Any other extension is refused, and the error names it. */
  lemma OtherExtensionRefused()
    ensures FormatOf("cv.odt") == Failure(UnsupportedFormat(".odt"))
  {
    LastIndexOfIs("cv.odt", '.', 2);
    assert "cv.odt"[0] != '.';
    assert Extension("cv.odt") == ".odt";
    assert Lower(".odt") == ".odt";
  }
}
