/** The full prompts sent to the model, which also feed the cache key. The long fixed
    instruction prose of both templates is kept as named constants whose wording is
    abbreviated; everything interpolated into the templates is modelled as written. */
module Prompts {
  import opened Outcomes
  import opened Text
  import opened Profile

  /** The request's optional `coverLetterData`. A field that is missing or `null` is the
      empty string (both are falsy); `language` is `None` when missing, so that its
      `'english'` default applies. */
  datatype CoverData = CoverData(hiringManager: string, company: string, companyAddress: string, language: Option<string>)

  const DateLine: string := "[Today's Date]"

  // Fixed template prose, abbreviated.
  const CvTemplate: string := "You are an expert resume writer ... (CV schema and requirements) ...\n\nCandidate master.json:\n"
  const CoverRole: string := "\n\nYou are an expert cover letter writer ... honestly represents "
  const CoverRules: string := " based ONLY on their actual experience ... (output format and critical instructions) ..."
  const CoverApproach: string := "\n\nYour approach should be: ... (approach and closing instruction) ..."

  // The cover template's fixed section lines, as written.
  const HeaderIntro: string := "\n\nLetter Header (use actual values only, omit placeholders):\n"
  const GreetingIntro: string := "\n\nThen continue with:\n"
  const BodyPlaceholder: string := "\n\n[Body of cover letter highlighting ACTUAL experience and honest parallels to the role]\n\n"
  const ProfileIntro: string := "\n\nCandidate's Actual Profile Data:\n"
  const JobIntro: string := "\n\nJob Opportunity Description (for finding parallels, NOT for exaggeration):\n"

  // The language-dependent wording.
  const PortugueseInstruction: string := "Write ONLY in Portuguese. Use Portuguese greetings and closings."
  const EnglishInstruction: string := "Write ONLY in English. Use English greetings and closings."
  const PortugueseNameHint: string := " [Use \"Senhor(a)\" if no name provided, otherwise use actual name],"
  const EnglishNameHint: string := " [Use \"Hiring Manager\" if no name provided, otherwise use actual name],"

  /** The effective language: the `'english'` default applies only when it is missing. */
  function Language(cd: Option<CoverData>): string {
    match cd
    case None => "english"
    case Some(d) => d.language.GetOr("english")
  }

  /** Only exactly `portuguese` selects the Portuguese wording. */
  predicate Portuguese(cd: Option<CoverData>) {
    Language(cd) == "portuguese"
  }

  function LanguageInstruction(cd: Option<CoverData>): string {
    if Portuguese(cd) then PortugueseInstruction
    else EnglishInstruction
  }

  function Greeting(cd: Option<CoverData>): string {
    if Portuguese(cd) then "Prezado(a)" + PortugueseNameHint
    else "Dear" + EnglishNameHint
  }

  function Closing(cd: Option<CoverData>): string {
    if Portuguese(cd) then "Atenciosamente," else "Sincerely,"
  }

  /** The recipient fields after `coverLetterData || {}` and the `null` defaults. */
  function Recipient(cd: Option<CoverData>): CoverData {
    cd.GetOr(CoverData("", "", "", None))
  }

  /** `x + '\n'` when `x` is present, else nothing. */
  function PresentLine(x: string): string {
    if Truthy(x) then x + "\n" else ""
  }

  /** The letter header, assembled step by step: the sender's location line when there is
      one, the date placeholder, then, only if some recipient field is present, a block
      of the present fields between two blank lines. */
  function LetterHeader(location: string, cd: Option<CoverData>): string {
    var d := Recipient(cd);
    var header := PresentLine(location) + DateLine + "\n";
    if Truthy(d.hiringManager) || Truthy(d.company) || Truthy(d.companyAddress) then
      header + "\n" + PresentLine(d.hiringManager) + PresentLine(d.company) + PresentLine(d.companyAddress) + "\n"
    else
      header
  }

  /** `[x]` when `x` is present, else nothing. */
  function Present(x: string): seq<string> {
    if Truthy(x) then [x] else []
  }

  /** The header line by line: location, date, then the recipient block, in that order. */
  function HeaderLines(location: string, cd: Option<CoverData>): seq<string> {
    var d := Recipient(cd);
    var recipient := Present(d.hiringManager) + Present(d.company) + Present(d.companyAddress);
    Present(location) + [DateLine] + (if recipient == [] then [] else [""] + recipient + [""])
  }

  lemma LinesPresent(x: string)
    ensures Lines(Present(x)) == PresentLine(x)
  {
    if Truthy(x) {
      assert Lines([x]) == x + "\n" + Lines([]);
    }
  }

  /** The assembled header is exactly its lines, each ended by a newline. */
  lemma HeaderIsLines(location: string, cd: Option<CoverData>)
    ensures LetterHeader(location, cd) == Lines(HeaderLines(location, cd))
  {
    var d := Recipient(cd);
    var (a, b, c) := (Present(d.hiringManager), Present(d.company), Present(d.companyAddress));
    var recipient := a + b + c;
    LinesPresent(location);
    LinesPresent(d.hiringManager);
    LinesPresent(d.company);
    LinesPresent(d.companyAddress);
    assert Lines([DateLine]) == DateLine + "\n";
    assert Lines([""]) == "\n";
    LinesAppend(Present(location), [DateLine]);
    var top := Lines(Present(location) + [DateLine]);
    assert top == PresentLine(location) + DateLine + "\n";
    if recipient == [] {
      assert Present(location) + [DateLine] + [] == Present(location) + [DateLine];
    } else {
      LinesAppend(a, b);
      LinesAppend(a + b, c);
      var mid := Lines(recipient);
      assert mid == PresentLine(d.hiringManager) + PresentLine(d.company) + PresentLine(d.companyAddress);
      LinesAppend([""], recipient);
      LinesAppend([""] + recipient, [""]);
      var block := Lines([""] + recipient + [""]);
      assert block == "\n" + mid + "\n";
      LinesAppend(Present(location) + [DateLine], [""] + recipient + [""]);
      assert HeaderLines(location, cd) == (Present(location) + [DateLine]) + ([""] + recipient + [""]);
      assert Lines(HeaderLines(location, cd)) == top + block;
      var (pl, ph, pc, pa) := (PresentLine(location), PresentLine(d.hiringManager), PresentLine(d.company), PresentLine(d.companyAddress));
      assert Truthy(d.hiringManager) || Truthy(d.company) || Truthy(d.companyAddress);
      assert LetterHeader(location, cd) == pl + DateLine + "\n" + "\n" + ph + pc + pa + "\n";
      var t := pl + DateLine + "\n" + "\n";
      AppendAssoc(top, "\n" + mid, "\n");
      AppendAssoc(top, "\n", mid);
      AppendAssoc(t, ph + pc, pa);
      AppendAssoc(t, ph, pc);
      assert top + block == t + ph + pc + pa + "\n";
    }
  }

  /** Every header line is the location, the date placeholder, a blank line or a
      recipient field. */
  lemma HeaderLinesFrom(location: string, cd: Option<CoverData>)
    ensures var d := Recipient(cd);
      forall x :: x in HeaderLines(location, cd) ==>
        x in [location, DateLine, "", d.hiringManager, d.company, d.companyAddress]
  {
  }

  /** Read back line by line, the header gives the location (when present), the date
      placeholder and, only when some recipient field is present, a blank line, the
      present fields in the order manager, company, address, and another blank line. */
  lemma {:induction false} HeaderReadsBack(location: string, cd: Option<CoverData>)
    requires '\n' !in location
    requires var d := Recipient(cd); '\n' !in d.hiringManager && '\n' !in d.company && '\n' !in d.companyAddress
    ensures Split(LetterHeader(location, cd), '\n') == HeaderLines(location, cd) + [""]
    ensures var d := Recipient(cd);
      (Truthy(d.hiringManager) || Truthy(d.company) || Truthy(d.companyAddress)) <==>
      |HeaderLines(location, cd)| > |Present(location)| + 1
  {
    HeaderIsLines(location, cd);
    var xs := HeaderLines(location, cd);
    HeaderLinesFrom(location, cd);
    assert '\n' !in DateLine;
    forall i | 0 <= i < |xs| ensures '\n' !in xs[i] {
      assert xs[i] in xs;
    }
    LinesSplit(xs);
  }

  /** The part of the CV prompt before the client's request. */
  function CvHead(m: Master): string {
    CvTemplate + m.compactJson + "\n\nClient request:\n"
  }

  const CvTail: string := "\n\nRespond only with the valid JSON object matching the schema above."

  /** The CV prompt: the fixed template around the compact master profile and the
      client's request. */
  function BuildPrompt(m: Master, clientPrompt: string): (r: string)
    ensures |r| == |CvHead(m)| + |clientPrompt| + |CvTail|
    ensures r[..|CvHead(m)|] == CvHead(m) && r[|r| - |CvTail|..] == CvTail
    ensures r[|CvHead(m)|..|r| - |CvTail|] == clientPrompt
  {
    FrameMiddle(CvHead(m), clientPrompt, CvTail);
    CvHead(m) + clientPrompt + CvTail
  }

  /** Everything of the cover prompt after the language instruction and before the
      client's request: the candidate's name, the header, greeting and closing, and the
      pretty-printed profile. */
  function CoverBody(m: Master, cd: Option<CoverData>): string {
    var name := m.personal.firstName + " " + m.personal.lastName;
    CoverRole + name + CoverRules
    + HeaderIntro
    + LetterHeader(m.personal.location, cd)
    + GreetingIntro + Greeting(cd)
    + BodyPlaceholder
    + Closing(cd) + "\n" + name
    + ProfileIntro + m.prettyJson
    + JobIntro
  }

  /** The cover-letter prompt: the language instruction first, then the body, the
      client's request and the closing instructions. */
  function BuildCoverPrompt(m: Master, clientPrompt: string, cd: Option<CoverData>): (r: string)
    ensures |r| == |LanguageInstruction(cd)| + |CoverBody(m, cd)| + |clientPrompt| + |CoverApproach|
    ensures r[|LanguageInstruction(cd)| + |CoverBody(m, cd)|..|r| - |CoverApproach|] == clientPrompt
    ensures r[|r| - |CoverApproach|..] == CoverApproach
  {
    var (li, body) := (LanguageInstruction(cd), CoverBody(m, cd));
    FrameMiddle(li + body, clientPrompt, CoverApproach);
    AppendAssoc(li, body + clientPrompt, CoverApproach);
    AppendAssoc(li, body, clientPrompt);
    li + CoverRequest(m, clientPrompt, cd)
  }

  /** Everything of the cover prompt after the language instruction. */
  function CoverRequest(m: Master, clientPrompt: string, cd: Option<CoverData>): string {
    CoverBody(m, cd) + clientPrompt + CoverApproach
  }

  /** The language is English unless it is exactly `portuguese`, and the greeting and
      closing follow it. */
  lemma LanguageChoice(cd: Option<CoverData>)
    ensures (cd.None? || cd.value.language.None?) ==> Language(cd) == "english" && !Portuguese(cd)
    ensures Portuguese(cd) <==> cd.Some? && cd.value.language == Some("portuguese")
    ensures Portuguese(cd) ==> Closing(cd) == "Atenciosamente," && Greeting(cd)[..10] == "Prezado(a)"
    ensures !Portuguese(cd) ==> Closing(cd) == "Sincerely," && Greeting(cd)[..4] == "Dear"
  {
    if Portuguese(cd) {
      PrefixOfAppend("Prezado(a)", PortugueseNameHint);
    } else {
      PrefixOfAppend("Dear", EnglishNameHint);
    }
  }

  /** The cover prompt opens with the language instruction. */
  lemma CoverOpensWithInstruction(m: Master, clientPrompt: string, cd: Option<CoverData>)
    ensures var p := BuildCoverPrompt(m, clientPrompt, cd);
      |LanguageInstruction(cd)| <= |p| && p[..|LanguageInstruction(cd)|] == LanguageInstruction(cd)
  {
    PrefixOfAppend(LanguageInstruction(cd), CoverRequest(m, clientPrompt, cd));
  }

  /** For a fixed profile, different client requests give different CV prompts. */
  lemma PromptsDistinguishRequests(m: Master, p1: string, p2: string)
    ensures BuildPrompt(m, p1) == BuildPrompt(m, p2) ==> p1 == p2
  {
    if BuildPrompt(m, p1) == BuildPrompt(m, p2) {
      FrameInjective(CvHead(m), p1, p2, CvTail);
    }
  }

  /** For a fixed profile and cover data, different client requests give different
      cover-letter prompts. */
  lemma CoverPromptsDistinguishRequests(m: Master, p1: string, p2: string, cd: Option<CoverData>)
    ensures BuildCoverPrompt(m, p1, cd) == BuildCoverPrompt(m, p2, cd) ==> p1 == p2
  {
    if BuildCoverPrompt(m, p1, cd) == BuildCoverPrompt(m, p2, cd) {
      var li := LanguageInstruction(cd);
      var (q1, q2) := (CoverRequest(m, p1, cd), CoverRequest(m, p2, cd));
      assert q1 == (li + q1)[|li|..] && q2 == (li + q2)[|li|..];
      FrameInjective(CoverBody(m, cd), p1, p2, CoverApproach);
    }
  }
}
