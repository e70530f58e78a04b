/**
 The reply post-processing and error handling of the two operations of the
 benefits assistant's AI service (`src/services/aiService.js`):

 - `classifyHealthNeed` asks the remote model for a category name and maps the
   reply onto one of four fixed categories by case-insensitive substring search,
   falling back to OPD; every failure reaches the caller.
 - `generateActionPlan` asks the remote model for a numbered 3-step plan, parses
   the numbered lines out of the reply and, when it does not yield exactly three
   steps or the request or its reply fails, returns a fixed plan.

 The request to the remote model is not modelled: its outcome is the parameter
 `response`, and the prompt that would be sent is not built.
 */
module AiService {
  import opened JsString
  import opened JsArray

  // ---------------------------------------------------------------------------
  // Categories
  // ---------------------------------------------------------------------------

  datatype Category = Dental | MentalHealth | Vision | OPD

  /** The category's name as the service returns it. */
  function Name(c: Category): string {
    match c
    case Dental => "Dental"
    case MentalHealth => "Mental Health"
    case Vision => "Vision"
    case OPD => "OPD"
  }

  /** The order in which the category names are searched for in the reply. */
  const Categories: seq<Category> := [Dental, MentalHealth, Vision, OPD]

  /** The position of a category in the search order. */
  function Rank(c: Category): (k: nat)
    ensures k < |Categories| && Categories[k] == c
  {
    match c
    case Dental => 0
    case MentalHealth => 1
    case Vision => 2
    case OPD => 3
  }

  /** The lower-cased reply contains the lower-cased category name. */
  predicate Mentions(categoryText: string, c: Category) {
    Includes(Lower(categoryText), Lower(Name(c)))
  }

  /** A category is mentioned exactly when its lower-cased name occurs at some position of the lower-cased reply. */
  lemma MentionsOccurs(categoryText: string, c: Category)
    ensures Mentions(categoryText, c) <==> exists i :: OccursAt(Lower(categoryText), Lower(Name(c)), i)
  {
  }

  /** The search ignores case: lower-casing the reply first does not change which categories it mentions. */
  lemma MentionsIgnoresCase(categoryText: string, c: Category)
    ensures Mentions(Lower(categoryText), c) <==> Mentions(categoryText, c)
  {
    LowerIdempotent(categoryText);
  }

  /**
   The category of an already trimmed reply: the first category in search order
   that the reply mentions, and OPD when it mentions none. The result is
   mentioned unless nothing is, and no category searched before it is mentioned.
   */
  function MatchCategory(categoryText: string): (r: Category)
    ensures Mentions(categoryText, r) || (r == OPD && forall c :: !Mentions(categoryText, c))
    ensures forall c :: Rank(c) < Rank(r) ==> !Mentions(categoryText, c)
  {
    FirstInOrder(c => Mentions(categoryText, c))
  }

  /** The first category in search order that satisfies `p`, and OPD when none does. */
  function FirstInOrder(p: Category -> bool): (r: Category)
    ensures p(r) || (r == OPD && forall c :: !p(c))
    ensures forall c :: Rank(c) < Rank(r) ==> !p(c)
  {
    var found := Find(p, Categories);
    assert forall c :: Categories[Rank(c)] == c;
    match found
    case Some(c) => c
    case None =>
      assert forall c :: !p(c) by {
        forall c ensures !p(c) {
          assert Categories[Rank(c)] == c;
        }
      }
      OPD
  }

  /** Both directions of the priority rule: `c` is the category exactly when it is the first one mentioned, or nothing is mentioned and `c` is OPD. */
  lemma MatchCategoryIff(categoryText: string, c: Category)
    ensures MatchCategory(categoryText) == c <==>
      ((Mentions(categoryText, c) && forall d :: Rank(d) < Rank(c) ==> !Mentions(categoryText, d))
       || (c == OPD && forall d :: !Mentions(categoryText, d)))
  {
    var r := MatchCategory(categoryText);
    if Mentions(categoryText, c) && (forall d :: Rank(d) < Rank(c) ==> !Mentions(categoryText, d)) {
      assert Mentions(categoryText, r);
      assert Rank(r) == Rank(c);
    }
  }

  /** A reply that mentions "dental" in any case is classified Dental, whatever else it mentions. */
  lemma DentalWins(categoryText: string)
    requires Mentions(categoryText, Dental)
    ensures MatchCategory(categoryText) == Dental
  {
    MatchCategoryIff(categoryText, Dental);
  }

  /** A reply that mentions none of the four names is classified OPD. */
  lemma NoMentionIsOPD(categoryText: string)
    requires forall c :: !Mentions(categoryText, c)
    ensures MatchCategory(categoryText) == OPD
  {
    MatchCategoryIff(categoryText, OPD);
  }

  // ---------------------------------------------------------------------------
  // Parsing the steps of an action plan
  // ---------------------------------------------------------------------------

  /** The number of decimal digits at the start of `s`. */
  function LeadingDigits(s: string): (n: nat)
    ensures n <= |s|
    ensures forall i :: 0 <= i < n ==> IsDigit(s[i])
    ensures n < |s| ==> !IsDigit(s[n])
    decreases |s|
  {
    if s != [] && IsDigit(s[0]) then 1 + LeadingDigits(s[1..]) else 0
  }

  /** `s` starts with one or more digits followed by a period: the test `/^\d+\./`. */
  predicate HasMarker(s: string) {
    var n := LeadingDigits(s);
    0 < n < |s| && s[n] == '.'
  }

  /** What `/^\d+\./` means: some `k >= 1` digits at the start, followed by a period. */
  lemma HasMarkerRegex(s: string)
    ensures HasMarker(s) <==> exists k :: 0 < k < |s| && (forall i :: 0 <= i < k ==> IsDigit(s[i])) && s[k] == '.'
  {
    var n := LeadingDigits(s);
    assert forall k :: 0 < k < |s| && (forall i :: 0 <= i < k ==> IsDigit(s[i])) && s[k] == '.' ==> k == n;
  }

  /**
   The line with the match of `^\d+\.\s*` replaced by nothing: when the line
   starts with a marker, what is left is a suffix of the line, everything
   dropped after the marker is whitespace and the rest does not start with
   whitespace; any other line is kept as it is.
   */
  function StripMarker(line: string): (r: string)
    ensures !HasMarker(line) ==> r == line
    ensures HasMarker(line) ==>
      && |r| < |line| - LeadingDigits(line)
      && r == line[|line| - |r|..]
      && (forall i :: LeadingDigits(line) < i < |line| - |r| ==> IsSpace(line[i]))
      && (r != [] ==> !IsSpace(r[0]))
  {
    if HasMarker(line) then
      var n := LeadingDigits(line);
      TrimStartAfter(line, n);
      TrimStart(line[n + 1..])
    else
      line
  }

  /** Trimming the start of what follows position `n` leaves a suffix of the line, with only whitespace dropped. */
  lemma TrimStartAfter(line: string, n: nat)
    requires n < |line|
    ensures var r := TrimStart(line[n + 1..]);
      && |r| < |line| - n
      && r == line[|line| - |r|..]
      && (forall i :: n < i < |line| - |r| ==> IsSpace(line[i]))
  {
    var rest := line[n + 1..];
    var r := TrimStart(rest);
    assert rest[|rest| - |r|..|rest|] == r;
    assert line[|line| - |r|..] == rest[|rest| - |r|..];
    assert forall i :: n < i < |line| - |r| ==> line[i] == rest[i - n - 1];
  }

  /** The kept lines are those whose trimmed form starts with one or more digits and a period. */
  predicate IsNumberedLine(line: string) {
    HasMarker(Trim(line))
  }

  /**
   The marker is stripped from the line as it is, untrimmed, and the result
   trimmed: a line without a marker is just trimmed, one with a marker becomes
   the trim of what follows the marker and the whitespace after it, and either
   way the step neither starts nor ends with whitespace.
   */
  function CleanStep(line: string): (r: string)
    ensures !HasMarker(line) ==> r == Trim(line)
    ensures HasMarker(line) ==> exists j ::
      && LeadingDigits(line) < j <= |line|
      && (forall i :: LeadingDigits(line) < i < j ==> IsSpace(line[i]))
      && (j < |line| ==> !IsSpace(line[j]))
      && r == Trim(line[j..])
    ensures r != [] ==> !IsSpace(r[0]) && !IsSpace(r[|r| - 1])
  {
    if HasMarker(line) then
      StripMarkerRest(line);
      Trim(StripMarker(line))
    else
      Trim(line)
  }

  /** What a marked line keeps starts right after the marker and the whitespace that follows it. */
  lemma StripMarkerRest(line: string)
    requires HasMarker(line)
    ensures exists j ::
      && LeadingDigits(line) < j <= |line|
      && (forall i :: LeadingDigits(line) < i < j ==> IsSpace(line[i]))
      && (j < |line| ==> !IsSpace(line[j]))
      && Trim(StripMarker(line)) == Trim(line[j..])
  {
    var r := StripMarker(line);
    var j := |line| - |r|;
    assert r == line[j..];
    assert j < |line| ==> line[j] == r[0];
  }

  predicate IsNonEmpty(step: string) {
    |step| > 0
  }

  /**
   The steps parsed from the trimmed reply: its lines, those that are numbered,
   each cleaned of its marker, the non-empty ones, at most three of them.
   */
  function ParseSteps(planText: string): (r: seq<string>)
    ensures |r| <= 3
    ensures forall k :: 0 <= k < |r| ==> r[k] != []
    ensures r == Take(Steps(Split(planText, '\n')), 3)
  {
    var lines := Split(planText, '\n');
    var cleaned := Map(CleanStep, Filter(IsNumberedLine, lines));
    TakeFiltered(IsNonEmpty, cleaned, 3);
    PipelineIsSteps(lines);
    Take(Filter(IsNonEmpty, cleaned), 3)
  }

  /** A line yields a step when it is numbered and something is left once it is cleaned. */
  predicate Survives(line: string) {
    IsNumberedLine(line) && CleanStep(line) != []
  }

  /** Reference definition of the parsed steps: the cleaned surviving lines, in one pass. */
  function Steps(lines: seq<string>): seq<string> {
    FilterMap(Survives, CleanStep, lines)
  }

  /** The positions of the lines that yield a step. */
  function Survivors(lines: seq<string>): seq<nat> {
    Kept(Survives, lines)
  }

  /** The filter / map / filter chain computes the one-pass steps. */
  lemma PipelineIsSteps(lines: seq<string>)
    ensures Filter(IsNonEmpty, Map(CleanStep, Filter(IsNumberedLine, lines))) == Steps(lines)
  {
    FilterMapFilter(IsNumberedLine, CleanStep, IsNonEmpty, Survives, lines);
  }

  /**
   The steps are exactly the cleaned surviving lines, in source order: step `k`
   is the cleaned line at position `Survivors(lines)[k]`, those positions
   increase, and a line's position is among them exactly when the line survives.
   */
  lemma StepsInSourceOrder(lines: seq<string>)
    ensures |Steps(lines)| == |Survivors(lines)|
    ensures forall k :: 0 <= k < |Survivors(lines)| ==>
      Survivors(lines)[k] < |lines| && Steps(lines)[k] == CleanStep(lines[Survivors(lines)[k]])
    ensures forall k, m :: 0 <= k < m < |Survivors(lines)| ==> Survivors(lines)[k] < Survivors(lines)[m]
    ensures forall i :: 0 <= i < |lines| ==> (Survives(lines[i]) <==> i in Survivors(lines))
  {
    FilterMapAtKept(Survives, CleanStep, lines);
    KeptExact(Survives, lines);
  }

  /** Once three steps have been found, the lines after them change nothing. */
  lemma LaterLinesIgnored(a: seq<string>, b: seq<string>)
    requires |Steps(a)| >= 3
    ensures Take(Steps(a + b), 3) == Steps(a)[..3]
  {
    FilterMapAppend(Survives, CleanStep, a, b);
  }

  // ---------------------------------------------------------------------------
  // Action plans
  // ---------------------------------------------------------------------------

  /** An action plan: exactly three non-empty steps. */
  predicate IsActionPlan(plan: seq<string>) {
    |plan| == 3 && forall k :: 0 <= k < 3 ==> plan[k] != []
  }

  /** The plan returned whenever no three steps can be obtained from the remote model. */
  const FallbackPlan: seq<string> := [
    "Contact your HR department or benefits administrator",
    "Submit required documentation and enrollment forms",
    "Schedule your appointment or activate your benefit coverage"
  ]

  lemma FallbackIsPlan()
    ensures IsActionPlan(FallbackPlan)
  {
  }

  /** The plan made from the trimmed reply: its parsed steps when there are three, else the fallback. */
  function PlanFromReply(planText: string): (r: seq<string>)
    ensures IsActionPlan(r)
  {
    var steps := ParseSteps(planText);
    FallbackIsPlan();
    if |steps| == 3 then steps else FallbackPlan
  }

  /** With three or more surviving lines the plan is the first three cleaned ones, in order; with fewer it is the fallback. */
  lemma PlanFromReplySteps(planText: string)
    ensures |Steps(Split(planText, '\n'))| >= 3 ==> PlanFromReply(planText) == Steps(Split(planText, '\n'))[..3]
    ensures |Steps(Split(planText, '\n'))| < 3 ==> PlanFromReply(planText) == FallbackPlan
  {
    PipelineIsSteps(Split(planText, '\n'));
  }

  // ---------------------------------------------------------------------------
  // Outcomes of the request to the remote model, and the two operations
  // ---------------------------------------------------------------------------

  /** The body of a successful response: the text of the first candidate, or a body that does not have one. */
  datatype Body = Malformed | Candidate(text: string)

  /** What the request to the remote model produced: no response at all, or an HTTP response. */
  datatype Response = NetworkFailure | Http(status: int, statusText: string, body: Body)

  /** `response.ok`: a 2xx status. */
  predicate IsOk(status: int) {
    200 <= status <= 299
  }

  /** The errors that can end an operation. */
  datatype Error =
    | MissingApiKey                              // no API key configured
    | ApiError(status: int, statusText: string)  // the response was not OK
    | RequestFailed                              // the request itself failed
    | MalformedResponse                          // the body had no candidate text

  datatype Result<+T> = Success(value: T) | Failure(error: Error)

  /** The trimmed reply text of a response, or the error the response raises. */
  function ReplyText(response: Response): (r: Result<string>)
    ensures r.Success? <==> response.Http? && IsOk(response.status) && response.body.Candidate?
    ensures r.Success? ==> r.value == Trim(response.body.text)
    ensures response.NetworkFailure? ==> r == Failure(RequestFailed)
    ensures response.Http? && !IsOk(response.status) ==> r == Failure(ApiError(response.status, response.statusText))
    ensures response.Http? && IsOk(response.status) && response.body.Malformed? ==> r == Failure(MalformedResponse)
  {
    match response
    case NetworkFailure => Failure(RequestFailed)
    case Http(status, statusText, body) =>
      if !IsOk(status) then
        Failure(ApiError(status, statusText))
      else
        match body
        case Malformed => Failure(MalformedResponse)
        case Candidate(text) => Success(Trim(text))
  }

  /**
   `classifyHealthNeed`: without an API key it fails whatever the response would
   have been; otherwise every failure of the request is passed on unchanged, and
   a reply is always classified.
   */
  function ClassifyHealthNeed(apiKey: string, response: Response): (r: Result<Category>)
    ensures apiKey == [] ==> r == Failure(MissingApiKey)
    ensures r.Success? <==> apiKey != [] && ReplyText(response).Success?
    ensures apiKey != [] && ReplyText(response).Failure? ==> r == Failure(ReplyText(response).error)
    ensures apiKey != [] && ReplyText(response).Success? ==> r == Success(MatchCategory(ReplyText(response).value))
  {
    if apiKey == [] then
      Failure(MissingApiKey)
    else
      match ReplyText(response)
      case Failure(e) => Failure(e)
      case Success(categoryText) => Success(MatchCategory(categoryText))
  }

  /**
   `generateActionPlan`: without an API key it fails whatever the response would
   have been; otherwise it always succeeds with an action plan, the fallback one
   whenever the request or its reply failed.
   */
  function GenerateActionPlan(apiKey: string, response: Response): (r: Result<seq<string>>)
    ensures apiKey == [] ==> r == Failure(MissingApiKey)
    ensures apiKey != [] ==> r.Success? && IsActionPlan(r.value)
    ensures apiKey != [] && ReplyText(response).Failure? ==> r == Success(FallbackPlan)
    ensures apiKey != [] && ReplyText(response).Success? ==> r == Success(PlanFromReply(ReplyText(response).value))
  {
    if apiKey == [] then
      Failure(MissingApiKey)
    else
      match ReplyText(response)
      case Failure(_) => Success(FallbackPlan)
      case Success(planText) => Success(PlanFromReply(planText))
  }

  /** The API key is checked before the response is looked at: with no key, the response makes no difference. */
  lemma MissingKeyIgnoresResponse(response1: Response, response2: Response)
    ensures ClassifyHealthNeed([], response1) == ClassifyHealthNeed([], response2) == Failure(MissingApiKey)
    ensures GenerateActionPlan([], response1) == GenerateActionPlan([], response2) == Failure(MissingApiKey)
  {
  }

  /** A successful classification is one of the four category names. */
  lemma ClassifiedNameIsKnown(apiKey: string, response: Response)
    requires ClassifyHealthNeed(apiKey, response).Success?
    ensures Name(ClassifyHealthNeed(apiKey, response).value) in {"Dental", "Mental Health", "Vision", "OPD"}
  {
  }

  /** The two operations treat a failed request differently: classification passes the error on, plan generation absorbs it. */
  lemma FailureAsymmetry(apiKey: string, response: Response)
    requires apiKey != [] && ReplyText(response).Failure?
    ensures ClassifyHealthNeed(apiKey, response).Failure?
    ensures ClassifyHealthNeed(apiKey, response).error != MissingApiKey
    ensures GenerateActionPlan(apiKey, response) == Success(FallbackPlan)
  {
  }

  // ---------------------------------------------------------------------------
  // Worked examples
  // ---------------------------------------------------------------------------

  /** A line `<digit>. <step>` is numbered, and cleaning it leaves `<step>` when the step has no surrounding whitespace. */
  lemma MarkedLineClean(d: char, step: string)
    requires IsDigit(d) && step != [] && !IsSpace(step[0]) && !IsSpace(step[|step| - 1])
    ensures IsNumberedLine([d, '.', ' '] + step)
    ensures CleanStep([d, '.', ' '] + step) == step
  {
    var line := [d, '.', ' '] + step;
    assert LeadingDigits(line) == 1 by {
      assert line[1..][0] == '.';
    }
    assert HasMarker(line);
    TrimUnpadded(line);
    assert StripMarker(line) == step by {
      assert line[2..] == [' '] + step;
      assert ([' '] + step)[1..] == step;
    }
    TrimUnpadded(step);
  }

  /** A line with no surrounding whitespace that does not start with a digit is not numbered. */
  lemma UnmarkedLine(line: string)
    requires line != [] && !IsSpace(line[0]) && !IsSpace(line[|line| - 1]) && !IsDigit(line[0])
    ensures !IsNumberedLine(line)
  {
    TrimUnpadded(line);
  }

  /** An indented numbered line is kept, but its marker is not stripped, since the marker is removed from the untrimmed line. */
  lemma IndentedMarkerKept()
    ensures IsNumberedLine("  2. foo")
    ensures CleanStep("  2. foo") == "2. foo"
  {
    IndentedTrim();
    IndentedMarker();
    assert LeadingDigits("  2. foo") == 0;
  }

  lemma IndentedTrim()
    ensures Trim("  2. foo") == "2. foo"
  {
    assert "  2. foo"[1..] == " 2. foo";
    assert " 2. foo"[1..] == "2. foo";
    assert TrimStart("  2. foo") == "2. foo";
    TrimUnpadded("2. foo");
  }

  lemma IndentedMarker()
    ensures HasMarker("2. foo")
  {
    assert "2. foo"[1..][0] == '.';
    assert LeadingDigits("2. foo") == 1;
  }

  /** Joining four lines puts a line feed between each neighbouring pair. */
  lemma JoinFourLines(l1: string, l2: string, l3: string, l4: string)
    ensures Join([l1, l2, l3, l4], '\n') == l1 + "\n" + l2 + "\n" + l3 + "\n" + l4
  {
    assert Join([l4], '\n') == l4;
    assert [l3, l4][1..] == [l4];
    assert Join([l3, l4], '\n') == l3 + "\n" + l4;
    assert [l2, l3, l4][1..] == [l3, l4];
    assert Join([l2, l3, l4], '\n') == l2 + "\n" + l3 + "\n" + l4;
    assert [l1, l2, l3, l4][1..] == [l2, l3, l4];
  }

  /** Three `<digit>. <step>` lines and a line that does not start with a digit give the three steps. */
  lemma ThreeMarkedLinesAndNote(d1: char, s1: string, d2: char, s2: string, d3: char, s3: string, note: string)
    requires IsDigit(d1) && s1 != [] && !IsSpace(s1[0]) && !IsSpace(s1[|s1| - 1])
    requires IsDigit(d2) && s2 != [] && !IsSpace(s2[0]) && !IsSpace(s2[|s2| - 1])
    requires IsDigit(d3) && s3 != [] && !IsSpace(s3[0]) && !IsSpace(s3[|s3| - 1])
    requires note != [] && !IsSpace(note[0]) && !IsSpace(note[|note| - 1]) && !IsDigit(note[0])
    ensures Steps([[d1, '.', ' '] + s1, [d2, '.', ' '] + s2, [d3, '.', ' '] + s3, note]) == [s1, s2, s3]
  {
    MarkedLineClean(d1, s1);
    MarkedLineClean(d2, s2);
    MarkedLineClean(d3, s3);
    UnmarkedLine(note);
    FilterMapFour(Survives, CleanStep, [d1, '.', ' '] + s1, [d2, '.', ' '] + s2, [d3, '.', ' '] + s3, note);
  }

  /** Four lines without line feeds, joined by line feeds, split back into the four lines. */
  lemma SplitFourLines(l1: string, l2: string, l3: string, l4: string)
    requires '\n' !in l1 && '\n' !in l2 && '\n' !in l3 && '\n' !in l4
    ensures Split(l1 + "\n" + l2 + "\n" + l3 + "\n" + l4, '\n') == [l1, l2, l3, l4]
  {
    JoinFourLines(l1, l2, l3, l4);
    SplitJoin([l1, l2, l3, l4], '\n');
  }

  /** A reply of three numbered lines followed by a note. */
  const ThreeStepReply := "1. Book exam" + "\n" + "2. Bring ID card" + "\n" + "3. Pay copay" + "\n" + "Extra note"

  /** A reply of only two numbered lines. */
  const TwoStepReply := "1. Book exam" + "\n" + "2. Bring ID card"

  lemma ThreeStepReplyEdges()
    ensures ThreeStepReply[0] == '1' && ThreeStepReply[|ThreeStepReply| - 1] == 'e'
  {
    assert ThreeStepReply[0] == "1. Book exam"[0];
    assert ThreeStepReply[|ThreeStepReply| - 1] == "Extra note"[9];
  }

  /** The lines of the three-step example reply. */
  lemma ThreeStepLines()
    ensures Split(ThreeStepReply, '\n') == ["1. Book exam", "2. Bring ID card", "3. Pay copay", "Extra note"]
  {
    SplitFourLines("1. Book exam", "2. Bring ID card", "3. Pay copay", "Extra note");
  }

  /** The steps of the lines of the three-step example reply. */
  lemma ThreeStepSteps()
    ensures Steps(["1. Book exam", "2. Bring ID card", "3. Pay copay", "Extra note"]) == ["Book exam", "Bring ID card", "Pay copay"]
  {
    assert "1. Book exam" == ['1', '.', ' '] + "Book exam";
    assert "2. Bring ID card" == ['2', '.', ' '] + "Bring ID card";
    assert "3. Pay copay" == ['3', '.', ' '] + "Pay copay";
    ThreeMarkedLinesAndNote('1', "Book exam", '2', "Bring ID card", '3', "Pay copay", "Extra note");
  }

  /** The plan made from the three-step example reply. */
  lemma ThreeStepPlan()
    ensures PlanFromReply(ThreeStepReply) == ["Book exam", "Bring ID card", "Pay copay"]
  {
    ThreeStepLines();
    ThreeStepSteps();
    PlanFromReplySteps(ThreeStepReply);
  }

  /**
   A successful reply of three numbered lines followed by a note gives those
   three steps, without their markers.
   */
  lemma ThreeNumberedLines(apiKey: string)
    requires apiKey != []
    ensures GenerateActionPlan(apiKey, Http(200, "OK", Candidate(ThreeStepReply)))
      == Success(["Book exam", "Bring ID card", "Pay copay"])
  {
    ThreeStepReplyEdges();
    TrimUnpadded(ThreeStepReply);
    ThreeStepPlan();
  }

  /** The plan made from a reply with two numbered lines. */
  lemma TwoStepPlan()
    ensures PlanFromReply(TwoStepReply) == FallbackPlan
  {
    var l1, l2 := "1. Book exam", "2. Bring ID card";
    assert [l1, l2][1..] == [l2];
    assert Join([l1, l2], '\n') == TwoStepReply;
    SplitJoin([l1, l2], '\n');
    PlanFromReplySteps(TwoStepReply);
  }

  /** A reply with only two numbered lines gives the fallback plan, not a two-step plan. */
  lemma TwoNumberedLines(apiKey: string)
    requires apiKey != []
    ensures GenerateActionPlan(apiKey, Http(200, "OK", Candidate(TwoStepReply))) == Success(FallbackPlan)
  {
    assert TwoStepReply[0] == "1. Book exam"[0];
    assert TwoStepReply[|TwoStepReply| - 1] == "2. Bring ID card"[15];
    TrimUnpadded(TwoStepReply);
    TwoStepPlan();
  }
}
