/** The text of a course inquiry e-mail: its subject line and the lines of
    its body, with what is known about the line breaks in the body. */
module InquiryText {
  import opened JsText

  /** `n` copies of the character `c`. */
  function Repeat(c: char, n: nat): (r: string)
    ensures |r| == n && forall i :: 0 <= i < n ==> r[i] == c
  {
    if n == 0 then [] else [c] + Repeat(c, n - 1)
  }

  /** The rule of forty U+2501 glyphs that frames the course information. */
  const Rule := Repeat('━', 40)

  /** The subject line of the inquiry: "Inquiry about ", the course name and
      " Course - E-Tech Cyber Cafe", 41 fixed characters around the name. */
  function Subject(course: string): (r: string)
    ensures |r| == |course| + 41
    ensures r[..14] == "Inquiry about "
    ensures r[14..14 + |course|] == course
    ensures r[14 + |course|..] == " Course - E-Tech Cyber Cafe"
  {
    "Inquiry about " + course + " Course - E-Tech Cyber Cafe"
  }

  /** The ten lines above the features. */
  function LeadLines(course: string, price: string): seq<string> {
    [ "Hello E-Tech Cyber Cafe Team,",
      "",
      "I am interested in learning more about the " + course + " course.",
      "",
      "Course Information:",
      Rule,
      "Course Name: " + course,
      "Price: " + price,
      "",
      "Course Features:" ]
  }

  /** The follow-up questions below the features. */
  const FollowUpLines: seq<string> :=
    [ "I would like to know more about:",
      "• Course duration and schedule",
      "• Available class times",
      "• Registration process",
      "• Payment options and plans",
      "• Prerequisites (if any)" ]

  /** The closing request "Please send me the course details and next
      steps.", written as two literals so that the proof that it holds no
      line feed stays small. */
  const NextSteps := "Please send me the course details" + " and next steps."

  /** The closing request and the sign-off. */
  const SignOffLines: seq<string> :=
    [ "",
      NextSteps,
      "",
      "Thank you for your time!",
      "",
      "Best regards,",
      "[Your Name]" ]

  /** The sixteen lines below the features: a rule between blank lines, the
      follow-up questions and the sign-off. */
  const ClosingLines: seq<string> := ["", Rule, ""] + FollowUpLines + SignOffLines

  /** One bullet line per feature, in order. */
  function Bullets(features: seq<string>): (r: seq<string>)
    ensures |r| == |features|
    ensures forall i :: 0 <= i < |r| ==> r[i] == "• " + features[i]
  {
    if features == [] then [] else ["• " + features[0]] + Bullets(features[1..])
  }

  /** The lines of the body: 26 fixed lines, with one bullet per feature
      right after "Course Features:". */
  function BodyLines(course: string, price: string, features: seq<string>): (r: seq<string>)
    ensures |r| == 26 + |features|
    ensures r[..10] == LeadLines(course, price)
    ensures r[2] == "I am interested in learning more about the " + course + " course."
    ensures r[6] == "Course Name: " + course && r[7] == "Price: " + price
    ensures r[9] == "Course Features:"
    ensures forall i :: 0 <= i < |features| ==> r[10 + i] == "• " + features[i]
    ensures r[10 + |features|..] == ClosingLines
  {
    var r := LeadLines(course, price) + Bullets(features) + ClosingLines;
    assert r[..10] == LeadLines(course, price);
    assert r[10 + |features|..] == ClosingLines;
    r
  }

  /** The body of the inquiry: its lines joined with line feeds. When the
      course name, the price and the features hold no line feed, splitting
      the body at its line feeds gives back its lines. */
  function Body(course: string, price: string, features: seq<string>): (r: string)
    ensures '\n' !in course && '\n' !in price && NoneContains(features, '\n') ==>
              Split(r, '\n') == BodyLines(course, price, features)
  {
    var lines := BodyLines(course, price, features);
    assert '\n' !in course && '\n' !in price && NoneContains(features, '\n') ==>
             Split(Join(lines, "\n"), '\n') == lines by {
      if '\n' !in course && '\n' !in price && NoneContains(features, '\n') {
        BodyLinesFree(course, price, features);
        SplitJoin(lines, '\n');
      }
    }
    Join(lines, "\n")
  }

  // ---------------------------------------------------------------------
  // No fixed line of the body holds a line feed. Each lemma is named after
  // the indices of the lines it covers: FollowUpLine0Free to FollowUpLine5Free
  // for the follow-up questions (gathered by FollowUpLinesFree),
  // SignOffLine1Free and SignOffLines3To6Free for the sign-off (gathered by
  // SignOffLinesFree), and for the lead lines RuleFree (line 5),
  // LeadLine0Free, LeadLine2TextFree (the text around the course name on
  // line 2) and LeadLinesTextFree (lines 4 and 9 and the text of lines 2, 6
  // and 7), gathered by LeadLinesFree. The lines are taken a few at a time
  // because the cost of such a proof grows quickly with the length of the
  // literal; ClosingLinesFree and BodyLinesFree combine them.

  lemma RuleFree()
    ensures '\n' !in Rule
  {
  }

  lemma FollowUpLine0Free()
    ensures '\n' !in FollowUpLines[0]
  {
  }

  lemma FollowUpLine1Free()
    ensures '\n' !in FollowUpLines[1]
  {
  }

  lemma FollowUpLines2And3Free()
    ensures '\n' !in FollowUpLines[2] && '\n' !in FollowUpLines[3]
  {
  }

  lemma FollowUpLine4Free()
    ensures '\n' !in FollowUpLines[4]
  {
  }

  lemma FollowUpLine5Free()
    ensures '\n' !in FollowUpLines[5]
  {
  }

  lemma SignOffLine1Free()
    ensures '\n' !in SignOffLines[1]
  {
    assert '\n' !in "Please send me the course details" && '\n' !in " and next steps.";
  }

  lemma SignOffLines3To6Free()
    ensures '\n' !in SignOffLines[3] && '\n' !in SignOffLines[5] && '\n' !in SignOffLines[6]
  {
  }

  lemma FollowUpLinesFree()
    ensures NoneContains(FollowUpLines, '\n')
  {
    FollowUpLine0Free();
    FollowUpLine1Free();
    FollowUpLines2And3Free();
    FollowUpLine4Free();
    FollowUpLine5Free();
  }

  lemma SignOffLinesFree()
    ensures NoneContains(SignOffLines, '\n')
  {
    SignOffLine1Free();
    SignOffLines3To6Free();
  }

  lemma ClosingLinesFree()
    ensures NoneContains(ClosingLines, '\n')
  {
    var framed := ["", Rule, ""];
    RuleFree();
    assert NoneContains(framed, '\n');
    FollowUpLinesFree();
    SignOffLinesFree();
    NoneContainsAppend(framed, FollowUpLines, '\n');
    NoneContainsAppend(framed + FollowUpLines, SignOffLines, '\n');
  }

  lemma LeadLine0Free(course: string, price: string)
    ensures '\n' !in LeadLines(course, price)[0]
  {
  }

  lemma LeadLine2TextFree()
    ensures '\n' !in "I am interested in learning more about the "
  {
  }

  lemma LeadLinesTextFree(course: string, price: string)
    ensures '\n' !in LeadLines(course, price)[4] && '\n' !in LeadLines(course, price)[9]
    ensures '\n' !in " course." && '\n' !in "Course Name: " && '\n' !in "Price: "
  {
  }

  lemma LeadLinesFree(course: string, price: string)
    requires '\n' !in course && '\n' !in price
    ensures NoneContains(LeadLines(course, price), '\n')
  {
    var lines := LeadLines(course, price);
    RuleFree();
    LeadLine0Free(course, price);
    LeadLine2TextFree();
    LeadLinesTextFree(course, price);
    assert '\n' !in lines[2] && '\n' !in lines[6] && '\n' !in lines[7];
  }

  lemma BodyLinesFree(course: string, price: string, features: seq<string>)
    requires '\n' !in course && '\n' !in price
    requires NoneContains(features, '\n')
    ensures NoneContains(BodyLines(course, price, features), '\n')
  {
    var lead, bullets := LeadLines(course, price), Bullets(features);
    LeadLinesFree(course, price);
    ClosingLinesFree();
    assert NoneContains(bullets, '\n') by {
      forall i | 0 <= i < |bullets| ensures '\n' !in bullets[i] {
        assert bullets[i] == "• " + features[i];
      }
    }
    assert BodyLines(course, price, features) == lead + bullets + ClosingLines;
  }

  /** Without line feeds inside the course name, the price or a feature, the
      body holds 25 + |features| line feeds, one between each pair of
      neighbouring lines. */
  lemma BodyLineCount(course: string, price: string, features: seq<string>)
    requires '\n' !in course && '\n' !in price
    requires NoneContains(features, '\n')
    ensures Count('\n', Body(course, price, features)) == 25 + |features|
  {
    BodyLinesFree(course, price, features);
    JoinCount(BodyLines(course, price, features), '\n');
  }
}
