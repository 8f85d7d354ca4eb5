/**
 * The string logic of the USCIS case-status checker: parsing the two-line
 * credential file, cutting the status label and its description out of the
 * text of the case-status page's elements, building the lookup URL and
 * building the notification record.
 */
module UscisStatus {
  import opened Wrappers
  import opened Text

  /** A configured case: its USCIS receipt number and the address to notify. */
  datatype UscisData = UscisData(id: string, email: string)

  /** The sender's mail account, read from the secret file. */
  datatype Credential = Credential(email: string, password: string)

  /** The notification handed to the mail client. */
  datatype Email = Email(subject: string, content: string, toEmail: string, fromEmail: string)

  /** The status label and its description, as shown on the case-status page. */
  datatype Status = Status(title: string, description: string)

  /**
   * Why building a `Credential` from the file's lines fails: the positional
   * constructor gets one line only, or more lines than it has fields.
   */
  datatype CredentialError = MissingArgument(name: string) | TooManyArguments(given: nat)

  /**
   * Why extracting a segment fails: no element of the class is on the page,
   * or its text holds too few separated segments. The program raises an
   * IndexError in both cases.
   */
  datatype ExtractError = NoMatchingElement | TooFewSegments

  /** Why preparing the notification for one case fails. */
  datatype CaseError = PageError(page: ExtractError) | CredentialFileError(file: CredentialError)

  /** What separates the segments of an element's text: a newline and a tab. */
  const SegmentSeparator: string := "\n\t"

  /** What separates the lines of the credential file. */
  const LineSeparator: string := "\n"

  /** The status lookup endpoint, up to and including its query parameter name. */
  const StatusBase: string := "https://egov.uscis.gov/casestatus/mycasestatus.do?appReceiptNum="

  /** What the notification's subject starts with. */
  const SubjectPrefix: string := "USCIS Status: "

  // ---------------------------------------------------------------------------
  // Credential file

  /**
   * The credential file's text split on newlines and handed positionally to
   * the two-field `Credential`: it is accepted exactly when it has one
   * newline, the email before it and the password after it, untrimmed.
   */
  function ReadCred(text: string): (r: Result<Credential, CredentialError>)
    ensures r.Ok? <==> CountChar(text, '\n') == 1
    ensures r.Ok? ==> text == r.value.email + LineSeparator + r.value.password
    ensures r.Ok? ==> '\n' !in r.value.email && '\n' !in r.value.password
    ensures CountChar(text, '\n') == 0 ==> r == Err(MissingArgument("password"))
    ensures CountChar(text, '\n') >= 2 ==> r == Err(TooManyArguments(CountChar(text, '\n') + 1))
  {
    var fields := Split(text, LineSeparator);
    SplitCharCount(text, '\n');
    if |fields| == 2 then
      SplitJoin(text, LineSeparator);
      SplitPiecesFree(text, LineSeparator);
      assert Join(fields[1..], LineSeparator) == fields[1];
      ContainsChar(fields[0], '\n');
      ContainsChar(fields[1], '\n');
      Ok(Credential(fields[0], fields[1]))
    else if |fields| < 2 then
      Err(MissingArgument("password"))
    else
      Err(TooManyArguments(|fields|))
  }

  /** Writing a credential as two lines and reading it back gives the credential. */
  lemma ReadCredRoundTrip(c: Credential)
    requires '\n' !in c.email && '\n' !in c.password
    ensures ReadCred(c.email + LineSeparator + c.password) == Ok(c)
  {
    ContainsChar(c.email, '\n');
    ContainsChar(c.password, '\n');
    SplitAtFirst(c.email, LineSeparator, c.password);
    SplitWithoutSeparator(c.password, LineSeparator);
  }

  lemma TwoLineFileExample()
    ensures ReadCred("a@b.com\npassword123") == Ok(Credential("a@b.com", "password123"))
  {
    var c := Credential("a@b.com", "password123");
    ReadCredRoundTrip(c);
    assert c.email + LineSeparator + c.password == "a@b.com\npassword123";
  }

  /** A file of one line, without a newline, lacks the password. */
  lemma ReadCredOneLine(line: string)
    requires '\n' !in line
    ensures ReadCred(line) == Err(MissingArgument("password"))
  {
    CountCharAbsent(line, '\n');
  }

  /** A trailing newline after the password gives a third, empty field, which is refused. */
  lemma ReadCredTrailingNewline(c: Credential)
    requires '\n' !in c.email && '\n' !in c.password
    ensures ReadCred(c.email + LineSeparator + c.password + LineSeparator) == Err(TooManyArguments(3))
  {
    CountCharAbsent(c.email, '\n');
    CountCharAbsent(c.password, '\n');
    CountCharAppend(c.email, LineSeparator, '\n');
    CountCharAppend(c.email + LineSeparator, c.password, '\n');
    CountCharAppend(c.email + LineSeparator + c.password, LineSeparator, '\n');
  }

  lemma OneLineFileExample()
    ensures ReadCred("a@b.com") == Err(MissingArgument("password"))
  {
    var line := "a@b.com";
    assert '\n' !in line;
    ReadCredOneLine(line);
  }

  lemma TrailingNewlineExample()
    ensures ReadCred("a@b.com\npassword123\n") == Err(TooManyArguments(3))
  {
    var c := Credential("a@b.com", "password123");
    assert '\n' !in c.email && '\n' !in c.password;
    assert c.email + LineSeparator + c.password + LineSeparator == "a@b.com\npassword123\n";
    ReadCredTrailingNewline(c);
  }

  // ---------------------------------------------------------------------------
  // Status extraction

  /** `[p.strip() for p in pieces]`. */
  function StripAll(pieces: seq<string>): (r: seq<string>)
    ensures |r| == |pieces|
    ensures forall k :: 0 <= k < |r| ==> r[k] == Strip(pieces[k])
  {
    seq(|pieces|, k requires 0 <= k < |pieces| => Strip(pieces[k]))
  }

  /**
   * The segment carried by the first of the matching elements' texts: the
   * text is stripped, split on the segment separator, every piece stripped,
   * and the second piece returned.
   */
  function ExtractSegment(texts: seq<string>): (r: Result<string, ExtractError>)
    ensures texts == [] ==> r == Err(NoMatchingElement)
    ensures texts != [] ==> (r.Ok? <==> Contains(Strip(texts[0]), SegmentSeparator))
    ensures texts != [] && r.Err? ==> r.error == TooFewSegments
    ensures r.Ok? ==> Stripped(r.value)
  {
    if |texts| == 0 then
      Err(NoMatchingElement)
    else
      var text := Strip(texts[0]);
      var pieces := StripAll(Split(text, SegmentSeparator));
      SplitSeparates(text, SegmentSeparator);
      if |pieces| < 2 then Err(TooFewSegments) else Ok(pieces[1])
  }

  /** The successful case of the extraction, unfolded. */
  lemma ExtractSegmentValue(texts: seq<string>)
    requires texts != [] && |Split(Strip(texts[0]), SegmentSeparator)| >= 2
    ensures ExtractSegment(texts) == Ok(Strip(Split(Strip(texts[0]), SegmentSeparator)[1]))
  {
    var ps := Split(Strip(texts[0]), SegmentSeparator);
    assert StripAll(ps)[1] == Strip(ps[1]);
  }

  /**
   * `t` is `a`, a separator, `p`, and then either nothing or another
   * separator with whatever follows; neither `a` nor `p` holds a separator.
   */
  predicate Between(t: string, a: string, p: string, rest: string) {
    && t == a + SegmentSeparator + p + rest
    && !Contains(a, SegmentSeparator)
    && !Contains(p, SegmentSeparator)
    && (rest == [] || SegmentSeparator <= rest)
  }

  lemma SegmentSeparatorNoSelfOverlap()
    ensures NoSelfOverlap(SegmentSeparator)
  {
    assert SegmentSeparator[1..][0] == '\t' && SegmentSeparator[..1][0] == '\n';
  }

  /** The segment is the stripped text found between the first and the second separator. */
  lemma ExtractSegmentBetween(texts: seq<string>, a: string, p: string, rest: string)
    requires texts != [] && Between(Strip(texts[0]), a, p, rest)
    ensures ExtractSegment(texts) == Ok(Strip(p))
  {
    SegmentSeparatorNoSelfOverlap();
    SplitSecondPiece(a, p, rest, SegmentSeparator);
    ExtractSegmentValue(texts);
  }

  /** Conversely, every segment that is found comes from such a decomposition. */
  lemma ExtractSegmentHasBetween(texts: seq<string>)
    requires ExtractSegment(texts).Ok?
    ensures exists a, p, rest :: Between(Strip(texts[0]), a, p, rest) && ExtractSegment(texts).value == Strip(p)
  {
    var t := Strip(texts[0]);
    var ps := Split(t, SegmentSeparator);
    SplitSeparates(t, SegmentSeparator);
    SplitFirstTwo(t, SegmentSeparator);
    var rest := if |ps| == 2 then [] else SegmentSeparator + Join(ps[2..], SegmentSeparator);
    assert Between(t, ps[0], ps[1], rest);
    ExtractSegmentValue(texts);
  }

  /** Only the first matching element matters. */
  lemma ExtractSegmentFirstOnly(texts: seq<string>, more: seq<string>)
    requires texts != []
    ensures ExtractSegment(texts + more) == ExtractSegment(texts)
    ensures ExtractSegment(texts) == ExtractSegment([texts[0]])
  {
    assert (texts + more)[0] == texts[0];
  }

  /**
   * The page's layout: an element whose text is a newline and tab, a
   * heading, a newline and tab, the value and a closing newline and tab
   * yields the value.
   */
  lemma PageLayoutSegment(heading: string, value: string)
    requires heading != [] && value != [] && Stripped(heading) && Stripped(value)
    requires '\n' !in heading && '\n' !in value
    ensures ExtractSegment([SegmentSeparator + heading + SegmentSeparator + value + SegmentSeparator]) == Ok(value)
  {
    var sep := SegmentSeparator;
    var text := sep + heading + sep + value + sep;
    LayoutStripped(heading, value);
    MissingFirstChar(heading, sep);
    MissingFirstChar(value, sep);
    assert heading + sep + value == heading + sep + value + [];
    ExtractSegmentBetween([text], heading, value, []);
    StrippedIsFixed(value);
  }

  lemma LayoutStripped(heading: string, value: string)
    requires heading != [] && value != [] && Stripped(heading) && Stripped(value)
    ensures Strip(SegmentSeparator + heading + SegmentSeparator + value + SegmentSeparator) == heading + SegmentSeparator + value
  {
    var sep := SegmentSeparator;
    var m := heading + sep + value;
    assert m[0] == heading[0] && m[|m| - 1] == value[|value| - 1];
    assert AllSpace(sep);
    assert sep + heading + sep + value + sep == sep + m + sep;
    StripUnique(sep, m, sep);
  }

  /** The page's status element as it reads for an approved case. */
  lemma ApprovedExample()
    ensures ExtractSegment(["\n\tCase Status\n\tApproved\n\t"]) == Ok("Approved")
  {
    var text := "\n\tCase Status\n\tApproved\n\t";
    var heading, value := "Case Status", "Approved";
    assert Stripped(heading) && Stripped(value) && '\n' !in heading && '\n' !in value;
    assert SegmentSeparator + heading + SegmentSeparator + value + SegmentSeparator == text;
    PageLayoutSegment(heading, value);
  }

  /**
   * The status label and the description, each extracted by the same rule
   * from its own elements; the label is extracted first, so its failure is
   * the one reported when both fail.
   */
  function ExtractStatus(statusTexts: seq<string>, descTexts: seq<string>): (r: Result<Status, ExtractError>)
    ensures r.Ok? <==> ExtractSegment(statusTexts).Ok? && ExtractSegment(descTexts).Ok?
    ensures r.Ok? ==> r.value == Status(ExtractSegment(statusTexts).value, ExtractSegment(descTexts).value)
    ensures ExtractSegment(statusTexts).Err? ==> r == Err(ExtractSegment(statusTexts).error)
    ensures ExtractSegment(statusTexts).Ok? && ExtractSegment(descTexts).Err? ==> r == Err(ExtractSegment(descTexts).error)
    ensures r.Ok? ==> Stripped(r.value.title) && Stripped(r.value.description)
  {
    match ExtractSegment(statusTexts)
    case Err(e) => Err(e)
    case Ok(title) =>
      match ExtractSegment(descTexts)
      case Err(e) => Err(e)
      case Ok(description) => Ok(Status(title, description))
  }

  /** Both elements laid out as the page lays them out give the two values. */
  lemma PageLayoutStatus(heading1: string, title: string, heading2: string, description: string)
    requires heading1 != [] && title != [] && Stripped(heading1) && Stripped(title)
    requires '\n' !in heading1 && '\n' !in title
    requires heading2 != [] && description != [] && Stripped(heading2) && Stripped(description)
    requires '\n' !in heading2 && '\n' !in description
    ensures ExtractStatus([SegmentSeparator + heading1 + SegmentSeparator + title + SegmentSeparator],
                          [SegmentSeparator + heading2 + SegmentSeparator + description + SegmentSeparator])
         == Ok(Status(title, description))
  {
    PageLayoutSegment(heading1, title);
    PageLayoutSegment(heading2, description);
  }

  /** A page without a status element yields an error, never a default status. */
  lemma MissingStatusElement(descTexts: seq<string>)
    ensures ExtractStatus([], descTexts) == Err(NoMatchingElement)
  {
  }

  // ---------------------------------------------------------------------------
  // Lookup URL and notification

  /** The lookup URL: the fixed endpoint with the receipt number appended as it is. */
  function StatusUrl(receiptId: string): (url: string)
    ensures |url| == |StatusBase| + |receiptId|
    ensures url[..|StatusBase|] == StatusBase
    ensures url[|StatusBase|..] == receiptId
  {
    StatusBase + receiptId
  }

  /** Different receipt numbers are looked up at different URLs. */
  lemma StatusUrlInjective(id1: string, id2: string)
    requires StatusUrl(id1) == StatusUrl(id2)
    ensures id1 == id2
  {
  }

  /**
   * The notification for one case: the subject names the status label, the
   * body is the description, it goes to the case's address and comes from
   * the credential's address.
   */
  function MakeEmail(status: Status, entry: UscisData, cred: Credential): (m: Email)
    ensures |m.subject| == |SubjectPrefix| + |status.title|
    ensures m.subject[..|SubjectPrefix|] == SubjectPrefix
    ensures m.subject[|SubjectPrefix|..] == status.title
    ensures m.content == status.description
    ensures m.toEmail == entry.email && m.fromEmail == cred.email
  {
    Email(SubjectPrefix + status.title, status.description, entry.email, cred.email)
  }

  /** The notification determines the status and both addresses; the password never enters it. */
  lemma MakeEmailDetermines(s1: Status, e1: UscisData, c1: Credential, s2: Status, e2: UscisData, c2: Credential)
    requires MakeEmail(s1, e1, c1) == MakeEmail(s2, e2, c2)
    ensures s1 == s2 && e1.email == e2.email && c1.email == c2.email
  {
    assert s1.title == MakeEmail(s1, e1, c1).subject[|SubjectPrefix|..];
  }

  lemma DeniedExample(id: string, cred: Credential)
    ensures MakeEmail(Status("Denied", "Your case was denied"), UscisData(id, "x@y.com"), cred)
         == Email("USCIS Status: Denied", "Your case was denied", "x@y.com", cred.email)
  {
  }

  /**
   * Preparing the notification for one case with mail enabled: the status is
   * extracted first, then the credential file is read, then the record is
   * built. The first failure ends the case.
   */
  function CaseNotification(entry: UscisData, statusTexts: seq<string>, descTexts: seq<string>, credText: string): (r: Result<Email, CaseError>)
    ensures r.Ok? <==> ExtractStatus(statusTexts, descTexts).Ok? && CountChar(credText, '\n') == 1
    ensures ExtractStatus(statusTexts, descTexts).Err? ==> r == Err(PageError(ExtractStatus(statusTexts, descTexts).error))
    ensures ExtractStatus(statusTexts, descTexts).Ok? && ReadCred(credText).Err? ==> r == Err(CredentialFileError(ReadCred(credText).error))
    ensures r.Ok? ==> r.value == MakeEmail(ExtractStatus(statusTexts, descTexts).value, entry, ReadCred(credText).value)
  {
    match ExtractStatus(statusTexts, descTexts)
    case Err(e) => Err(PageError(e))
    case Ok(status) =>
      match ReadCred(credText)
      case Err(e) => Err(CredentialFileError(e))
      case Ok(cred) => Ok(MakeEmail(status, entry, cred))
  }
}
