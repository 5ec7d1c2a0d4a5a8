/**
 * The quote-request endpoint (POST in src/app/api/contact/route.ts): required-field
 * validation, composition of the outgoing email, and the response. Parsing the
 * request body and sending the email are external; their outcomes are inputs.
 */
module ContactRoute {
  import opened Wrappers

  /** The fields read from the JSON body; None when the key is absent. */
  datatype Payload = Payload(
    name: Option<string>,
    email: Option<string>,
    company: Option<string>,
    projectType: Option<string>,
    budget: Option<string>,
    description: Option<string>)

  datatype Email = Email(from: string, to: string, replyTo: string, subject: string, text: string)

  datatype Body = SuccessBody | ErrorBody(error: string)

  datatype Response = Response(status: nat, body: Body)

  /** The response, and the email handed to the provider (None when none was attempted). */
  datatype Outcome = Outcome(response: Response, attempted: Option<Email>)

  const Sender: string := "beaty.pro <noreply@beaty.pro>"
  const Recipient: string := "chris@beaty.pro"
  const MissingFieldsMessage: string := "Missing required fields"
  const SendFailedMessage: string := "Failed to send email"
  const NotProvided: string := "Not provided"

  /** JavaScript truthiness of a string field: present and non-empty. */
  predicate Truthy(f: Option<string>)
  {
    f.Some? && f.value != ""
  }

  /** Every field the endpoint insists on is truthy. */
  predicate Complete(p: Payload)
  {
    Truthy(p.name) && Truthy(p.email) && Truthy(p.projectType) && Truthy(p.budget) && Truthy(p.description)
  }

  /** Array.prototype.join. */
  function Join(lines: seq<string>, sep: string): string
  {
    if |lines| == 0 then ""
    else if |lines| == 1 then lines[0]
    else lines[0] + sep + Join(lines[1..], sep)
  }

  /** String.prototype.split on one character; SplitJoin shows it undoes Join. */
  function Split(s: string, c: char): (parts: seq<string>)
    ensures |parts| > 0
  {
    if |s| == 0 then [""]
    else if s[0] == c then [""] + Split(s[1..], c)
    else
      var rest := Split(s[1..], c);
      [[s[0]] + rest[0]] + rest[1..]
  }

  /** A piece without the separator splits back to itself. */
  lemma {:induction false} SplitPiece(a: string, c: char)
    requires c !in a
    ensures Split(a, c) == [a]
  {
    if |a| > 0 {
      SplitPiece(a[1..], c);
      assert [a[0]] + a[1..] == a;
    }
  }

  /** Splitting a + c + b cuts at that occurrence of c when a holds none. */
  lemma {:induction false} SplitAt(a: string, c: char, b: string)
    requires c !in a
    ensures Split(a + [c] + b, c) == [a] + Split(b, c)
  {
    if |a| == 0 {
      assert a + [c] + b == [c] + b;
      assert ([c] + b)[1..] == b;
    } else {
      SplitAt(a[1..], c, b);
      assert (a + [c] + b)[1..] == a[1..] + [c] + b;
      assert [a[0]] + a[1..] == a;
    }
  }

  /** Join and Split are inverse when no piece holds the separator. */
  lemma {:induction false} SplitJoin(lines: seq<string>, c: char)
    requires |lines| > 0
    requires forall k :: 0 <= k < |lines| ==> c !in lines[k]
    ensures Split(Join(lines, [c]), c) == lines
  {
    if |lines| == 1 {
      SplitPiece(lines[0], c);
    } else {
      SplitJoin(lines[1..], c);
      SplitAt(lines[0], c, Join(lines[1..], [c]));
      assert [lines[0]] + lines[1..] == lines;
    }
  }

  /** Joining one more piece appends it after the separator. */
  lemma {:induction false} JoinSnoc(lines: seq<string>, last: string, sep: string)
    requires |lines| > 0
    ensures Join(lines + [last], sep) == Join(lines, sep) + sep + last
  {
    if |lines| == 1 {
      assert (lines + [last])[1..] == [last];
    } else {
      JoinSnoc(lines[1..], last, sep);
      assert (lines + [last])[1..] == lines[1..] + [last];
    }
  }

  /** `company || 'Not provided'`: the company line of the email is never left empty. */
  function CompanyText(company: Option<string>): (r: string)
    ensures r != ""
  {
    if Truthy(company) then company.value else NotProvided
  }

  /** The eight lines of the email text. */
  function BodyLines(p: Payload): seq<string>
    requires Complete(p)
  {
    [ "Name: " + p.name.value,
      "Email: " + p.email.value,
      "Company: " + CompanyText(p.company),
      "Project Type: " + p.projectType.value,
      "Budget Range: " + p.budget.value,
      "",
      "Project Description:",
      p.description.value ]
  }

  /** The email the endpoint hands to the provider for a complete payload. */
  function Compose(p: Payload): Email
    requires Complete(p)
  {
    Email(Sender, Recipient, p.email.value,
          "Quote Request: " + p.projectType.value + " - " + p.name.value,
          Join(BodyLines(p), "\n"))
  }

  /** The fields that end up on one line of the email text. */
  predicate SingleLine(p: Payload)
    requires Complete(p)
  {
    '\n' !in p.name.value && '\n' !in p.email.value && '\n' !in CompanyText(p.company) &&
    '\n' !in p.projectType.value && '\n' !in p.budget.value && '\n' !in p.description.value
  }

  /**
   * The text is exactly eight lines when the fields hold no line breaks; the
   * company line falls back to "Not provided".
   */
  lemma BodyHasEightLines(p: Payload)
    requires Complete(p) && SingleLine(p)
    ensures var lines := Split(Compose(p).text, '\n');
      |lines| == 8 && lines == BodyLines(p) &&
      lines[2] == "Company: " + (if Truthy(p.company) then p.company.value else NotProvided) &&
      lines[5] == "" && lines[6] == "Project Description:" && lines[7] == p.description.value
  {
    var ls := BodyLines(p);
    forall k | 0 <= k < |ls| ensures '\n' !in ls[k] {
      assert '\n' !in "Name: " && '\n' !in "Email: " && '\n' !in "Company: ";
      assert '\n' !in "Project Type: " && '\n' !in "Budget Range: " && '\n' !in "Project Description:";
    }
    SplitJoin(ls, '\n');
  }

  /** b is the suffix of a + b. */
  lemma SuffixOfConcat(a: string, b: string)
    ensures |b| <= |a + b| && (a + b)[|a + b| - |b|..] == b
  {
  }

  /** Whatever the description holds, the text ends with the description heading and the description. */
  lemma BodyEndsWithDescription(p: Payload)
    requires Complete(p)
    ensures var text := Compose(p).text;
      var tail := "\nProject Description:\n" + p.description.value;
      |tail| <= |text| && text[|text| - |tail|..] == tail
  {
    var ls := BodyLines(p);
    var head := ls[..6];
    var d := p.description.value;
    var seven := ls[..7];
    assert seven == head + ["Project Description:"];
    assert ls == seven + [d];
    JoinSnoc(head, "Project Description:", "\n");
    JoinSnoc(seven, d, "\n");
    var prefix := Join(head, "\n");
    var tail := "\nProject Description:\n" + d;
    assert Join(ls, "\n") == prefix + "\n" + "Project Description:" + "\n" + d;
    assert Join(ls, "\n") == prefix + tail;
    SuffixOfConcat(prefix, tail);
  }

  /**
   * POST. `request` is None when reading the JSON body throws; `delivered` says
   * whether the provider call returned without throwing. What the call resolves
   * to is not inspected, so an error reported in its result still answers 200.
   */
  function Post(request: Option<Payload>, delivered: bool): (r: Outcome)
    ensures r.response.status == 400 <==> request.Some? && !Complete(request.value)
    ensures r.response.status == 400 ==>
      r.response.body == ErrorBody(MissingFieldsMessage) && r.attempted == None
    ensures r.attempted.Some? <==> request.Some? && Complete(request.value)
    ensures r.attempted.Some? ==> r.attempted.value == Compose(request.value)
    ensures r.attempted.Some? ==>
      var p := request.value;
      r.attempted.value.from == Sender && r.attempted.value.to == Recipient &&
      r.attempted.value.replyTo == p.email.value &&
      r.attempted.value.subject == "Quote Request: " + p.projectType.value + " - " + p.name.value
    ensures r.response.status == 200 <==> request.Some? && Complete(request.value) && delivered
    ensures r.response.status == 200 ==> r.response.body == SuccessBody
    ensures r.response.status == 500 <==> request.None? || (Complete(request.value) && !delivered)
    ensures r.response.status == 500 ==> r.response.body == ErrorBody(SendFailedMessage)
    ensures r.response.status in {200, 400, 500}
  {
    match request
    case None => Outcome(Response(500, ErrorBody(SendFailedMessage)), None)
    case Some(p) =>
      if !Complete(p) then
        Outcome(Response(400, ErrorBody(MissingFieldsMessage)), None)
      else
        var email := Compose(p);
        if delivered then Outcome(Response(200, SuccessBody), Some(email))
        else Outcome(Response(500, ErrorBody(SendFailedMessage)), Some(email))
  }
}
