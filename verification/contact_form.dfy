/**
 * The submission pipeline of the `Contact_Form` class: `contact_form_validation`
 * checks the raw fields and adds errors to the instance's `reg_errors` container,
 * `complete_contact_form` sends the mail only when that container is empty, and
 * `custom_contact_form_main` runs both when the submit flag is present and then
 * renders the form.
 *
 * The host platform (e-mail syntax check, sanitisers, admin address) is a
 * `Platform` value of uninterpreted functions; mail, log and echoed output are
 * recorded as `Effects` instead of being performed.
 */
module ContactForm {
  import opened Php
  import WpError

  /** The three error codes validation adds. */
  datatype Code = Field | MessageLength | Email
  {
    /** The code string given to `WP_Error::add`. */
    function Name(): string
    {
      match this
      case Field => "field"
      case MessageLength => "message_length"
      case Email => "email"
    }

    /** The message added under the code. */
    function Message(): Message
    {
      match this
      case Field => MissingField
      case MessageLength => MessageTooShort
      case Email => InvalidEmail
    }

    /** The position of the check that adds this code. */
    function Rank(): nat
    {
      match this
      case Field => 0
      case MessageLength => 1
      case Email => 2
    }
  }

  /** The messages validation adds, one per code. */
  datatype Message = MissingField | MessageTooShort | InvalidEmail
  {
    /** The message string given to `WP_Error::add`. */
    function Text(): string
    {
      match this
      case MissingField => "Required form field is missing"
      case MessageTooShort => "Message too short. At least 4 characters is required"
      case InvalidEmail => "Email is not a valid"
    }
  }

  /** The three codes are three different `WP_Error` keys, so modelling them as an enumeration loses nothing. */
  lemma NamesDistinct(a: Code, b: Code)
    ensures a.Name() == b.Name() <==> a == b
  {
  }

  /** The three messages are three different strings, so an error block determines the text it echoes and back. */
  lemma TextsDistinct(a: Message, b: Message)
    ensures a.Text() == b.Text() <==> a == b
  {
  }

  type Errors = WpError.Error<Code, Message>
  type Finding = WpError.Entry<Code, Message>

  /** The five form fields as posted. */
  datatype Submission = Submission(firstname: Value, lastname: Value, subject: Value, message: Value, email: Value)

  /** The fields after `sanitize_text_field` (names, subject, message) and `sanitize_email` (email). */
  datatype Sanitized = Sanitized(firstname: Bytes, lastname: Bytes, subject: Bytes, message: Bytes, email: Bytes)

  /** What the handler needs from WordPress and PHP. */
  datatype Platform = Platform(
    isEmail: Bytes -> bool,        // filter_var( $email, FILTER_VALIDATE_EMAIL ) succeeds
    sanitizeText: Value -> Bytes,  // sanitize_text_field
    sanitizeEmail: Value -> Bytes, // sanitize_email
    adminEmail: Bytes)             // get_option( 'admin_email' )

  /** A request: whether `$_POST['submit']` is set, and the posted fields (absent ones read as null). */
  datatype Request = Request(submitted: bool, post: Submission)

  datatype Mail = Mail(to: Bytes, subject: Bytes, body: Bytes)

  /** Echoed output, in order. */
  datatype Output =
    | ErrorBlock(message: Message) // one `<strong>ERROR</strong>` block
    | Notice(text: string)         // the success line
    | Form(values: Submission)     // `add_contact_form`, pre-filled with the posted values

  /** What one call produces: mails handed to `wp_mail`, lines given to `error_log`, and output. */
  datatype Effects = Effects(mails: seq<Mail>, log: seq<Bytes>, output: seq<Output>)

  /** The plugin object's state that outlives a call: the `reg_errors` container. */
  datatype Instance = Instance(regErrors: Errors)

  /** The result of one shortcode rendering. */
  datatype Step = Step(next: Instance, effects: Effects)

  const MinMessageLength: nat := 4
  const SentText: string := "Email sended"
  const LogPrefix: Bytes := Ascii("Email sent from ")

  // ---------------------------------------------------------------- validation

  /** Some field is PHP-empty. */
  predicate AnyEmpty(s: Submission)
  {
    Empty(s.firstname) || Empty(s.lastname) || Empty(s.subject) || Empty(s.message) || Empty(s.email)
  }

  /** The message is shorter than the minimum, in bytes. */
  predicate TooShort(s: Submission)
  {
    StrLen(s.message) < MinMessageLength
  }

  /** The email is non-empty and the platform rejects its syntax. */
  predicate BadEmail(p: Platform, s: Submission)
  {
    !Empty(s.email) && !p.isEmail(s.email.bytes)
  }

  /** Whether the check behind `code` fails for the submission. */
  predicate Fails(p: Platform, s: Submission, code: Code)
  {
    match code
    case Field => AnyEmpty(s)
    case MessageLength => TooShort(s)
    case Email => BadEmail(p, s)
  }

  /** The `add` call a check makes: one entry under its code when it fails, none otherwise. */
  function Report(fails: bool, code: Code): (r: seq<Finding>)
    ensures |r| == if fails then 1 else 0
    ensures fails ==> r[0] == WpError.Entry(code, code.Message())
  {
    if fails then [WpError.Entry(code, code.Message())] else []
  }

  /** A report holds the code's message once if the check failed, and nothing under any other code. */
  lemma ReportFilter(fails: bool, code: Code, other: Code)
    ensures WpError.Filter(Report(fails, code), other) == if fails && other == code then [code.Message()] else []
  {
  }

  /** The `add` calls one validation makes, in check order. */
  function Findings(p: Platform, s: Submission): seq<Finding>
  {
    Report(AnyEmpty(s), Field) + Report(TooShort(s), MessageLength) + Report(BadEmail(p, s), Email)
  }

  /** The findings are in check order, so no code occurs twice. */
  lemma FindingsOrdered(p: Platform, s: Submission)
    ensures var r := Findings(p, s);
      forall i, j :: 0 <= i < j < |r| ==> r[i].code.Rank() < r[j].code.Rank()
  {
  }

  /** One check: add the code's message when the check fails, otherwise leave the container alone. */
  function Check(e: Errors, fails: bool, code: Code): (r: Errors)
    ensures r.entries == e.entries + Report(fails, code)
  {
    if fails then WpError.Add(e, code, code.Message()) else assert e.entries + [] == e.entries; e
  }

  /**
   * `contact_form_validation` without its display loop: the three checks in order, each
   * adding its message to the container when it fails. No check stops the others, and
   * the result is the container with the findings' `add` calls made in order.
   */
  function Validate(p: Platform, s: Submission, e: Errors): (r: Errors)
    ensures r.entries == e.entries + Findings(p, s)
  {
    var e1 := Check(e, AnyEmpty(s), Field);
    var e2 := Check(e1, TooShort(s), MessageLength);
    var e3 := Check(e2, BadEmail(p, s), Email);
    var a, b, c := Report(AnyEmpty(s), Field), Report(TooShort(s), MessageLength), Report(BadEmail(p, s), Email);
    WpError.AppendAssociative(e.entries, a, b);
    WpError.AppendAssociative(e.entries, a + b, c);
    e3
  }

  /** Each code occurs in the findings once if its check fails, and not at all otherwise. */
  lemma FilterFindings(p: Platform, s: Submission, code: Code)
    ensures WpError.Filter(Findings(p, s), code) == if Fails(p, s, code) then [code.Message()] else []
  {
    var a, b, c := Report(AnyEmpty(s), Field), Report(TooShort(s), MessageLength), Report(BadEmail(p, s), Email);
    WpError.FilterAppend(a + b, c, code);
    WpError.FilterAppend(a, b, code);
    ReportFilter(AnyEmpty(s), Field, code);
    ReportFilter(TooShort(s), MessageLength, code);
    ReportFilter(BadEmail(p, s), Email, code);
  }

  /** Validation appends one message under a code exactly when that code's check fails, and nothing else under it. */
  lemma ValidateRule(p: Platform, s: Submission, e: Errors, code: Code)
    ensures WpError.MessagesFor(Validate(p, s, e), code)
         == WpError.MessagesFor(e, code) + (if Fails(p, s, code) then [code.Message()] else [])
  {
    WpError.AddAllMessagesFor(e, Findings(p, s), code);
    FilterFindings(p, s, code);
  }

  /**
   * The first check adds exactly one `field` error when any field is empty, however many
   * are, and none otherwise.
   */
  lemma ValidateField(p: Platform, s: Submission, e: Errors)
    ensures WpError.MessagesFor(Validate(p, s, e), Field)
         == WpError.MessagesFor(e, Field) + (if AnyEmpty(s) then [MissingField] else [])
  {
    ValidateRule(p, s, e, Field);
  }

  /** The second check adds one `message_length` error exactly when the message is under four bytes. */
  lemma ValidateMessageLength(p: Platform, s: Submission, e: Errors)
    ensures WpError.MessagesFor(Validate(p, s, e), MessageLength)
         == WpError.MessagesFor(e, MessageLength) + (if StrLen(s.message) < 4 then [MessageTooShort] else [])
  {
    ValidateRule(p, s, e, MessageLength);
  }

  /** The third check adds one `email` error exactly when the email is non-empty and rejected by the syntax check. */
  lemma ValidateEmail(p: Platform, s: Submission, e: Errors)
    ensures WpError.MessagesFor(Validate(p, s, e), Email)
         == WpError.MessagesFor(e, Email) + (if !Empty(s.email) && !p.isEmail(s.email.bytes) then [InvalidEmail] else [])
  {
    ValidateRule(p, s, e, Email);
  }

  /** An empty message (null, "" or "0") fails both the presence and the length check. */
  lemma EmptyMessageFailsTwice(p: Platform, s: Submission, e: Errors)
    requires Empty(s.message)
    ensures WpError.MessagesFor(Validate(p, s, e), Field) == WpError.MessagesFor(e, Field) + [MissingField]
    ensures WpError.MessagesFor(Validate(p, s, e), MessageLength) == WpError.MessagesFor(e, MessageLength) + [MessageTooShort]
  {
    ValidateField(p, s, e);
    ValidateMessageLength(p, s, e);
  }

  /** An empty email fails the presence check but is never handed to the syntax check. */
  lemma EmptyEmailSkipsSyntax(p: Platform, s: Submission, e: Errors)
    requires Empty(s.email)
    ensures WpError.MessagesFor(Validate(p, s, e), Field) == WpError.MessagesFor(e, Field) + [MissingField]
    ensures WpError.MessagesFor(Validate(p, s, e), Email) == WpError.MessagesFor(e, Email)
  {
    ValidateField(p, s, e);
    ValidateEmail(p, s, e);
  }

  /**
   * On a new container, validation leaves exactly the messages of the failing checks, in
   * check order: `field`, then `message_length`, then `email`.
   */
  lemma ValidateFresh(p: Platform, s: Submission)
    ensures WpError.GetErrorMessages(Validate(p, s, WpError.New())) == WpError.Messages(Findings(p, s))
  {
    var findings := Findings(p, s);
    assert WpError.DistinctCodes(findings) by {
      FindingsOrdered(p, s);
      forall i, j | 0 <= i < j < |findings| ensures findings[i].code != findings[j].code {
        assert findings[i].code.Rank() < findings[j].code.Rank();
      }
    }
    WpError.AddAllFreshCodes(WpError.New(), findings);
  }

  /**
   * Validation is not idempotent on one container: validating the same submission again
   * adds its findings a second time, so a failing submission doubles its error count.
   */
  lemma RevalidateAccumulates(p: Platform, s: Submission, e: Errors)
    ensures WpError.Count(Validate(p, s, Validate(p, s, e))) == WpError.Count(e) + 2 * |Findings(p, s)|
    ensures (WpError.Count(Validate(p, s, Validate(p, s, e))) == WpError.Count(e))
        <==> !AnyEmpty(s) && !TooShort(s) && !BadEmail(p, s)
  {
    var once := Validate(p, s, e);
    var twice := Validate(p, s, once);
    WpError.CountIsCalls(e);
    WpError.CountIsCalls(once);
    WpError.CountIsCalls(twice);
  }

  /** One error block per message, in order. */
  function Blocks(messages: seq<Message>): (r: seq<Output>)
    ensures |r| == |messages|
    ensures forall i :: 0 <= i < |r| ==> r[i] == ErrorBlock(messages[i])
  {
    if messages == [] then []
    else Blocks(messages[..|messages| - 1]) + [ErrorBlock(messages[|messages| - 1])]
  }

  /** The error blocks the display loop echoes: one per message in the container, in `get_error_messages()` order. */
  function ErrorBlocks(e: Errors): (r: seq<Output>)
    ensures |r| == WpError.Count(e)
    ensures forall i :: 0 <= i < |r| ==> r[i] == ErrorBlock(WpError.GetErrorMessages(e)[i])
  {
    Blocks(WpError.GetErrorMessages(e))
  }

  // ---------------------------------------------------------------- sending

  /** The line given to `error_log` after a send. */
  function LogLine(email: Bytes): (r: Bytes)
    ensures |r| == |LogPrefix| + |email|
    ensures r[|LogPrefix|..] == email
  {
    LogPrefix + email
  }

  /** The sanitising copies `custom_contact_form_main` hands to the send step. */
  function Sanitize(p: Platform, s: Submission): Sanitized
  {
    Sanitized(p.sanitizeText(s.firstname), p.sanitizeText(s.lastname), p.sanitizeText(s.subject),
              p.sanitizeText(s.message), p.sanitizeEmail(s.email))
  }

  /**
   * `complete_contact_form`: when the container holds no message, one mail to the admin
   * address with the given subject and body, one log line naming the sender, and the
   * success line; otherwise nothing at all.
   */
  function Complete(p: Platform, e: Errors, t: Sanitized): (r: Effects)
    ensures |r.mails| <= 1 && |r.log| == |r.mails|
    ensures r.mails != [] <==> WpError.Count(e) == 0
    ensures r.mails != [] ==> r.mails == [Mail(p.adminEmail, t.subject, t.message)]
    ensures r.log != [] ==> r.log == [LogLine(t.email)]
    ensures r.output == (if r.mails != [] then [Notice(SentText)] else [])
  {
    if 1 > WpError.Count(e) then
      Effects([Mail(p.adminEmail, t.subject, t.message)], [LogLine(t.email)], [Notice(SentText)])
    else
      Effects([], [], [])
  }

  // ---------------------------------------------------------------- the handler

  /** The request is not a submission, or its fields pass all three checks. */
  predicate Passes(p: Platform, req: Request)
  {
    !req.submitted || (!AnyEmpty(req.post) && !TooShort(req.post) && !BadEmail(p, req.post))
  }

  /** `__construct`: a fresh object starts with an empty container. */
  function Construct(): (r: Instance)
    ensures WpError.Count(r.regErrors) == 0
    ensures forall code: Code :: WpError.MessagesFor(r.regErrors, code) == []
  {
    Instance(WpError.New())
  }

  /** The state change of one rendering: a submission is validated into the container; anything else changes nothing. */
  function Advance(p: Platform, inst: Instance, req: Request): (r: Instance)
    ensures WpError.Extends(inst.regErrors, r.regErrors)
    ensures WpError.Count(r.regErrors) >= WpError.Count(inst.regErrors)
    ensures WpError.Count(r.regErrors) == 0 <==> WpError.Count(inst.regErrors) == 0 && Passes(p, req)
  {
    if req.submitted then
      assert Findings(p, req.post) == [] <==> Passes(p, req);
      Instance(Validate(p, req.post, inst.regErrors))
    else
      inst
  }

  /**
   * `custom_contact_form_main`: with the submit flag, validate the raw fields into the
   * instance's container, echo every message it holds, sanitise, and run the send step;
   * in every case finish with the form, pre-filled with the raw posted values.
   */
  function Handle(p: Platform, inst: Instance, req: Request): (r: Step)
    ensures r.next == Advance(p, inst, req)
    ensures !req.submitted ==> r.next == inst && r.effects == Effects([], [], [Form(req.post)])
    ensures req.submitted ==> r.next.regErrors == Validate(p, req.post, inst.regErrors)
    ensures |r.effects.mails| <= 1 && |r.effects.log| == |r.effects.mails|
    ensures r.effects.mails != [] <==> req.submitted && WpError.Count(inst.regErrors) == 0 && Passes(p, req)
    ensures r.effects.mails != [] ==>
              && r.effects.mails == [Mail(p.adminEmail, p.sanitizeText(req.post.subject), p.sanitizeText(req.post.message))]
              && r.effects.log == [LogLine(p.sanitizeEmail(req.post.email))]
    ensures req.submitted ==>
              r.effects.output == ErrorBlocks(r.next.regErrors)
                                  + (if r.effects.mails != [] then [Notice(SentText)] else [])
                                  + [Form(req.post)]
  {
    if req.submitted then
      var errors := Validate(p, req.post, inst.regErrors);
      var shown := ErrorBlocks(errors);
      var done := Complete(p, errors, Sanitize(p, req.post));
      assert Findings(p, req.post) == [] <==> Passes(p, req);
      Step(Instance(errors), Effects(done.mails, done.log, shown + done.output + [Form(req.post)]))
    else
      Step(inst, Effects([], [], [Form(req.post)]))
  }

  /**
   * The example submission, as bytes: first name "Jo", last name "Doe", subject "Hi",
   * message "Hello!" and email "jo@doe.com".
   */
  const JoDoe: Submission :=
    Submission(Str([0x4a, 0x6f]), Str([0x44, 0x6f, 0x65]), Str([0x48, 0x69]),
               Str([0x48, 0x65, 0x6c, 0x6c, 0x6f, 0x21]),
               Str([0x6a, 0x6f, 0x40, 0x64, 0x6f, 0x65, 0x2e, 0x63, 0x6f, 0x6d]))

  /** The example passes validation when the platform accepts its email. */
  lemma JoDoePasses(p: Platform)
    requires p.isEmail(JoDoe.email.bytes)
    ensures Passes(p, Request(true, JoDoe))
  {
    assert |JoDoe.message.bytes| == 6;
  }

  /**
   * The example on a new object: when the platform accepts its email and its sanitisers leave
   * its values as they are, one mail goes out with its subject and message, its sender is
   * logged, no error is recorded, and the page shows the notice and the form.
   */
  lemma ValidSubmission(p: Platform)
    requires p.isEmail(JoDoe.email.bytes)
    requires p.sanitizeText(JoDoe.subject) == JoDoe.subject.bytes
    requires p.sanitizeText(JoDoe.message) == JoDoe.message.bytes
    requires p.sanitizeEmail(JoDoe.email) == JoDoe.email.bytes
    ensures
      var r := Handle(p, Construct(), Request(true, JoDoe));
      && WpError.Count(r.next.regErrors) == 0
      && r.effects.mails == [Mail(p.adminEmail, JoDoe.subject.bytes, JoDoe.message.bytes)]
      && r.effects.log == [LogLine(JoDoe.email.bytes)]
      && r.effects.output == [Notice(SentText), Form(JoDoe)]
  {
    JoDoePasses(p);
    AcceptedOnNewObject(p, JoDoe);
  }

  /** On a new object, a submission that passes validation is sent and records no error. */
  lemma AcceptedOnNewObject(p: Platform, post: Submission)
    requires Passes(p, Request(true, post))
    ensures
      var r := Handle(p, Construct(), Request(true, post));
      && WpError.Count(r.next.regErrors) == 0
      && r.effects.mails == [Mail(p.adminEmail, p.sanitizeText(post.subject), p.sanitizeText(post.message))]
      && r.effects.log == [LogLine(p.sanitizeEmail(post.email))]
      && r.effects.output == [Notice(SentText), Form(post)]
  {
    var r := Handle(p, Construct(), Request(true, post));
    assert r.effects.mails != [];
    assert ErrorBlocks(r.next.regErrors) == [];
  }

  // ---------------------------------------------------------------- the object's lifetime

  /** The object's state after the requests, handled in order. */
  function After(p: Platform, inst: Instance, reqs: seq<Request>): (r: Instance)
    ensures WpError.Extends(inst.regErrors, r.regErrors)
    ensures WpError.Count(r.regErrors) >= WpError.Count(inst.regErrors)
    decreases |reqs|
  {
    if reqs == [] then inst
    else Advance(p, After(p, inst, reqs[..|reqs| - 1]), reqs[|reqs| - 1])
  }

  /**
   * The container is still empty after a run exactly when it started empty and every
   * submission in the run passed validation: errors are never cleared.
   */
  lemma {:induction false} AfterClean(p: Platform, inst: Instance, reqs: seq<Request>)
    ensures WpError.Count(After(p, inst, reqs).regErrors) == 0 <==>
              WpError.Count(inst.regErrors) == 0 && forall j :: 0 <= j < |reqs| ==> Passes(p, reqs[j])
  {
    if reqs != [] {
      var init := reqs[..|reqs| - 1];
      AfterClean(p, inst, init);
      assert (forall j :: 0 <= j < |reqs| ==> Passes(p, reqs[j])) <==>
               (forall j :: 0 <= j < |init| ==> Passes(p, init[j])) && Passes(p, reqs[|reqs| - 1]) by {
        assert forall j :: 0 <= j < |init| ==> init[j] == reqs[j];
      }
    }
  }

  /**
   * After a run, the next rendering sends mail exactly when it is a submission that passes
   * validation, the object's container started empty, and every earlier submission on the
   * object passed validation too. So one failed submission blocks every later mail from the
   * same object.
   */
  lemma NextMail(p: Platform, inst: Instance, reqs: seq<Request>, req: Request)
    ensures Handle(p, After(p, inst, reqs), req).effects.mails != [] <==>
              && req.submitted
              && Passes(p, req)
              && WpError.Count(inst.regErrors) == 0
              && forall j :: 0 <= j < |reqs| ==> Passes(p, reqs[j])
  {
    AfterClean(p, inst, reqs);
  }
}
