/** The contact form's submit handler: the three field rules, the overall
    verdict, and the record kept on success. The document, the error
    elements, local storage and the redirect timer are outside the model;
    what the handler shows and where it goes are returned as values. */
module ContactForm {

  import opened Wrappers
  import opened JsString
  import opened EmailPattern

  datatype Field = Name | Email | Message

  /** The three values read from the form at submit time. */
  datatype Submission = Submission(name: string, email: string, message: string) {
    function Value(f: Field): string {
      match f
      case Name => name
      case Email => email
      case Message => message
    }
  }

  const MinNameLength: nat := 2
  const MinMessageLength: nat := 10

  const NameRequired := "Name is required"
  const NameTooShort := "Name must be at least 2 characters"
  const EmailRequired := "Email is required"
  const EmailInvalid := "Please enter a valid email"
  const MessageRequired := "Message is required"
  const MessageTooShort := "Message must be at least 10 characters"

  const SuccessNotice := "Message sent successfully! Redirecting..."
  const FailureNotice := "Please fix the errors above"
  const RedirectTarget := "form-details.html"
  const RedirectDelayMs: nat := 1500

  /** The name rule. A name is accepted exactly when it is at least two UTF-16
      code units long; an empty name is reported as missing, any other
      rejected name as too short. */
  function CheckName(name: string): (e: Option<string>)
    ensures e.None? <==> Utf16Length(name) >= MinNameLength
    ensures e == Some(NameRequired) <==> name == []
    ensures e == Some(NameTooShort) <==> name != [] && Utf16Length(name) < MinNameLength
  {
    if name == [] then Some(NameRequired)
    else if Utf16Length(name) < MinNameLength then Some(NameTooShort)
    else None
  }

  /** The email rule. An email is accepted exactly when it is in the pattern's
      language; an empty email is reported as missing, so the pattern only
      decides the message for a non-empty one. */
  function CheckEmail(email: string): (e: Option<string>)
    ensures e.None? <==> InPatternLanguage(email)
    ensures e == Some(EmailRequired) <==> email == []
    ensures e == Some(EmailInvalid) <==> email != [] && !InPatternLanguage(email)
  {
    MatchesEmailPatternIffInLanguage(email);
    EmptyNotInLanguage();
    if email == [] then Some(EmailRequired)
    else if !MatchesEmailPattern(email) then Some(EmailInvalid)
    else None
  }

  /** The message rule: at least ten UTF-16 code units. */
  function CheckMessage(message: string): (e: Option<string>)
    ensures e.None? <==> Utf16Length(message) >= MinMessageLength
    ensures e == Some(MessageRequired) <==> message == []
    ensures e == Some(MessageTooShort) <==> message != [] && Utf16Length(message) < MinMessageLength
  {
    if message == [] then Some(MessageRequired)
    else if Utf16Length(message) < MinMessageLength then Some(MessageTooShort)
    else None
  }

  /** The rule that applies to field `f`. */
  function Check(f: Field, value: string): Option<string> {
    match f
    case Name => CheckName(value)
    case Email => CheckEmail(value)
    case Message => CheckMessage(value)
  }

  /** The messages shown next to the fields, and whether the submission passed. */
  datatype Verdict = Verdict(errors: map<Field, string>, valid: bool)

  /** Records the error of one rule, if any, for field `f`. */
  function Report(errors: map<Field, string>, f: Field, e: Option<string>): map<Field, string> {
    match e
    case None => errors
    case Some(msg) => errors[f := msg]
  }

  /** The handler's validation pass. The error display starts cleared, every
      rule runs whatever the others found, each rule reports at most one
      message for its own field, and a separate flag records whether any rule
      failed. */
  function Validate(s: Submission): (v: Verdict)
    ensures forall f :: f in v.errors <==> Check(f, s.Value(f)).Some?
    ensures forall f :: f in v.errors ==> Some(v.errors[f]) == Check(f, s.Value(f))
    ensures v.valid <==> v.errors == map[]
    ensures v.valid <==>
      && Utf16Length(s.name) >= MinNameLength
      && InPatternLanguage(s.email)
      && Utf16Length(s.message) >= MinMessageLength
  {
    var nameError := CheckName(s.name);
    var emailError := CheckEmail(s.email);
    var messageError := CheckMessage(s.message);
    var errors := Report(Report(Report(map[], Name, nameError), Email, emailError), Message, messageError);
    var isValid := nameError.None? && emailError.None? && messageError.None?;
    assert !isValid ==> errors != map[] by {
      if nameError.Some? { assert Name in errors; }
      if emailError.Some? { assert Email in errors; }
      if messageError.Some? { assert Message in errors; }
    }
    Verdict(errors, isValid)
  }

  /** What a field displays depends on that field's value alone: the rules do
      not short-circuit one another. */
  lemma FieldsCheckedIndependently(s: Submission, t: Submission, f: Field)
    requires s.Value(f) == t.Value(f)
    ensures f in Validate(s).errors <==> f in Validate(t).errors
    ensures f in Validate(s).errors ==> Validate(s).errors[f] == Validate(t).errors[f]
  {
  }

  /** The object written to local storage after a valid submission. */
  datatype FormRecord = FormRecord(name: string, email: string, message: string, timestamp: string)

  /** The visible result of one submission: either the record that is stored,
      the success notice and the scheduled redirect, or the field errors and
      the failure notice. */
  datatype Outcome =
    | Sent(record: FormRecord, notice: string, redirectTo: string, delayMs: nat)
    | Refused(errors: map<Field, string>, notice: string)

  /** The values the handler validates: each raw input with whitespace cut
      from both ends. */
  function ReadForm(rawName: string, rawEmail: string, rawMessage: string): (s: Submission)
    ensures IsTrimOf(s.name, rawName) && IsTrimOf(s.email, rawEmail) && IsTrimOf(s.message, rawMessage)
  {
    TrimIsTrimOf(rawName);
    TrimIsTrimOf(rawEmail);
    TrimIsTrimOf(rawMessage);
    Submission(Trim(rawName), Trim(rawEmail), Trim(rawMessage))
  }

  /** The submit handler. `timestamp` stands for the locale-formatted capture
      time, which the model takes as given. A record is produced exactly when
      validation passes, and it carries the trimmed values verbatim; otherwise
      the non-empty set of field errors is shown and nothing is stored. */
  function Submit(rawName: string, rawEmail: string, rawMessage: string, timestamp: string): (o: Outcome)
    ensures var s := ReadForm(rawName, rawEmail, rawMessage);
      && (o.Sent? <==> Validate(s).valid)
      && (o.Sent? ==> o.record == FormRecord(s.name, s.email, s.message, timestamp))
      && (o.Sent? ==> o.notice == SuccessNotice)
      && (o.Sent? ==> o.redirectTo == RedirectTarget && o.delayMs == RedirectDelayMs)
      && (o.Refused? ==> o.errors == Validate(s).errors && o.errors != map[])
      && (o.Refused? ==> o.notice == FailureNotice)
  {
    var s := ReadForm(rawName, rawEmail, rawMessage);
    var v := Validate(s);
    if v.valid then
      Sent(FormRecord(s.name, s.email, s.message, timestamp), SuccessNotice, RedirectTarget, RedirectDelayMs)
    else
      Refused(v.errors, FailureNotice)
  }

  /** Whitespace around the values never changes the outcome: the handler
      trims each input before it validates, so padding any input on either
      side, each by its own amount, changes neither the verdict nor the
      record. */
  lemma SubmitIgnoresPadding(rawName: string, rawEmail: string, rawMessage: string, timestamp: string,
                             nameLeft: string, nameRight: string,
                             emailLeft: string, emailRight: string,
                             messageLeft: string, messageRight: string)
    requires AllSpace(nameLeft) && AllSpace(nameRight)
    requires AllSpace(emailLeft) && AllSpace(emailRight)
    requires AllSpace(messageLeft) && AllSpace(messageRight)
    ensures Submit(nameLeft + rawName + nameRight, emailLeft + rawEmail + emailRight,
                   messageLeft + rawMessage + messageRight, timestamp)
         == Submit(rawName, rawEmail, rawMessage, timestamp)
  {
    TrimIgnoresPadding(rawName, nameLeft, nameRight);
    TrimIgnoresPadding(rawEmail, emailLeft, emailRight);
    TrimIgnoresPadding(rawMessage, messageLeft, messageRight);
    assert ReadForm(nameLeft + rawName + nameRight, emailLeft + rawEmail + emailRight,
                    messageLeft + rawMessage + messageRight)
        == ReadForm(rawName, rawEmail, rawMessage);
  }

  lemma ExampleMissingName()
    ensures Validate(Submission("", "a@b.com", "1234567890")) == Verdict(map[Name := NameRequired], false)
  {
    assert MatchesEmailPattern("a@b.com") by {
      assert "a@b.com"[1] == '@' && "a@b.com"[3] == '.';
    }
  }

  lemma ExampleBadEmailShortMessage()
    ensures Validate(Submission("Al", "bad-email", "short"))
      == Verdict(map[Email := EmailInvalid, Message := MessageTooShort], false)
  {
    assert !MatchesEmailPattern("bad-email") by {
      assert forall k :: 0 <= k < 9 ==> "bad-email"[k] != '@';
    }
  }

  lemma ExampleValid()
    ensures Submit("Alice", "alice@example.com", "Hello, this is long enough.", "10/10/2026, 12:00:00")
      == Sent(FormRecord("Alice", "alice@example.com", "Hello, this is long enough.", "10/10/2026, 12:00:00"),
              SuccessNotice, RedirectTarget, RedirectDelayMs)
  {
    var name, email, message := "Alice", "alice@example.com", "Hello, this is long enough.";
    TrimmedIsFixed(name);
    TrimmedIsFixed(email);
    TrimmedIsFixed(message);
    ExampleEmailMatches();
    assert Validate(Submission(name, email, message)).valid;
  }

  lemma ExampleEmailMatches()
    ensures MatchesEmailPattern("alice@example.com")
  {
    var email := "alice@example.com";
    VisibleAsciiHasNoSpace(email);
    assert forall k :: 0 <= k < |email| && k != 5 ==> email[k] != '@';
    assert email[5] == '@' && email[13] == '.';
  }
}
