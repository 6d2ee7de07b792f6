/** The submit handler of the mail-to contact form (`setupContactForm`,
    js/modern.js). The handler reads the name, email and feedback fields,
    trims each, and then either blocks submission with an alert or lets the
    mail client take over with a thank-you alert. The alert text is returned
    as `message`; "the default action is prevented" is `blocked`. */
module ContactForm {
  import opened Text
  import opened Email

  datatype Outcome = BlockedEmpty | BlockedBadEmail | Allowed

  datatype SubmitDecision = SubmitDecision(outcome: Outcome, blocked: bool, message: string)

  const FillAllFields: string := "Please fill in all fields"
  const EnterValidEmail: string := "Please enter a valid email address"
  const ThankYou: string := "Thank you for your message! We will get back to you soon."

  /** The alert shown for each outcome. */
  function MessageFor(o: Outcome): string {
    match o
    case BlockedEmpty => FillAllFields
    case BlockedBadEmail => EnterValidEmail
    case Allowed => ThankYou
  }

  /** The handler's decision. A trimmed value is JavaScript-falsy exactly
      when it is the empty string. The emptiness test comes first and covers
      all three fields; the email test sees only the trimmed email. */
  function Submit(name: string, email: string, feedback: string): (d: SubmitDecision)
    ensures d.outcome == BlockedEmpty <==> Trim(name) == [] || Trim(email) == [] || Trim(feedback) == []
    ensures d.outcome == BlockedBadEmail <==>
              Trim(name) != [] && Trim(email) != [] && Trim(feedback) != [] && !IsValidEmail(Trim(email))
    ensures d.outcome == Allowed <==>
              Trim(name) != [] && Trim(feedback) != [] && IsValidEmail(Trim(email))
    ensures d.blocked <==> d.outcome != Allowed
    ensures d.message == MessageFor(d.outcome)
  {
    var n, e, f := Trim(name), Trim(email), Trim(feedback);
    if n == [] || e == [] || f == [] then
      SubmitDecision(BlockedEmpty, true, FillAllFields)
    else if !IsValidEmail(e) then
      SubmitDecision(BlockedBadEmail, true, EnterValidEmail)
    else
      SubmitDecision(Allowed, false, ThankYou)
  }

  /** A blank field blocks with the "fill in all fields" alert whatever the
      email says: the email's content does not matter. */
  lemma BlankFieldBlocks(name: string, email: string, email': string, feedback: string)
    requires AllWhitespace(name) || AllWhitespace(feedback)
    ensures Submit(name, email, feedback) == SubmitDecision(BlockedEmpty, true, FillAllFields)
    ensures Submit(name, email, feedback) == Submit(name, email', feedback)
  {
  }

  /** Whitespace around the email never changes the decision. */
  lemma EmailPaddingIgnored(name: string, a: string, email: string, b: string, feedback: string)
    requires AllWhitespace(a) && AllWhitespace(b)
    ensures Submit(name, a + email + b, feedback) == Submit(name, email, feedback)
  {
    TrimIgnoresPadding(a, email, b);
  }

  /** The submission goes through, with the thank-you alert, exactly when
      the name and feedback are not blank and the email, once trimmed,
      matches the pattern. */
  lemma AllowedIffWellFormed(name: string, email: string, feedback: string)
    ensures !Submit(name, email, feedback).blocked <==>
              !AllWhitespace(name) && !AllWhitespace(feedback) && WellFormed(Trim(email))
  {
    ValidEmailIffWellFormed(Trim(email));
  }

  /** A concrete submission: padded, well-formed fields go through. */
  lemma PaddedSubmissionAllowed()
    ensures Submit("Ada", "  a@b.com\n", "Hello") == SubmitDecision(Allowed, false, ThankYou)
  {
    var e := "a@b.com";
    AcceptedExamples();
    assert "  a@b.com\n" == "  " + e + "\n";
    EmailPaddingIgnored("Ada", "  ", e, "\n", "Hello");
    NotBlank("Ada");
    NotBlank(e);
    NotBlank("Hello");
    TrimmedAlready(e);
    TrimmedAlready("Ada");
    TrimmedAlready("Hello");
  }

  /** A value starting with an ASCII letter is not blank. */
  lemma NotBlank(s: string)
    requires |s| > 0 && ('A' <= s[0] <= 'Z' || 'a' <= s[0] <= 'z')
    ensures !AllWhitespace(s)
  {
    assert !IsWhitespace(s[0]);
  }

  /** A value that starts and ends with an ASCII letter is its own trim. */
  lemma TrimmedAlready(s: string)
    requires |s| > 0 && ('A' <= s[0] <= 'Z' || 'a' <= s[0] <= 'z')
    requires 'A' <= s[|s| - 1] <= 'Z' || 'a' <= s[|s| - 1] <= 'z'
    ensures Trim(s) == s
  {
    assert !IsWhitespace(s[0]) && !IsWhitespace(s[|s| - 1]);
    LeadingWhitespaceUnique(s, 0);
    TrailingWhitespaceUnique(s, 0);
    assert s[0..|s|] == s;
  }
}
