/** The contact form's submit handler: three fields are trimmed and checked
    independently (name required; email required, then a pattern; message
    required, then at least ten characters), each field's form group shows
    exactly one inline error or none, and the form is cleared with a success
    banner when every field passes. */
module ContactForm {
  import opened Wrappers
  import opened JsStrings

  /** The fields, by element id. */
  datatype Field = Name | Email | Message

  /** The five inline errors. */
  datatype FieldError = NameRequired | EmailRequired | EmailInvalid | MessageRequired | MessageTooShort

  /** The text shown for each error. */
  function ErrorText(e: FieldError): string {
    match e
    case NameRequired => "Nama harus diisi"
    case EmailRequired => "Email harus diisi"
    case EmailInvalid => "Format email tidak valid"
    case MessageRequired => "Pesan harus diisi"
    case MessageTooShort => "Pesan minimal 10 karakter"
  }

  const MinMessageLength := 10

  /** A character of the class `[^\s@]`. */
  predicate Plain(c: char) {
    !IsSpace(c) && c != '@'
  }

  predicate AllPlain(s: string) {
    forall i :: 0 <= i < |s| ==> Plain(s[i])
  }

  /** A full match of `^[^\s@]+@[^\s@]+\.[^\s@]+$`: a non-empty local part,
      `@`, a non-empty domain part, `.`, a non-empty tail, none of the three
      holding whitespace or `@`. */
  ghost predicate EmailPattern(s: string) {
    exists at, dot :: 0 < at && at + 1 < dot && dot + 1 < |s| && s[at] == '@' && s[dot] == '.' &&
      AllPlain(s[..at]) && AllPlain(s[at + 1..dot]) && AllPlain(s[dot + 1..])
  }

  /** `t` has a `.` that is neither its first nor its last character. */
  predicate InnerDot(t: string) {
    exists p :: 0 < p < |t| - 1 && t[p] == '.'
  }

  /** The email check: the text before the first `@` and the text after it
      hold no whitespace and no further `@`, the former is non-empty and the
      latter has a `.` strictly inside it. It accepts exactly the strings
      the regular expression matches. */
  function IsValidEmail(s: string): (ok: bool)
    ensures ok <==> EmailPattern(s)
  {
    IndexOfSpec(s, "@");
    match IndexOf(s, "@")
    case None =>
      NoAtNoMatch(s);
      false
    case Some(at) =>
      var ok := 0 < at && AllPlain(s[..at]) && AllPlain(s[at + 1..]) && InnerDot(s[at + 1..]);
      EmailMatch(s, at);
      ok
  }

  /** A string without `@` does not match. */
  lemma NoAtNoMatch(s: string)
    requires forall k :: !OccursAt(s, "@", k)
    ensures !EmailPattern(s)
  {
    forall i | 0 <= i < |s| ensures s[i] != '@' {
      assert s[i..i + 1] == [s[i]];
      assert !OccursAt(s, "@", i);
    }
  }

  /** With `at` the first `@` of `s`, the pattern matches exactly when the
      email check's conditions hold. */
  lemma EmailMatch(s: string, at: nat)
    requires OccursAt(s, "@", at)
    requires forall k :: 0 <= k < at ==> !OccursAt(s, "@", k)
    ensures EmailPattern(s) <==> 0 < at && AllPlain(s[..at]) && AllPlain(s[at + 1..]) && InnerDot(s[at + 1..])
  {
    assert s[at] == '@' by { assert s[at..at + 1][0] == s[at]; }
    if 0 < at && AllPlain(s[..at]) && AllPlain(s[at + 1..]) && InnerDot(s[at + 1..]) {
      EmailMatchFromCheck(s, at);
    }
    if EmailPattern(s) {
      EmailCheckFromMatch(s, at);
    }
  }

  /** The check's conditions give the pattern's split: the `.` found inside
      the text after the `@`. */
  lemma EmailMatchFromCheck(s: string, at: nat)
    requires at < |s| && s[at] == '@'
    requires 0 < at && AllPlain(s[..at]) && AllPlain(s[at + 1..]) && InnerDot(s[at + 1..])
    ensures EmailPattern(s)
  {
    var tail := s[at + 1..];
    var p :| 0 < p < |tail| - 1 && tail[p] == '.';
    var dot := at + 1 + p;
    assert s[dot] == '.';
    assert s[at + 1..dot] == tail[..p];
    assert s[dot + 1..] == tail[p + 1..];
    assert AllPlain(s[at + 1..dot]);
    assert AllPlain(s[dot + 1..]);
  }

  /** A split the pattern accepts has its `@` at the first `@` of `s`, and
      meets the check's conditions. */
  lemma EmailCheckFromMatch(s: string, at: nat)
    requires OccursAt(s, "@", at)
    requires forall k :: 0 <= k < at ==> !OccursAt(s, "@", k)
    requires EmailPattern(s)
    ensures 0 < at && AllPlain(s[..at]) && AllPlain(s[at + 1..]) && InnerDot(s[at + 1..])
  {
    var a, dot :| 0 < a && a + 1 < dot && dot + 1 < |s| && s[a] == '@' && s[dot] == '.' &&
      AllPlain(s[..a]) && AllPlain(s[a + 1..dot]) && AllPlain(s[dot + 1..]);
    assert a == at by {
      assert OccursAt(s, "@", a) by { assert s[a..a + 1] == [s[a]]; }
      assert s[at] == '@' by { assert s[at..at + 1][0] == s[at]; }
      forall i | 0 <= i < a ensures s[i] != '@' {
        assert s[..a][i] == s[i];
      }
    }
    var tail := s[at + 1..];
    forall i | 0 <= i < |tail| ensures Plain(tail[i]) {
      if i < dot - at - 1 {
        assert tail[i] == s[at + 1..dot][i];
      } else if i > dot - at - 1 {
        assert tail[i] == s[dot + 1..][i - (dot - at)];
      }
    }
    assert tail[dot - at - 1] == '.';
  }

  /** The name rule, on the trimmed value. */
  function CheckName(name: string): Option<FieldError> {
    if name == "" then Some(NameRequired) else None
  }

  /** The email rule, on the trimmed value: required, then the pattern. */
  function CheckEmail(email: string): Option<FieldError> {
    if email == "" then Some(EmailRequired)
    else if !IsValidEmail(email) then Some(EmailInvalid)
    else None
  }

  /** The message rule, on the trimmed value: required, then the length. */
  function CheckMessage(message: string): Option<FieldError> {
    if message == "" then Some(MessageRequired)
    else if |message| < MinMessageLength then Some(MessageTooShort)
    else None
  }

  /** The outcome of one submission: each field's error, if any. */
  datatype Verdict = Verdict(name: Option<FieldError>, email: Option<FieldError>, message: Option<FieldError>)
  {
    /** The handler's `isValid`. */
    predicate Passes() {
      name.None? && email.None? && message.None?
    }
  }

  /** All three rules, each on its own trimmed field value. */
  function Validate(name: string, email: string, message: string): Verdict {
    Verdict(CheckName(Trim(name)), CheckEmail(Trim(email)), CheckMessage(Trim(message)))
  }

  /** The name field fails, with the "required" error, exactly when it holds
      only whitespace. */
  lemma NameRule(name: string, email: string, message: string)
    ensures Validate(name, email, message).name == if AllSpace(name) then Some(NameRequired) else None
  {
    TrimEmptyIff(name);
  }

  /** The email field: "required" when it holds only whitespace, otherwise
      "invalid format" when its trimmed value does not match the pattern,
      otherwise no error. */
  lemma EmailRule(name: string, email: string, message: string)
    ensures Validate(name, email, message).email ==
      if AllSpace(email) then Some(EmailRequired)
      else if !EmailPattern(Trim(email)) then Some(EmailInvalid)
      else None
  {
    TrimEmptyIff(email);
  }

  /** The message field: "required" when it holds only whitespace, otherwise
      "too short" when fewer than ten characters remain after trimming,
      otherwise no error. */
  lemma MessageRule(name: string, email: string, message: string)
    ensures Validate(name, email, message).message ==
      if AllSpace(message) then Some(MessageRequired)
      else if |Trim(message)| < 10 then Some(MessageTooShort)
      else None
  {
    TrimEmptyIff(message);
  }

  /** The submission passes exactly when no field has an error, and each
      field's verdict depends on that field alone. */
  lemma PassesIff(name: string, email: string, message: string, name': string, email': string, message': string)
    ensures Validate(name, email, message).Passes() <==>
      !AllSpace(name) && !AllSpace(email) && EmailPattern(Trim(email)) && |Trim(message)| >= 10
    ensures Validate(name, email, message).name == Validate(name, email', message').name
    ensures Validate(name, email, message).email == Validate(name', email, message').email
    ensures Validate(name, email, message).message == Validate(name', email', message).message
  {
    NameRule(name, email, message);
    EmailRule(name, email, message);
    MessageRule(name, email, message);
  }

  /** Nothing short-circuits: an all-blank form gets all three "required"
      errors at once. */
  lemma BlankFormGetsAllErrors(name: string, email: string, message: string)
    requires AllSpace(name) && AllSpace(email) && AllSpace(message)
    ensures Validate(name, email, message) == Verdict(Some(NameRequired), Some(EmailRequired), Some(MessageRequired))
  {
    NameRule(name, email, message);
    EmailRule(name, email, message);
    MessageRule(name, email, message);
  }

  /** `a@b.c` passes the email check and `not-an-email` fails it. */
  lemma EmailExamples()
    ensures EmailPattern("a@b.c")
    ensures !EmailPattern("not-an-email")
  {
    var good := "a@b.c";
    assert good[1] == '@' && good[3] == '.';
    assert AllPlain(good[..1]) by { assert good[..1] == ['a']; }
    assert AllPlain(good[2..3]) by { assert good[2..3] == ['b']; }
    assert AllPlain(good[4..]) by { assert good[4..] == ['c']; }
    var bad := "not-an-email";
    assert forall i | 0 <= i < |bad| :: bad[i] != '@';
  }

  /** Nine characters after trimming are too short; ten are enough. */
  lemma MessageLengthBoundary()
    ensures CheckMessage(Trim("123456789")) == Some(MessageTooShort)
    ensures CheckMessage(Trim("1234567890")) == None
  {
    var nine := "123456789";
    var ten := "1234567890";
    assert !IsSpace(nine[0]) && !IsSpace(nine[8]);
    assert Trim(nine) == nine;
    assert !IsSpace(ten[0]) && !IsSpace(ten[9]);
    assert Trim(ten) == ten;
  }

  /** The inline-error part of a form group: the `.invalid-feedback`
      elements it holds, in order, and whether the field carries the
      `is-invalid` class. */
  datatype Group = Group(feedback: seq<string>, invalid: bool)

  /** A group holds at most one error and is marked invalid exactly when it
      holds one. */
  predicate Tidy(g: Group) {
    |g.feedback| <= 1 && (g.invalid <==> |g.feedback| == 1)
  }

  /** What removing the first matching element leaves: the list without its
      head, or the empty list. */
  function DropFirst(feedback: seq<string>): (rest: seq<string>)
    ensures |feedback| > 0 ==> feedback == feedback[..1] + rest
    ensures |feedback| == 0 ==> rest == []
  {
    if |feedback| > 0 then feedback[1..] else feedback
  }

  /** The group a field's verdict leaves behind. */
  function Shown(e: Option<FieldError>): (g: Group)
    ensures g.invalid <==> e.Some?
    ensures |g.feedback| == (if e.Some? then 1 else 0)
  {
    match e
    case None => Group([], false)
    case Some(err) => Group([ErrorText(err)], true)
  }

  /** The state of all three groups after a submission with verdict `v`. */
  function Rendered(v: Verdict): map<Field, Group> {
    map[Name := Shown(v.name), Email := Shown(v.email), Message := Shown(v.message)]
  }

  /** The form: the three field values, each field's group, and the number of
      success banners inserted. */
  class Form {
    var name: string
    var email: string
    var message: string
    var groups: map<Field, Group>
    var banners: nat

    /** Every field has a group, a group holds at most one error, and it is
        marked invalid exactly when it holds one. */
    ghost predicate Valid()
      reads this
    {
      Name in groups && Email in groups && Message in groups &&
      forall f | f in groups :: Tidy(groups[f])
    }

    constructor (name: string, email: string, message: string)
      ensures Valid()
      ensures this.name == name && this.email == email && this.message == message
      ensures groups == map[Name := Group([], false), Email := Group([], false), Message := Group([], false)]
      ensures banners == 0
    {
      this.name, this.email, this.message := name, email, message;
      groups := map[Name := Group([], false), Email := Group([], false), Message := Group([], false)];
      banners := 0;
    }

    /** Unmark the field, remove the group's first error element if any,
        mark the field and append a new error element. On a tidy group this
        leaves exactly the new error. */
    method ShowError(f: Field, text: string)
      requires f in groups
      modifies this
      ensures groups == old(groups)[f := Group(DropFirst(old(groups)[f].feedback) + [text], true)]
      ensures old(Valid()) ==> Valid() && groups[f] == Group([text], true)
      ensures name == old(name) && email == old(email) && message == old(message) && banners == old(banners)
    {
      var g := groups[f];
      g := g.(invalid := false);
      if |g.feedback| > 0 {
        g := g.(feedback := g.feedback[1..]);
      }
      g := g.(invalid := true);
      g := g.(feedback := g.feedback + [text]);
      groups := groups[f := g];
    }

    /** Unmark the field and remove the group's first error element if any.
        On a tidy group this leaves no error. */
    method ClearError(f: Field)
      requires f in groups
      modifies this
      ensures groups == old(groups)[f := Group(DropFirst(old(groups)[f].feedback), false)]
      ensures old(Valid()) ==> Valid() && groups[f] == Group([], false)
      ensures name == old(name) && email == old(email) && message == old(message) && banners == old(banners)
    {
      var g := groups[f];
      g := g.(invalid := false);
      if |g.feedback| > 0 {
        g := g.(feedback := g.feedback[1..]);
      }
      groups := groups[f := g];
    }

    /** The name block of the handler: "required" when the trimmed name is
        empty, otherwise the error is cleared. */
    method ReportName(name: string) returns (passed: bool)
      requires Valid()
      modifies this
      ensures Valid()
      ensures passed == CheckName(name).None?
      ensures groups == old(groups)[Name := Shown(CheckName(name))]
      ensures this.name == old(this.name) && email == old(email) && message == old(message) && banners == old(banners)
    {
      passed := true;
      if name == "" {
        ShowError(Name, ErrorText(NameRequired));
        passed := false;
      } else {
        ClearError(Name);
      }
    }

    /** The email block: "required" when empty, otherwise "invalid format"
        when the pattern fails, otherwise the error is cleared. */
    method ReportEmail(email: string) returns (passed: bool)
      requires Valid()
      modifies this
      ensures Valid()
      ensures passed == CheckEmail(email).None?
      ensures groups == old(groups)[Email := Shown(CheckEmail(email))]
      ensures name == old(name) && this.email == old(this.email) && message == old(message) && banners == old(banners)
    {
      passed := true;
      if email == "" {
        ShowError(Email, ErrorText(EmailRequired));
        passed := false;
      } else if !IsValidEmail(email) {
        ShowError(Email, ErrorText(EmailInvalid));
        passed := false;
      } else {
        ClearError(Email);
      }
    }

    /** The message block: "required" when empty, otherwise "too short" under
        ten characters, otherwise the error is cleared. */
    method ReportMessage(message: string) returns (passed: bool)
      requires Valid()
      modifies this
      ensures Valid()
      ensures passed == CheckMessage(message).None?
      ensures groups == old(groups)[Message := Shown(CheckMessage(message))]
      ensures name == old(name) && email == old(email) && this.message == old(this.message) && banners == old(banners)
    {
      passed := true;
      if message == "" {
        ShowError(Message, ErrorText(MessageRequired));
        passed := false;
      } else if |message| < MinMessageLength {
        ShowError(Message, ErrorText(MessageTooShort));
        passed := false;
      } else {
        ClearError(Message);
      }
    }

    /** The submit handler. Every field is checked, none short-circuits the
        others; each group ends with the error its rule gives or with none;
        when all pass a banner is added and the fields are emptied. */
    method Submit() returns (isValid: bool)
      requires Valid()
      modifies this
      ensures Valid()
      ensures var v := Validate(old(name), old(email), old(message));
        isValid == v.Passes() && groups == Rendered(v)
      ensures isValid ==> name == "" && email == "" && message == "" && banners == old(banners) + 1
      ensures !isValid ==> name == old(name) && email == old(email) && message == old(message) && banners == old(banners)
    {
      var name := Trim(this.name);
      var email := Trim(this.email);
      var message := Trim(this.message);
      isValid := true;
      ghost var before := groups;

      var passed := ReportName(name);
      if !passed {
        isValid := false;
      }
      passed := ReportEmail(email);
      if !passed {
        isValid := false;
      }
      passed := ReportMessage(message);
      if !passed {
        isValid := false;
      }

      ghost var v := Verdict(CheckName(name), CheckEmail(email), CheckMessage(message));
      assert groups == before[Name := Shown(v.name)][Email := Shown(v.email)][Message := Shown(v.message)];
      assert groups.Keys == Rendered(v).Keys by {
        forall f | f in groups ensures f in Rendered(v) {
          assert f.Name? || f.Email? || f.Message?;
        }
      }

      if isValid {
        banners := banners + 1;
        this.name, this.email, this.message := "", "", "";
      }
    }
  }
}
