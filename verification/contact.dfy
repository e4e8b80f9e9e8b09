/** The contact page: the four-field form, its validator, the per-field input
    handler, and the simulated submission with its two timers.

    The page's React state (form data, error map, `isSubmitting`,
    `showSuccess`) is one immutable `ContactState`. The two timers the
    submission starts (the 1500 ms "send" delay and the 3000 ms reset delay)
    become `Pending` continuations held in the state; the event `Elapsed(i)`
    says that the delay of the `i`-th pending continuation has run out, and
    runs it. */
module Contact {
  import opened Text
  import opened EmailPattern

  /** The four inputs, named as their `name` attributes. */
  datatype Field = Name | Email | Subject | Message

  datatype Option<T> = None | Some(value: T)

  /** The form's values, as typed (never trimmed). */
  datatype FormData = FormData(name: string, email: string, subject: string, message: string)
  {
    function Get(f: Field): string {
      match f
      case Name => name
      case Email => email
      case Subject => subject
      case Message => message
    }

    /** `{ ...prev, [f]: v }`: field `f` takes `v`, the other three keep theirs. */
    function Set(f: Field, v: string): (d: FormData)
      ensures d.Get(f) == v
      ensures forall g :: g != f ==> d.Get(g) == Get(g)
    {
      match f
      case Name => this.(name := v)
      case Email => this.(email := v)
      case Subject => this.(subject := v)
      case Message => this.(message := v)
    }
  }

  /** The initial form, and the one the reset timer restores. */
  const EmptyForm := FormData("", "", "", "")

  /** The messages the validator can attach to a field. */
  datatype FieldError = NameRequired | EmailRequired | EmailInvalid | SubjectRequired | MessageRequired
  {
    /** The text shown under the field; never empty, so always truthy. */
    function Text(): (t: string)
      ensures |t| > 0
    {
      match this
      case NameRequired => "Le nom est requis"
      case EmailRequired => "L'email est requis"
      case EmailInvalid => "Format d'email invalide"
      case SubjectRequired => "Le sujet est requis"
      case MessageRequired => "Le message est requis"
    }
  }

  /** The `FormErrors` object: a field is a key exactly when an error is shown
      under it. */
  type Errors = map<Field, FieldError>

  /** What `validateForm` produces: the new error map, which it stores, and
      the boolean it returns. */
  datatype Validation = Validation(errors: Errors, ok: bool)

  /** The check `validateForm` applies to one field: the name, subject and
      message must not be empty once trimmed; the e-mail must not be empty
      once trimmed and, only if it is not, must match the e-mail pattern as
      typed. `None` means the field passes. */
  function CheckField(d: FormData, f: Field): Option<FieldError> {
    match f
    case Name => if Trim(d.name) == [] then Some(NameRequired) else None
    case Email =>
      if Trim(d.email) == [] then Some(EmailRequired)
      else if !MatchesPattern(d.email) then Some(EmailInvalid)
      else None
    case Subject => if Trim(d.subject) == [] then Some(SubjectRequired) else None
    case Message => if Trim(d.message) == [] then Some(MessageRequired) else None
  }

  /** `validateForm`: every failing field gets its message in a fresh error
      map, and the result is whether that map has no key. */
  function ValidateForm(d: FormData): Validation {
    var errors := map f: Field | CheckField(d, f).Some? :: CheckField(d, f).value;
    Validation(errors, |errors| == 0)
  }

  /** One field of the error map: present exactly when its check fails, with
      the message the check gave. */
  lemma ErrorAt(d: FormData, f: Field)
    ensures f in ValidateForm(d).errors <==> CheckField(d, f).Some?
    ensures f in ValidateForm(d).errors ==> ValidateForm(d).errors[f] == CheckField(d, f).value
  {
  }

  /** The error map `validateForm` stores, field by field: the name, subject
      and message are flagged exactly when blank, with their "required"
      message; the e-mail is flagged exactly when blank or not well shaped,
      with "required" when blank and "invalid format" otherwise. */
  lemma ValidateFormErrors(d: FormData)
    ensures var e := ValidateForm(d).errors;
      && (Name in e <==> IsBlank(d.name)) && (Name in e ==> e[Name] == NameRequired)
      && (Subject in e <==> IsBlank(d.subject)) && (Subject in e ==> e[Subject] == SubjectRequired)
      && (Message in e <==> IsBlank(d.message)) && (Message in e ==> e[Message] == MessageRequired)
    ensures var e := ValidateForm(d).errors;
      && (Email in e <==> IsBlank(d.email) || !WellShaped(d.email))
      && (Email in e ==> e[Email] == if IsBlank(d.email) then EmailRequired else EmailInvalid)
  {
    CheckRequiredFields(d);
    CheckEmailField(d);
    ErrorAt(d, Name);
    ErrorAt(d, Email);
    ErrorAt(d, Subject);
    ErrorAt(d, Message);
  }

  /** The name, subject and message each fail exactly when blank, and then
      carry their own "required" message; nothing else is checked of them. */
  lemma CheckRequiredFields(d: FormData)
    ensures CheckField(d, Name).Some? <==> IsBlank(d.name)
    ensures CheckField(d, Subject).Some? <==> IsBlank(d.subject)
    ensures CheckField(d, Message).Some? <==> IsBlank(d.message)
    ensures CheckField(d, Name).Some? ==> CheckField(d, Name).value == NameRequired
    ensures CheckField(d, Subject).Some? ==> CheckField(d, Subject).value == SubjectRequired
    ensures CheckField(d, Message).Some? ==> CheckField(d, Message).value == MessageRequired
  {
  }

  /** The e-mail fails when blank ("required") or, only when not blank, when
      not well shaped ("invalid format"); the two messages exclude each
      other. */
  lemma CheckEmailField(d: FormData)
    ensures CheckField(d, Email).Some? <==> IsBlank(d.email) || !WellShaped(d.email)
    ensures CheckField(d, Email) == Some(EmailRequired) <==> IsBlank(d.email)
    ensures CheckField(d, Email) == Some(EmailInvalid) <==> !IsBlank(d.email) && !WellShaped(d.email)
  {
    PatternIffWellShaped(d.email);
  }

  /** `validateForm` returns true exactly when its error map has no entry. */
  lemma ValidateFormOk(d: FormData)
    ensures ValidateForm(d).ok <==> ValidateForm(d).errors == map[]
  {
    var v := ValidateForm(d);
    assert v.ok <==> |v.errors| == 0;
  }

  /** The error map is empty exactly when all four checks pass: a non-blank
      name, subject and message, and a well-shaped e-mail. */
  lemma ValidWhenAllChecksPass(d: FormData)
    ensures ValidateForm(d).ok <==>
      !IsBlank(d.name) && WellShaped(d.email) && !IsBlank(d.subject) && !IsBlank(d.message)
  {
    ValidateFormOk(d);
    ValidateFormErrors(d);
    var e := ValidateForm(d).errors;
    if e != map[] {
      var f :| f in e;
      assert f == Name || f == Email || f == Subject || f == Message;
    }
  }

  /** The e-mail pattern sees the value as typed: an address that is not
      blank but starts with whitespace (which `trim` would have removed)
      passes the "required" check and still gets the format error. */
  lemma EmailCheckedUntrimmed(d: FormData)
    requires |d.email| > 0 && IsWs(d.email[0]) && !IsBlank(d.email)
    ensures Email in ValidateForm(d).errors
    ensures ValidateForm(d).errors[Email] == EmailInvalid
  {
    CheckEmailField(d);
    ErrorAt(d, Email);
  }

  /** The timers a submission leaves behind. */
  datatype Pending =
    | SendDelay   // 1500 ms, ends the simulated send
    | ResetDelay  // 3000 ms, then the form is cleared and the message hidden

  /** Everything the contact page keeps in React state, plus the timers that
      are still running. */
  datatype ContactState = ContactState(
    form: FormData,
    errors: Errors,
    isSubmitting: bool,
    showSuccess: bool,
    pending: seq<Pending>)

  /** The page as first rendered. */
  const Initial := ContactState(EmptyForm, map[], false, false, [])

  /** What can happen to the page: an edit of one input, a submission, or the
      end of the delay of the `i`-th pending timer. */
  datatype Event = Change(field: Field, value: string) | Submit | Elapsed(i: nat)

  /** `handleInputChange`: the edited field takes the new value, and its
      error, if one is shown, is cleared; nothing else changes. */
  function HandleInputChange(s: ContactState, f: Field, v: string): (t: ContactState)
    ensures t.form.Get(f) == v
    ensures forall g :: g != f ==> t.form.Get(g) == s.form.Get(g)
    ensures f !in t.errors
    ensures forall g :: g != f ==> (g in t.errors <==> g in s.errors)
    ensures forall g :: g in t.errors ==> t.errors[g] == s.errors[g]
    ensures t.isSubmitting == s.isSubmitting && t.showSuccess == s.showSuccess
    ensures t.pending == s.pending
  {
    var errors := if f in s.errors then s.errors - {f} else s.errors;
    s.(form := s.form.Set(f, v), errors := errors)
  }

  /** `handleSubmit`. The submit button is disabled while a send is in
      progress, so a submission then does nothing. Otherwise the form is
      validated and the errors stored; an invalid form stops there, a valid
      one sets `isSubmitting` and starts the send delay. */
  function HandleSubmit(s: ContactState): (t: ContactState)
    ensures s.isSubmitting ==> t == s
    ensures !s.isSubmitting ==> t.errors == ValidateForm(s.form).errors
    ensures t.form == s.form && t.showSuccess == s.showSuccess
    ensures !s.isSubmitting && !ValidateForm(s.form).ok ==>
      t.isSubmitting == s.isSubmitting && t.pending == s.pending
    ensures !s.isSubmitting && ValidateForm(s.form).ok ==>
      t.isSubmitting && t.pending == s.pending + [SendDelay]
  {
    if s.isSubmitting then s
    else
      var v := ValidateForm(s.form);
      if !v.ok then s.(errors := v.errors)
      else s.(errors := v.errors, isSubmitting := true, pending := s.pending + [SendDelay])
  }

  /** Runs the continuation of the `i`-th pending timer, which is removed.
      After the send delay: sending stops, the success message shows and the
      reset delay starts. After the reset delay: the form is emptied and the
      message hidden. An index with no timer behind it changes nothing. */
  function TimerElapsed(s: ContactState, i: nat): (t: ContactState)
    ensures i >= |s.pending| ==> t == s
    ensures i < |s.pending| && s.pending[i] == SendDelay ==>
      && !t.isSubmitting && t.showSuccess
      && t.form == s.form && t.errors == s.errors
      && t.pending == s.pending[..i] + s.pending[i + 1..] + [ResetDelay]
    ensures i < |s.pending| && s.pending[i] == ResetDelay ==>
      && t.form == EmptyForm && !t.showSuccess
      && t.isSubmitting == s.isSubmitting && t.errors == s.errors
      && t.pending == s.pending[..i] + s.pending[i + 1..]
  {
    if i >= |s.pending| then s
    else
      var rest := s.pending[..i] + s.pending[i + 1..];
      match s.pending[i]
      case SendDelay => s.(isSubmitting := false, showSuccess := true, pending := rest + [ResetDelay])
      case ResetDelay => s.(form := EmptyForm, showSuccess := false, pending := rest)
  }

  /** One event. */
  function Step(s: ContactState, e: Event): ContactState {
    match e
    case Change(f, v) => HandleInputChange(s, f, v)
    case Submit => HandleSubmit(s)
    case Elapsed(i) => TimerElapsed(s, i)
  }

  /** A run of events, applied in order. */
  function Run(s: ContactState, es: seq<Event>): ContactState
    decreases |es|
  {
    if es == [] then s else Run(Step(s, es[0]), es[1..])
  }

  /** The page is sending exactly when a send delay is running, and at most
      one send delay runs at a time. */
  predicate Inv(s: ContactState) {
    && (s.isSubmitting <==> SendDelay in s.pending)
    && multiset(s.pending)[SendDelay] <= 1
  }

  /** Removing one element from a sequence removes one from its multiset. */
  lemma RemoveAt(p: seq<Pending>, i: nat)
    requires i < |p|
    ensures multiset(p[..i] + p[i + 1..]) == multiset(p) - multiset{p[i]}
  {
    assert p == p[..i] + [p[i]] + p[i + 1..];
  }

  /** Every event keeps `Inv`: a second send cannot start while one runs, and
      the end of the send delay is the only thing that stops sending. */
  lemma StepPreservesInv(s: ContactState, e: Event)
    requires Inv(s)
    ensures Inv(Step(s, e))
  {
    match e
    case Change(f, v) =>
    case Submit => SubmitPreservesInv(s);
    case Elapsed(i) => ElapsedPreservesInv(s, i);
  }

  /** A submission starts a send only when none is running. */
  lemma SubmitPreservesInv(s: ContactState)
    requires Inv(s)
    ensures Inv(HandleSubmit(s))
  {
    var t := HandleSubmit(s);
    if !s.isSubmitting && t.isSubmitting {
      assert t.pending == s.pending + [SendDelay];
      assert multiset(t.pending) == multiset(s.pending) + multiset{SendDelay};
    }
  }

  /** Running a timer's continuation stops the send exactly when that timer
      was the send delay. */
  lemma ElapsedPreservesInv(s: ContactState, i: nat)
    requires Inv(s)
    ensures Inv(TimerElapsed(s, i))
  {
    if i < |s.pending| {
      var rest := s.pending[..i] + s.pending[i + 1..];
      RemoveAt(s.pending, i);
      assert multiset(rest + [ResetDelay]) == multiset(rest) + multiset{ResetDelay};
      assert SendDelay in rest <==> SendDelay in multiset(rest);
    }
  }

  /** The freshly rendered page is idle with no timer, so `Inv` holds. */
  lemma InitialInv()
    ensures Inv(Initial)
  {
  }

  /** `Inv` holds after any run of events from a page where it holds, hence
      (by `InitialInv`) after any run from the initial page. */
  lemma {:induction false} RunPreservesInv(s: ContactState, es: seq<Event>)
    requires Inv(s)
    ensures Inv(Run(s, es))
    decreases |es|
  {
    if es != [] {
      StepPreservesInv(s, es[0]);
      RunPreservesInv(Step(s, es[0]), es[1..]);
    }
  }

  /** Submitting an invalid form from the idle page shows the errors and
      nothing more: no send starts and no success message appears. */
  lemma InvalidSubmitStaysIdle(s: ContactState)
    requires !s.isSubmitting && !s.showSuccess
    requires !ValidateForm(s.form).ok
    ensures var t := Step(s, Submit);
      && !t.isSubmitting && !t.showSuccess
      && t.errors == ValidateForm(s.form).errors && t.errors != map[]
      && t.form == s.form && t.pending == s.pending
  {
  }

  /** Typing the four values of `d` into their inputs, one after another. */
  function FillIn(d: FormData): seq<Event> {
    [Change(Name, d.name), Change(Email, d.email), Change(Subject, d.subject), Change(Message, d.message)]
  }

  /** Filling in the fresh page yields an idle page holding `d`. */
  lemma FillInFromInitial(d: FormData)
    ensures Run(Initial, FillIn(d)) == Initial.(form := d)
  {
    var es := FillIn(d);
    var a := Step(Initial, es[0]);
    var b := Step(a, es[1]);
    var c := Step(b, es[2]);
    var e := Step(c, es[3]);
    assert e.form.Get(Name) == d.name && e.form.Get(Email) == d.email;
    assert e.form.Get(Subject) == d.subject && e.form.Get(Message) == d.message;
    assert e.form == d;
    assert Run(e, es[4..]) == e;
    assert Run(c, es[3..]) == Run(e, es[4..]);
    assert Run(b, es[2..]) == Run(c, es[3..]);
    assert Run(a, es[1..]) == Run(b, es[2..]);
  }

  /** The whole life of a valid submission from an idle page: submitting
      starts the send (and a second submission is ignored); the send delay
      ends it, shows the success message and keeps the values; the reset
      delay then empties the form and hides the message, leaving no timer. */
  lemma SubmitLifecycle(s: ContactState)
    requires !s.isSubmitting && !s.showSuccess && s.pending == []
    requires ValidateForm(s.form).ok
    ensures var s1 := Step(s, Submit);
      && s1.isSubmitting && !s1.showSuccess && s1.form == s.form && s1.errors == map[]
      && s1.pending == [SendDelay] && Step(s1, Submit) == s1
    ensures var s2 := Step(Step(s, Submit), Elapsed(0));
      && !s2.isSubmitting && s2.showSuccess && s2.form == s.form && s2.pending == [ResetDelay]
    ensures var s3 := Step(Step(Step(s, Submit), Elapsed(0)), Elapsed(0));
      && !s3.isSubmitting && !s3.showSuccess && s3.form == EmptyForm && s3.pending == []
      && s3.errors == map[]
  {
    var s1 := Step(s, Submit);
    assert s1.pending == [SendDelay];
    assert s1.pending[..0] + s1.pending[1..] == [];
    var s2 := Step(s1, Elapsed(0));
    assert s2.pending[..0] + s2.pending[1..] == [];
  }

  /** The same life, told from the freshly rendered page: filling in a valid
      form, submitting it and letting both delays run out brings the page
      back to exactly its initial state. */
  lemma SubmitLifecycleFromInitial(d: FormData)
    requires ValidateForm(d).ok
    ensures Run(Run(Initial, FillIn(d)), [Submit, Elapsed(0), Elapsed(0)]) == Initial
  {
    FillInFromInitial(d);
    var s := Initial.(form := d);
    SubmitLifecycle(s);
    var es: seq<Event> := [Submit, Elapsed(0), Elapsed(0)];
    var s1 := Step(s, Submit);
    var s2 := Step(s1, Elapsed(0));
    var s3 := Step(s2, Elapsed(0));
    assert s3 == Initial;
    assert Run(s3, es[3..]) == s3;
    assert Run(s2, es[2..]) == Run(s3, es[3..]);
    assert Run(s1, es[1..]) == Run(s2, es[2..]);
  }
}
