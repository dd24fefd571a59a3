/** The contact form of `src/app/components/ContactForm.tsx`: per-field
    validation, the whole-form check, and the state the change, blur and
    submit handlers move through. Sending the message is an input: the
    outcome of the mail service call is passed in. */
module ContactForm {
  import opened JsText

  /** `validationMessages` from the contact form configuration. */
  datatype ValidationMessages = ValidationMessages(
    name: string, email: string, messageMin: string, messageMax: string, subject: string)

  /** `submitStatus`: "idle" | "success" | "error". */
  datatype SubmitStatus = Idle | Success | Failure

  /** The keys of `formData`, in the order `Object.keys` lists them. */
  const FieldNames: seq<string> := ["name", "email", "phone", "subject", "message"]

  /** The longest message the form accepts, after trimming. */
  const MaxMessageLength := 1000

  // ---------------------------------------------------------------------------
  // The e-mail expression /^[^\s@]+@[^\s@]+\.[^\s@]+$/

  /** `[^\s@]` */
  predicate EmailChar(c: char) {
    !IsWhitespace(c) && c != '@'
  }

  predicate EmailRun(t: string) {
    forall i :: 0 <= i < |t| ==> EmailChar(t[i])
  }

  /** The expression as written: a non-empty run, `@` at `a`, a non-empty
      run, `.` at `d`, a non-empty run, filling the whole value. */
  predicate EmailPattern(v: string) {
    exists a, d :: 0 < a && a + 1 < d && d + 1 < |v| && v[a] == '@' && v[d] == '.' &&
                   EmailRun(v[..a]) && EmailRun(v[a + 1..d]) && EmailRun(v[d + 1..])
  }

  predicate NoWhitespace(v: string) {
    forall i :: 0 <= i < |v| ==> !IsWhitespace(v[i])
  }

  /** A `.` with at least one character on either side. */
  predicate InnerDot(t: string) {
    exists i :: 0 < i < |t| - 1 && t[i] == '.'
  }

  /** The check the form performs on the e-mail value, read as a rule: no
      whitespace, exactly one `@` with something before it, and a dot
      strictly inside what follows it. The value is not trimmed. */
  predicate IsEmail(v: string) {
    var parts := Split(v, '@');
    |parts| == 2 && parts[0] != [] && NoWhitespace(v) && InnerDot(parts[1])
  }

  lemma {:induction false} SplitSingle(v: string, sep: char, a: nat)
    requires a < |v| && v[a] == sep && sep !in v[..a] && sep !in v[a + 1..]
    ensures Split(v, sep) == [v[..a], v[a + 1..]]
    decreases a
  {
    if a == 0 {
      SplitNone(v[1..], sep);
    } else {
      assert v[1..][..a - 1] == v[1..a] && v[1..][a..] == v[a + 1..];
      assert v[0] == v[..a][0];
      SplitSingle(v[1..], sep, a - 1);
      assert [v[0]] + v[1..a] == v[..a];
    }
  }

  lemma {:induction false} SplitNone(v: string, sep: char)
    requires sep !in v
    ensures Split(v, sep) == [v]
    decreases |v|
  {
    if v != [] {
      assert v[0] in v;
      SplitNone(v[1..], sep);
      assert [v[0]] + v[1..] == v;
    }
  }

  /** A slice of characters each allowed by `[^\s@]` is a run. */
  lemma RunSlice(v: string, lo: nat, hi: nat)
    requires lo <= hi <= |v|
    requires forall j :: lo <= j < hi ==> EmailChar(v[j])
    ensures EmailRun(v[lo..hi])
  {
    forall k | 0 <= k < hi - lo
      ensures EmailChar(v[lo..hi][k])
    {
      assert v[lo..hi][k] == v[lo + k];
    }
  }

  /** A character of a run is allowed by `[^\s@]`. */
  lemma RunChar(v: string, lo: nat, hi: nat, j: nat)
    requires lo <= j < hi <= |v| && EmailRun(v[lo..hi])
    ensures EmailChar(v[j])
  {
    assert v[j] == v[lo..hi][j - lo];
  }

  lemma PatternIsEmail(v: string)
    requires EmailPattern(v)
    ensures IsEmail(v)
  {
    var a, d :| 0 < a && a + 1 < d && d + 1 < |v| && v[a] == '@' && v[d] == '.' &&
                EmailRun(v[..a]) && EmailRun(v[a + 1..d]) && EmailRun(v[d + 1..]);
    forall j | 0 <= j < |v| && j != a
      ensures EmailChar(v[j])
    {
      if j < a {
        RunChar(v, 0, a, j);
      } else if j < d {
        RunChar(v, a + 1, d, j);
      } else if j > d {
        RunChar(v, d + 1, |v|, j);
      }
    }
    assert '@' !in v[..a] by {
      forall k | 0 <= k < a ensures v[..a][k] != '@' { assert v[..a][k] == v[k]; }
    }
    var rest := v[a + 1..];
    assert '@' !in rest by {
      forall k | 0 <= k < |rest| ensures rest[k] != '@' { assert rest[k] == v[a + 1 + k]; }
    }
    SplitSingle(v, '@', a);
    assert v[a + 1..][d - a - 1] == '.';
  }

  lemma EmailIsPattern(v: string)
    requires IsEmail(v)
    ensures EmailPattern(v)
  {
    var parts := Split(v, '@');
    JoinSplit(v, '@');
    assert v == parts[0] + ['@'] + parts[1];
    var a := |parts[0]|;
    var i :| 0 < i < |parts[1]| - 1 && parts[1][i] == '.';
    var d := a + 1 + i;
    assert '@' !in parts[0] && '@' !in parts[1];
    forall j | 0 <= j < |v| && j != a
      ensures EmailChar(v[j])
    {
      if j < a {
        assert v[j] == parts[0][j];
      } else {
        assert v[j] == parts[1][j - a - 1];
      }
    }
    RunSlice(v, 0, a);
    RunSlice(v, a + 1, d);
    RunSlice(v, d + 1, |v|);
    assert v[d] == '.' && v[a] == '@';
    assert v[..a] == v[0..a] && v[d + 1..] == v[d + 1..|v|];
  }

  /** The operational reading agrees with the expression, both ways. */
  lemma IsEmailPattern(v: string)
    ensures IsEmail(v) <==> EmailPattern(v)
  {
    if EmailPattern(v) {
      PatternIsEmail(v);
    }
    if IsEmail(v) {
      EmailIsPattern(v);
    }
  }

  // ---------------------------------------------------------------------------
  // validateField and validateForm

  /** Every configured message is a non-empty string, so each failing rule
      reports itself (an empty message would count as "no error"). */
  predicate MessagesSet(m: ValidationMessages) {
    m.name != "" && m.email != "" && m.messageMin != "" && m.messageMax != "" && m.subject != ""
  }

  /** `validateField`: the error text for one field, "" when it passes. The
      field name is matched after lower-casing; an unknown name passes. */
  function ValidateField(msgs: ValidationMessages, name: string, value: string): (error: string)
    ensures error == "" || error in [msgs.name, msgs.email, msgs.messageMin, msgs.messageMax, msgs.subject]
  {
    var key := Lower(name);
    if key == "name" then
      (if |Trim(value)| < 2 then msgs.name else "")
    else if key == "email" then
      (if !IsEmail(value) then msgs.email else "")
    else if key == "message" then
      (if |Trim(value)| < 2 then msgs.messageMin
       else if |Trim(value)| > MaxMessageLength then msgs.messageMax
       else "")
    else if key == "subject" then
      (if |Trim(value)| < 2 then msgs.subject else "")
    else ""
  }

  /** The rule each field is held to, stated on the e-mail expression itself. */
  lemma FieldRules(msgs: ValidationMessages, name: string, value: string)
    requires MessagesSet(msgs)
    ensures Lower(name) == "name" ==> (ValidateField(msgs, name, value) != "" <==> |Trim(value)| < 2)
    ensures Lower(name) == "subject" ==> (ValidateField(msgs, name, value) != "" <==> |Trim(value)| < 2)
    ensures Lower(name) == "email" ==>
              (ValidateField(msgs, name, value) == "" <==> EmailPattern(value)) &&
              (ValidateField(msgs, name, value) != "" ==> ValidateField(msgs, name, value) == msgs.email)
    ensures Lower(name) == "message" ==>
              (ValidateField(msgs, name, value) == "" <==> 2 <= |Trim(value)| <= MaxMessageLength) &&
              (|Trim(value)| < 2 ==> ValidateField(msgs, name, value) == msgs.messageMin) &&
              (|Trim(value)| > MaxMessageLength ==> ValidateField(msgs, name, value) == msgs.messageMax)
    ensures Lower(name) !in ["name", "email", "subject", "message"] ==> ValidateField(msgs, name, value) == ""
  {
    IsEmailPattern(value);
  }

  /** The errors of `validateForm` over the keys in `keys`: every key except
      `phone` whose field fails, mapped to its error. */
  function ErrorsOver(msgs: ValidationMessages, data: map<string, string>, keys: set<string>): map<string, string>
  {
    map k | k in keys && k in data && k != "phone" && ValidateField(msgs, k, data[k]) != "" ::
      ValidateField(msgs, k, data[k])
  }

  /** The errors of `validateForm` over the whole form. */
  function FormErrors(msgs: ValidationMessages, data: map<string, string>): map<string, string>
  {
    ErrorsOver(msgs, data, data.Keys)
  }

  /** The fresh form: every field empty. */
  function EmptyForm(): (data: map<string, string>)
    ensures data.Keys == set f | f in FieldNames
    ensures forall f :: f in data ==> data[f] == ""
  {
    map["name" := "", "email" := "", "phone" := "", "subject" := "", "message" := ""]
  }

  /** The loop of `validateForm`: it visits every key, skips `phone`, records
      each failing field and clears the validity flag. The order of the keys
      does not affect the result. */
  method CollectErrors(msgs: ValidationMessages, data: map<string, string>)
    returns (newErrors: map<string, string>, isValid: bool)
    ensures newErrors == FormErrors(msgs, data)
    ensures isValid <==> newErrors == map[]
  {
    newErrors := map[];
    isValid := true;
    var pending := data.Keys;
    while pending != {}
      invariant pending <= data.Keys
      invariant newErrors == ErrorsOver(msgs, data, data.Keys - pending)
      invariant isValid <==> newErrors == map[]
      decreases |pending|
    {
      var key :| key in pending;
      if key != "phone" {
        var error := ValidateField(msgs, key, data[key]);
        if error != "" {
          newErrors := newErrors[key := error];
          isValid := false;
          assert key in newErrors;
        }
      }
      pending := pending - {key};
    }
    assert data.Keys - pending == data.Keys;
  }

  /** The field names are already in lower case. */
  lemma LowerFieldNames()
    ensures Lower("name") == "name" && Lower("email") == "email"
    ensures Lower("subject") == "subject" && Lower("message") == "message"
    ensures Lower("phone") == "phone"
  {
  }

  /** The form passes exactly when every field other than `phone` passes. */
  lemma FormErrorsEmpty(msgs: ValidationMessages, data: map<string, string>)
    ensures FormErrors(msgs, data) == map[] <==>
              forall k :: k in data && k != "phone" ==> ValidateField(msgs, k, data[k]) == ""
  {
    var errs := FormErrors(msgs, data);
    if errs == map[] {
      forall k | k in data && k != "phone"
        ensures ValidateField(msgs, k, data[k]) == ""
      {
        assert k !in errs;
      }
    } else {
      var k :| k in errs;
      assert k in data && k != "phone" && ValidateField(msgs, k, data[k]) != "";
    }
  }

  /** The four checked inputs, one at a time. */
  lemma FieldsPass(msgs: ValidationMessages, data: map<string, string>)
    requires MessagesSet(msgs)
    requires data.Keys == {"name", "email", "phone", "subject", "message"}
    ensures (forall k :: k in data && k != "phone" ==> ValidateField(msgs, k, data[k]) == "") <==>
              ValidateField(msgs, "name", data["name"]) == "" &&
              ValidateField(msgs, "email", data["email"]) == "" &&
              ValidateField(msgs, "subject", data["subject"]) == "" &&
              ValidateField(msgs, "message", data["message"]) == ""
  {
    if ValidateField(msgs, "name", data["name"]) == "" &&
       ValidateField(msgs, "email", data["email"]) == "" &&
       ValidateField(msgs, "subject", data["subject"]) == "" &&
       ValidateField(msgs, "message", data["message"]) == ""
    {
      forall k | k in data && k != "phone"
        ensures ValidateField(msgs, k, data[k]) == ""
      {
        assert k == "name" || k == "email" || k == "subject" || k == "message";
      }
    }
  }

  /** For a form holding the five inputs: it passes exactly when name and
      subject have at least two characters after trimming, the e-mail
      matches the expression, and the trimmed message has between 2 and 1000
      characters. The phone number is never checked. */
  lemma FormValid(msgs: ValidationMessages, data: map<string, string>)
    requires MessagesSet(msgs)
    requires data.Keys == {"name", "email", "phone", "subject", "message"}
    ensures FormErrors(msgs, data) == map[] <==>
              2 <= |Trim(data["name"])| && EmailPattern(data["email"]) &&
              2 <= |Trim(data["subject"])| && 2 <= |Trim(data["message"])| <= MaxMessageLength
  {
    FormErrorsEmpty(msgs, data);
    FieldsPass(msgs, data);
    LowerFieldNames();
    FieldRules(msgs, "name", data["name"]);
    FieldRules(msgs, "email", data["email"]);
    FieldRules(msgs, "subject", data["subject"]);
    FieldRules(msgs, "message", data["message"]);
  }

  // ---------------------------------------------------------------------------
  // The form's state

  class ContactForm {
    const msgs: ValidationMessages
    var formData: map<string, string>
    var errors: map<string, string>
    var isSubmitting: bool
    var submitStatus: SubmitStatus

    /** The five inputs stay in the form whatever the handlers do. */
    predicate Valid()
      reads this
    {
      forall f :: f in FieldNames ==> f in formData
    }

    constructor(msgs: ValidationMessages)
      ensures Valid()
      ensures this.msgs == msgs && formData == EmptyForm() && errors == map[]
      ensures !isSubmitting && submitStatus == Idle
    {
      this.msgs := msgs;
      formData := EmptyForm();
      errors := map[];
      isSubmitting := false;
      submitStatus := Idle;
    }

    /** `handleChange`: store the value; re-validate only a field that
        already shows an error. A field that now passes keeps the key with
        an empty error. */
    method HandleChange(name: string, value: string)
      requires Valid()
      modifies this
      ensures Valid()
      ensures formData == old(formData)[name := value]
      ensures if name in old(errors) && old(errors)[name] != ""
              then errors == old(errors)[name := ValidateField(msgs, name, value)]
              else errors == old(errors)
      ensures isSubmitting == old(isSubmitting) && submitStatus == old(submitStatus)
    {
      formData := formData[name := value];
      if name in errors && errors[name] != "" {
        var error := ValidateField(msgs, name, value);
        errors := errors[name := error];
      }
    }

    /** `handleBlur`: always re-validate the field that lost focus. */
    method HandleBlur(name: string, value: string)
      modifies this
      ensures errors == old(errors)[name := ValidateField(msgs, name, value)]
      ensures formData == old(formData)
      ensures isSubmitting == old(isSubmitting) && submitStatus == old(submitStatus)
    {
      var error := ValidateField(msgs, name, value);
      errors := errors[name := error];
    }

    /** `validateForm`: replace the errors by those of the whole form. */
    method ValidateForm() returns (isValid: bool)
      modifies this
      ensures errors == FormErrors(msgs, old(formData))
      ensures isValid <==> errors == map[]
      ensures formData == old(formData)
      ensures isSubmitting == old(isSubmitting) && submitStatus == old(submitStatus)
    {
      var newErrors;
      newErrors, isValid := CollectErrors(msgs, formData);
      errors := newErrors;
    }

    /** The part of `handleSubmit` before the message is sent: an invalid
        form stops here and nothing is sent; a valid one marks the form as
        submitting with the status back to idle. */
    method BeginSubmit() returns (send: bool)
      modifies this
      ensures send <==> FormErrors(msgs, old(formData)) == map[]
      ensures errors == FormErrors(msgs, old(formData))
      ensures formData == old(formData)
      ensures send ==> isSubmitting && submitStatus == Idle
      ensures !send ==> isSubmitting == old(isSubmitting) && submitStatus == old(submitStatus)
    {
      send := ValidateForm();
      if send {
        isSubmitting := true;
        submitStatus := Idle;
      }
    }

    /** The part of `handleSubmit` after the mail service answered:
        `delivered` is the outcome of that call. */
    method FinishSubmit(delivered: bool)
      requires Valid()
      modifies this
      ensures Valid()
      ensures delivered ==> submitStatus == Success && formData == EmptyForm()
      ensures !delivered ==> submitStatus == Failure && formData == old(formData)
      ensures !isSubmitting && errors == old(errors)
    {
      if delivered {
        submitStatus := Success;
        formData := EmptyForm();
      } else {
        submitStatus := Failure;
      }
      isSubmitting := false;
    }

    /** The submit button is disabled while sending. */
    predicate ButtonDisabled()
      reads this
    {
      isSubmitting
    }

    /** The error line under a field shows when its error is non-empty. */
    predicate ErrorShown(name: string)
      reads this
    {
      name in errors && errors[name] != ""
    }
  }
}
