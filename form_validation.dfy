/** Field-level validation of the reservation form: a required field must be
    non-blank, an e-mail field must have the shape local@domain.tld, a
    telephone field may hold only digits, whitespace and - + ( ) and must be
    at least ten characters long, and a date may not lie before today. */
module FormValidation {

  datatype Option<T> = None | Some(value: T)

  /** White space as ECMAScript defines it (WhiteSpace and LineTerminator):
      what String.prototype.trim removes and what the regular-expression
      class \s matches. */
  predicate IsSpace(c: char) {
    || c == '\t' || c == '\n' || c == '\U{000B}' || c == '\U{000C}' || c == '\r'
    || c == ' ' || c == '\U{00A0}' || c == '\U{1680}'
    || ('\U{2000}' <= c <= '\U{200A}')
    || c == '\U{2028}' || c == '\U{2029}' || c == '\U{202F}' || c == '\U{205F}'
    || c == '\U{3000}' || c == '\U{FEFF}'
  }

  /** The string without its leading white space. */
  function TrimStart(s: string): (r: string)
    ensures |r| <= |s| && r == s[|s| - |r|..]
    ensures forall i :: 0 <= i < |s| - |r| ==> IsSpace(s[i])
    ensures r == [] || !IsSpace(r[0])
  {
    if s != [] && IsSpace(s[0]) then TrimStart(s[1..]) else s
  }

  /** The string without its trailing white space. */
  function TrimEnd(s: string): (r: string)
    ensures |r| <= |s| && r == s[..|r|]
    ensures forall i :: |r| <= i < |s| ==> IsSpace(s[i])
    ensures r == [] || !IsSpace(r[|r| - 1])
  {
    if s != [] && IsSpace(s[|s| - 1]) then TrimEnd(s[..|s| - 1]) else s
  }

  /** r is s[a..b] and everything outside a..b is white space. */
  predicate Middle(s: string, r: string, a: nat, b: nat) {
    && a <= b <= |s| && r == s[a..b]
    && (forall i :: 0 <= i < a ==> IsSpace(s[i]))
    && (forall i :: b <= i < |s| ==> IsSpace(s[i]))
  }

  /** Removing white space from the front (giving t) and then from the back
      (giving r) keeps a middle slice of the string, which is empty exactly
      when the string is all white space. */
  lemma StripsLeaveMiddle(s: string, t: string, r: string)
    requires |t| <= |s| && t == s[|s| - |t|..]
    requires forall i :: 0 <= i < |s| - |t| ==> IsSpace(s[i])
    requires t == [] || !IsSpace(t[0])
    requires |r| <= |t| && r == t[..|r|]
    requires forall i :: |r| <= i < |t| ==> IsSpace(t[i])
    requires r == [] || !IsSpace(r[|r| - 1])
    ensures Middle(s, r, |s| - |t|, |s| - |t| + |r|)
    ensures r == [] <==> forall i :: 0 <= i < |s| ==> IsSpace(s[i])
    ensures r != [] ==> !IsSpace(r[0]) && !IsSpace(r[|r| - 1])
  {
    var a := |s| - |t|;
    assert r == s[a..a + |r|];
    forall i | a + |r| <= i < |s| ensures IsSpace(s[i]) {
      assert s[i] == t[i - a];
    }
    if t != [] {
      assert s[a] == t[0];
      if r != [] {
        assert r[0] == t[0];
      }
    }
  }

  /** String.prototype.trim: the input without its leading and trailing white
      space. A value is blank exactly when it is all white space. */
  function Trim(s: string): (r: string)
    ensures exists a, b :: Middle(s, r, a, b)
    ensures r == [] <==> forall i :: 0 <= i < |s| ==> IsSpace(s[i])
    ensures r != [] ==> !IsSpace(r[0]) && !IsSpace(r[|r| - 1])
  {
    var t := TrimStart(s);
    var r := TrimEnd(t);
    StripsLeaveMiddle(s, t, r);
    r
  }

  // ---------------------------------------------------------------------------
  // Shapes

  /** The class [^\s@]. */
  predicate Plain(c: char) {
    !IsSpace(c) && c != '@'
  }

  predicate AllPlain(s: string) {
    forall i :: 0 <= i < |s| ==> Plain(s[i])
  }

  /** The e-mail pattern ^[^\s@]+@[^\s@]+\.[^\s@]+$: the value splits at an
      '@' (index at) and at a later '.' (index dot) into three non-empty runs
      of characters that are neither white space nor '@'. */
  predicate EmailPattern(s: string) {
    exists at, dot ::
      && 0 < at && at + 1 < dot < |s| - 1
      && s[at] == '@' && s[dot] == '.'
      && AllPlain(s[..at]) && AllPlain(s[at + 1..dot]) && AllPlain(s[dot + 1..])
  }

  /** The e-mail pattern in plain words: no white space, exactly one '@' and
      not at the start, and after it a '.' that is neither the first nor the
      last character of the domain part. */
  predicate EmailWords(s: string) {
    && (forall i :: 0 <= i < |s| ==> !IsSpace(s[i]))
    && exists at :: (0 < at < |s| && s[at] == '@'
      && (forall i :: 0 <= i < |s| && i != at ==> s[i] != '@')
      && exists dot :: at + 1 < dot < |s| - 1 && s[dot] == '.')
  }

  lemma EmailPatternHasWords(s: string)
    requires EmailPattern(s)
    ensures EmailWords(s)
  {
    var at, dot :|
      && 0 < at && at + 1 < dot < |s| - 1
      && s[at] == '@' && s[dot] == '.'
      && AllPlain(s[..at]) && AllPlain(s[at + 1..dot]) && AllPlain(s[dot + 1..]);
    forall i | 0 <= i < |s| && i != at ensures !IsSpace(s[i]) && s[i] != '@' {
      if i < at {
        assert s[i] == s[..at][i];
      } else if i < dot {
        assert s[i] == s[at + 1..dot][i - at - 1];
      } else if i > dot {
        assert s[i] == s[dot + 1..][i - dot - 1];
      }
    }
    assert 0 < at < |s| && s[at] == '@';
  }

  lemma EmailWordsHavePattern(s: string)
    requires EmailWords(s)
    ensures EmailPattern(s)
  {
    var at :| 0 < at < |s| && s[at] == '@'
      && (forall i :: 0 <= i < |s| && i != at ==> s[i] != '@')
      && exists dot :: at + 1 < dot < |s| - 1 && s[dot] == '.';
    var dot :| at + 1 < dot < |s| - 1 && s[dot] == '.';
    assert AllPlain(s[..at]) && AllPlain(s[at + 1..dot]) && AllPlain(s[dot + 1..]);
  }

  /** A value matches the e-mail pattern exactly when it has the shape
      described in plain words. */
  lemma EmailShape(s: string)
    ensures EmailPattern(s) <==> EmailWords(s)
  {
    if EmailPattern(s) {
      EmailPatternHasWords(s);
    }
    if EmailWords(s) {
      EmailWordsHavePattern(s);
    }
  }

  /** The class [\d\s\-\+\(\)]. */
  predicate PhoneChar(c: char) {
    ('0' <= c <= '9') || IsSpace(c) || c == '-' || c == '+' || c == '(' || c == ')'
  }

  /** The telephone pattern ^[\d\s\-\+\(\)]+$. */
  predicate PhonePattern(s: string) {
    |s| > 0 && forall i :: 0 <= i < |s| ==> PhoneChar(s[i])
  }

  const MinPhoneLength: nat := 10

  // ---------------------------------------------------------------------------
  // Fields

  /** The input types validation distinguishes; every other type (text,
      number, time, select, textarea) gets only the required check. */
  datatype FieldType = EmailInput | TelInput | DateInput | OtherInput

  /** A form control: its type, whether it carries the required attribute,
      its current value, and the error message shown next to it, if any. */
  datatype Field = Field(kind: FieldType, required: bool, value: string, error: Option<string>)

  const RequiredMessage := "Dit veld is verplicht."
  const EmailMessage := "Voer een geldig e-mailadres in."
  const PhoneMessage := "Voer een geldig telefoonnummer in."
  const DateMessage := "Selecteer een datum in de toekomst."

  /** Whether a field passes every rule that applies to it. Dates are day
      numbers: dayOf gives the day a date value denotes, None for a value
      that is not a date (such a value compares false and so passes). */
  predicate Passes(f: Field, today: int, dayOf: string -> Option<int>) {
    var v := Trim(f.value);
    && (f.required ==> v != [])
    && (f.kind == EmailInput && v != [] ==> EmailPattern(v))
    && (f.kind == TelInput && v != [] ==> PhonePattern(v) && |v| >= MinPhoneLength)
    && (f.kind == DateInput && v != [] ==> !(dayOf(v).Some? && dayOf(v).value < today))
  }

  /** The message shown next to a failing field with trimmed value v. */
  function Message(kind: FieldType, v: string): string {
    if v == [] then RequiredMessage
    else match kind
      case EmailInput => EmailMessage
      case TelInput => PhoneMessage
      case DateInput => DateMessage
      case OtherInput => ""
  }

  /** The rules one by one. */
  lemma FieldRules(f: Field, today: int, dayOf: string -> Option<int>)
    ensures f.required && Trim(f.value) == [] ==> !Passes(f, today, dayOf)
    ensures !f.required && Trim(f.value) == [] ==> Passes(f, today, dayOf)
    ensures f.kind == EmailInput && Trim(f.value) != [] ==>
      (Passes(f, today, dayOf) <==> EmailPattern(Trim(f.value)))
    ensures f.kind == TelInput && Trim(f.value) != [] ==>
      (Passes(f, today, dayOf) <==> PhonePattern(Trim(f.value)) && |Trim(f.value)| >= MinPhoneLength)
    ensures f.kind == DateInput && Trim(f.value) != [] && dayOf(Trim(f.value)).Some? ==>
      (Passes(f, today, dayOf) <==> dayOf(Trim(f.value)).value >= today)
    ensures f.kind == DateInput && Trim(f.value) != [] && dayOf(Trim(f.value)).None? ==>
      Passes(f, today, dayOf)
    ensures f.kind == OtherInput && Trim(f.value) != [] ==> Passes(f, today, dayOf)
  {
  }

  /** validateField: trim the value, then apply the required check and the
      check of the field's type in turn, each one overwriting the verdict and
      the message when it fails. */
  method ValidateField(f: Field, today: int, dayOf: string -> Option<int>)
    returns (isValid: bool, errorMessage: string)
    ensures isValid <==> Passes(f, today, dayOf)
    ensures errorMessage == if isValid then "" else Message(f.kind, Trim(f.value))
  {
    var value := Trim(f.value);
    isValid := true;
    errorMessage := "";
    if f.required && value == [] {
      isValid := false;
      errorMessage := RequiredMessage;
    }
    if f.kind == EmailInput && value != [] {
      if !EmailPattern(value) {
        isValid := false;
        errorMessage := EmailMessage;
      }
    }
    if f.kind == TelInput && value != [] {
      if !PhonePattern(value) || |value| < MinPhoneLength {
        isValid := false;
        errorMessage := PhoneMessage;
      }
    }
    if f.kind == DateInput && value != [] {
      var selected := dayOf(value);
      if selected.Some? && selected.value < today {
        isValid := false;
        errorMessage := DateMessage;
      }
    }
  }

  /** Every required field passes. */
  predicate FormPasses(fields: seq<Field>, today: int, dayOf: string -> Option<int>) {
    forall i :: 0 <= i < |fields| && fields[i].required ==> Passes(fields[i], today, dayOf)
  }

  /** The message next to a field after validateForm. Only required fields
      are validated: each loses its old message and shows the message of its
      type if it fails. An optional field is not visited and keeps whatever
      message it showed, for instance one left by an earlier blur. */
  function Report(f: Field, today: int, dayOf: string -> Option<int>): (r: Option<string>)
    ensures !f.required ==> r == f.error
    ensures f.required ==> (r == None <==> Passes(f, today, dayOf))
    ensures f.required && r.Some? ==> r.value == Message(f.kind, Trim(f.value))
  {
    if !f.required then f.error
    else if Passes(f, today, dayOf) then None
    else Some(Message(f.kind, Trim(f.value)))
  }

  /** The reports of a series of fields, in order. */
  function Reports(fields: seq<Field>, today: int, dayOf: string -> Option<int>): (r: seq<Option<string>>)
    ensures |r| == |fields|
  {
    if fields == [] then []
    else Reports(fields[..|fields| - 1], today, dayOf) + [Report(fields[|fields| - 1], today, dayOf)]
  }

  lemma {:induction false} ReportsAt(fields: seq<Field>, today: int, dayOf: string -> Option<int>, i: nat)
    requires i < |fields|
    ensures Reports(fields, today, dayOf)[i] == Report(fields[i], today, dayOf)
    decreases |fields|
  {
    if i < |fields| - 1 {
      var init := fields[..|fields| - 1];
      ReportsAt(init, today, dayOf, i);
      assert init[i] == fields[i];
    }
  }

  lemma ReportsPointwise(fields: seq<Field>, today: int, dayOf: string -> Option<int>)
    ensures forall i :: 0 <= i < |fields| ==> Reports(fields, today, dayOf)[i] == Report(fields[i], today, dayOf)
  {
    forall i | 0 <= i < |fields| ensures Reports(fields, today, dayOf)[i] == Report(fields[i], today, dayOf) {
      ReportsAt(fields, today, dayOf, i);
    }
  }

  lemma ReportsSnoc(fields: seq<Field>, f: Field, today: int, dayOf: string -> Option<int>)
    ensures Reports(fields + [f], today, dayOf) == Reports(fields, today, dayOf) + [Report(f, today, dayOf)]
  {
    assert (fields + [f])[..|fields|] == fields;
  }

  lemma FormPassesSnoc(fields: seq<Field>, f: Field, today: int, dayOf: string -> Option<int>)
    ensures FormPasses(fields + [f], today, dayOf) <==>
      FormPasses(fields, today, dayOf) && (f.required ==> Passes(f, today, dayOf))
  {
    var all := fields + [f];
    assert forall i :: 0 <= i < |fields| ==> all[i] == fields[i];
    assert all[|fields|] == f;
  }

  /** Visiting field i extends the reports and the verdict of the fields
      before it by that field's report and verdict. */
  lemma ValidateFormStep(fields: seq<Field>, i: nat, today: int, dayOf: string -> Option<int>)
    requires i < |fields|
    ensures Reports(fields[..i + 1], today, dayOf) == Reports(fields[..i], today, dayOf) + [Report(fields[i], today, dayOf)]
    ensures FormPasses(fields[..i + 1], today, dayOf) <==>
      FormPasses(fields[..i], today, dayOf) && (fields[i].required ==> Passes(fields[i], today, dayOf))
  {
    assert fields[..i + 1] == fields[..i] + [fields[i]];
    FormPassesSnoc(fields[..i], fields[i], today, dayOf);
    ReportsSnoc(fields[..i], fields[i], today, dayOf);
  }

  /** One field as validateForm sees it: a required field is validated and
      shows the resulting message, if any; an optional field is skipped. */
  method VisitField(f: Field, today: int, dayOf: string -> Option<int>)
    returns (ok: bool, shown: Option<string>)
    ensures ok <==> (f.required ==> Passes(f, today, dayOf))
    ensures shown == Report(f, today, dayOf)
  {
    if f.required {
      var message;
      ok, message := ValidateField(f, today, dayOf);
      shown := if ok then None else Some(message);
    } else {
      ok, shown := true, f.error;
    }
  }

  /** validateForm: validate every required field, without stopping at the
      first failure, so that each failing field shows its message; optional
      fields are not visited. Returns the verdict and, per field, the message
      shown next to it afterwards. */
  method ValidateForm(fields: seq<Field>, today: int, dayOf: string -> Option<int>)
    returns (isValid: bool, errors: seq<Option<string>>)
    ensures isValid <==> FormPasses(fields, today, dayOf)
    ensures |errors| == |fields|
    ensures forall i :: 0 <= i < |fields| ==> errors[i] == Report(fields[i], today, dayOf)
  {
    isValid := true;
    errors := [];
    for i := 0 to |fields|
      invariant errors == Reports(fields[..i], today, dayOf)
      invariant isValid <==> FormPasses(fields[..i], today, dayOf)
    {
      var ok, shown := VisitField(fields[i], today, dayOf);
      ValidateFormStep(fields, i, today, dayOf);
      if !ok {
        isValid := false;
      }
      errors := errors + [shown];
    }
    assert fields[..|fields|] == fields;
    ReportsPointwise(fields, today, dayOf);
  }

  /** A value without white space is its own trimmed value. */
  lemma TrimWithoutSpace(s: string)
    requires forall i :: 0 <= i < |s| ==> !IsSpace(s[i])
    ensures Trim(s) == s
  {
    if s != [] {
      assert !IsSpace(s[0]) && !IsSpace(s[|s| - 1]);
    }
  }

  /** A submitted form can be accepted while an optional field still shows
      the message an earlier blur left next to it: here a telephone number
      too short to pass. */
  lemma AcceptedFormKeepsStaleMessage()
    ensures var f := Field(TelInput, false, "0612", Some(PhoneMessage));
      && FormPasses([f], 0, _ => None)
      && !Passes(f, 0, _ => None)
      && Report(f, 0, _ => None) == Some(PhoneMessage)
  {
    TrimWithoutSpace("0612");
    var f := Field(TelInput, false, "0612", Some(PhoneMessage));
    assert |Trim(f.value)| < MinPhoneLength;
    assert forall i :: 0 <= i < |[f]| ==> ![f][i].required;
  }

  /** A form with a blank required field is refused, and that field reports
      the required-field message. */
  lemma BlankRequiredRefused(fields: seq<Field>, i: nat, today: int, dayOf: string -> Option<int>)
    requires i < |fields| && fields[i].required
    requires forall k :: 0 <= k < |fields[i].value| ==> IsSpace(fields[i].value[k])
    ensures !FormPasses(fields, today, dayOf)
    ensures Message(fields[i].kind, Trim(fields[i].value)) == RequiredMessage
  {
    assert !Passes(fields[i], today, dayOf);
  }
}
