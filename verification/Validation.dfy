/** The contact-form validation block of the submit handler: six independent rules over the
    values `FormData.get` returns, each reporting its own field, and the verdict that lets the
    submission go ahead only when no rule failed. */
module Validation {
  import opened Wrappers
  import opened Text

  /** The record built from the form on submit; `None` is the `null` that `FormData.get`
      returns for a control that is absent or contributes nothing (an unchecked checkbox). */
  datatype FormData = FormData(
    name: Option<string>,
    email: Option<string>,
    phone: Option<string>,
    service: Option<string>,
    message: Option<string>,
    privacy: Option<string>)

  datatype Field = Name | Email | Phone | Service | Message | Privacy

  /** The order in which the handler checks the fields. */
  const FieldOrder: seq<Field> := [Name, Email, Phone, Service, Message, Privacy]

  /** The element id `showError` is called with for each field. */
  function FieldId(f: Field): string {
    match f
    case Name => "name"
    case Email => "email"
    case Phone => "phone"
    case Service => "service"
    case Message => "message"
    case Privacy => "privacy"
  }

  /** The message shown under a field whose rule failed. */
  function ErrorText(f: Field): string {
    match f
    case Name => "Bitte geben Sie Ihren vollständigen Namen ein."
    case Email => "Bitte geben Sie eine gültige E-Mail-Adresse ein."
    case Phone => "Bitte geben Sie eine gültige Telefonnummer ein."
    case Service => "Bitte wählen Sie einen Service aus."
    case Message => "Bitte geben Sie eine Nachricht mit mindestens 10 Zeichen ein."
    case Privacy => "Bitte stimmen Sie der Datenschutzerklärung zu."
  }

  lemma FieldIdInjective(f: Field, g: Field)
    ensures FieldId(f) == FieldId(g) <==> f == g
  {
    if f != g {
      assert FieldId(f)[0] != FieldId(g)[0] || FieldId(f)[1] != FieldId(g)[1];
    }
  }

  /** JavaScript truthiness of a `FormData.get` result: `null` and `""` are falsy. */
  predicate Present(v: Option<string>) {
    v.Some? && |v.value| > 0
  }

  // ---------------------------------------------------------------------------------------
  // The e-mail pattern /^[^\s@]+@[^\s@]+\.[^\s@]+$/

  /** The class `[^\s@]`. */
  predicate IsEmailChar(c: char) {
    !IsSpace(c) && c != '@'
  }

  predicate AllEmailChars(s: string) {
    forall k :: 0 <= k < |s| ==> IsEmailChar(s[k])
  }

  /** The e-mail pattern read as a regular expression: an `@` at `i` and a `.` at `j` cut the
      string into three non-empty runs, and every character other than that `@` is in
      `[^\s@]` (the `.` is one of them). */
  predicate MatchesEmailPattern(s: string) {
    exists i, j :: 0 < i && i + 1 < j && j + 1 < |s| && s[i] == '@' && s[j] == '.'
                   && AllEmailChars(s[..i]) && AllEmailChars(s[i + 1..])
  }

  /** The local part: non-empty, no white space, no `@`. */
  predicate ValidLocal(l: string) {
    |l| > 0 && AllEmailChars(l)
  }

  /** The domain: no white space, no `@`, and a `.` that is neither its first nor its last
      character. */
  predicate ValidDomain(d: string) {
    AllEmailChars(d) && exists k :: 0 < k < |d| - 1 && d[k] == '.'
  }

  /** The string is `local@domain` with a valid local part and a valid domain. */
  predicate SplitsAsEmail(s: string) {
    exists i :: 0 <= i < |s| && s[i] == '@' && ValidLocal(s[..i]) && ValidDomain(s[i + 1..])
  }

  /** The pattern accepts exactly the strings that split into a valid local part and a valid
      domain at an `@`. */
  lemma EmailPatternSplits(s: string)
    ensures MatchesEmailPattern(s) <==> SplitsAsEmail(s)
  {
    if MatchesEmailPattern(s) {
      var i, j :| 0 < i && i + 1 < j && j + 1 < |s| && s[i] == '@' && s[j] == '.'
                  && AllEmailChars(s[..i]) && AllEmailChars(s[i + 1..]);
      var d := s[i + 1..];
      assert d[j - i - 1] == '.';
      assert ValidDomain(d);
    }
    if SplitsAsEmail(s) {
      var i :| 0 <= i < |s| && s[i] == '@' && ValidLocal(s[..i]) && ValidDomain(s[i + 1..]);
      var d := s[i + 1..];
      var k :| 0 < k < |d| - 1 && d[k] == '.';
      assert s[i + 1 + k] == '.';
    }
  }

  /** A string the pattern accepts holds exactly one `@`. */
  lemma EmailPatternSingleAt(s: string)
    requires MatchesEmailPattern(s)
    ensures exists i :: 0 <= i < |s| && s[i] == '@'
                        && forall k :: 0 <= k < |s| && s[k] == '@' ==> k == i
  {
    var i, j :| 0 < i && i + 1 < j && j + 1 < |s| && s[i] == '@' && s[j] == '.'
                && AllEmailChars(s[..i]) && AllEmailChars(s[i + 1..]);
    forall k | 0 <= k < |s| && k != i
      ensures s[k] != '@'
    {
      if k < i {
        assert s[..i][k] == s[k];
      } else {
        assert s[i + 1..][k - i - 1] == s[k];
      }
    }
  }

  // ---------------------------------------------------------------------------------------
  // The phone pattern /^[\+]?[\d\s\-\(\)]+$/

  /** The class `[\d\s\-\(\)]`. */
  predicate IsPhoneChar(c: char) {
    IsDigit(c) || IsSpace(c) || c == '-' || c == '(' || c == ')'
  }

  predicate AllPhoneChars(s: string) {
    forall k :: 0 <= k < |s| ==> IsPhoneChar(s[k])
  }

  /** The phone pattern read as a regular expression: the optional `+` is either absent or
      present, and what follows is a non-empty run of the class. */
  predicate MatchesPhonePattern(s: string) {
    || (|s| > 0 && AllPhoneChars(s))
    || (|s| > 1 && s[0] == '+' && AllPhoneChars(s[1..]))
  }

  /** A string the pattern accepts has at most one `+`, and only as its first character. */
  lemma PhonePatternPlusOnlyFirst(s: string)
    requires MatchesPhonePattern(s)
    ensures forall k :: 0 < k < |s| ==> s[k] != '+'
  {
    if s[0] == '+' {
      assert !AllPhoneChars(s);
      forall k | 0 < k < |s|
        ensures s[k] != '+'
      {
        assert s[1..][k - 1] == s[k];
      }
    }
  }

  // ---------------------------------------------------------------------------------------
  // The rules

  /** Whether the field passes its rule, stated positively as the form's requirements:
      a name and a message of at least 2 and 10 UTF-16 units once trimmed, an e-mail address
      the pattern accepts, a phone number that is either left blank or is accepted by the
      pattern and has at least 6 units once trimmed, and a chosen service and a checked
      privacy box. */
  predicate Passes(d: FormData, f: Field) {
    match f
    case Name => Present(d.name) && Utf16Length(Trim(d.name.value)) >= 2
    case Email => Present(d.email) && MatchesEmailPattern(d.email.value)
    case Phone =>
      || !Present(d.phone)
      || AllSpace(d.phone.value)
      || (MatchesPhonePattern(d.phone.value) && Utf16Length(Trim(d.phone.value)) >= 6)
    case Service => Present(d.service)
    case Message => Present(d.message) && Utf16Length(Trim(d.message.value)) >= 10
    case Privacy => Present(d.privacy)
  }

  /** The condition under which the submit handler calls `showError` for a field, written
      as the handler tests it. */
  predicate Fails(d: FormData, f: Field) {
    match f
    case Name => !Present(d.name) || Utf16Length(Trim(d.name.value)) < 2
    case Email => !Present(d.email) || !MatchesEmailPattern(d.email.value)
    case Phone =>
      && Present(d.phone) && |Trim(d.phone.value)| > 0
      && (!MatchesPhonePattern(d.phone.value) || Utf16Length(Trim(d.phone.value)) < 6)
    case Service => !Present(d.service)
    case Message => !Present(d.message) || Utf16Length(Trim(d.message.value)) < 10
    case Privacy => !Present(d.privacy)
  }

  /** The handler's test for a field is the negation of the field's requirement. */
  lemma FailsIffNotPasses(d: FormData)
    ensures forall f :: Fails(d, f) <==> !Passes(d, f)
  {
    if Present(d.phone) {
      assert |Trim(d.phone.value)| > 0 <==> !AllSpace(d.phone.value);
    }
  }

  /** Fields listed in the handler's checking order. */
  predicate InCheckOrder(fs: seq<Field>) {
    forall i, j :: 0 <= i < j < |fs| ==> FieldIndex(fs[i]) < FieldIndex(fs[j])
  }

  lemma FieldOrderComplete()
    ensures forall f :: f in FieldOrder
    ensures InCheckOrder(FieldOrder)
  {
    forall f
      ensures f in FieldOrder
    {
      assert FieldOrder[FieldIndex(f)] == f;
    }
    forall i | 0 <= i < |FieldOrder|
      ensures FieldIndex(FieldOrder[i]) == i
    {
    }
  }

  /** `r` holds exactly the fields of `fs` whose test fails, is no longer than `fs`, and
      keeps the check order when `fs` is in it. */
  ghost predicate FailuresFiltered(d: FormData, fs: seq<Field>, r: seq<Field>) {
    && (forall f :: f in r <==> f in fs && Fails(d, f))
    && |r| <= |fs|
    && (InCheckOrder(fs) ==> InCheckOrder(r))
  }

  /** The inductive step of the filter: the first field goes in front of the filtered rest
      exactly when its test fails. */
  lemma {:induction false} FailuresFilteredStep(d: FormData, fs: seq<Field>, rest: seq<Field>)
    requires |fs| > 0 && FailuresFiltered(d, fs[1..], rest)
    ensures FailuresFiltered(d, fs, if Fails(d, fs[0]) then [fs[0]] + rest else rest)
  {
    assert forall f :: f in fs <==> f == fs[0] || f in fs[1..];
    if InCheckOrder(fs) {
      assert InCheckOrder(fs[1..]);
      assert forall f :: f in rest ==> FieldIndex(fs[0]) < FieldIndex(f);
    }
  }

  /** The fields of `fs` whose test fails, in the order of `fs`. */
  function FailuresAmong(d: FormData, fs: seq<Field>): (r: seq<Field>)
    ensures FailuresFiltered(d, fs, r)
  {
    if |fs| == 0 then []
    else
      var rest := FailuresAmong(d, fs[1..]);
      FailuresFilteredStep(d, fs, rest);
      if Fails(d, fs[0]) then [fs[0]] + rest else rest
  }


  /** The fields the submit handler calls `showError` for, in the order it calls it: every
      rule is checked, none depends on another's outcome, and a field is reported exactly when
      its requirement is not met. */
  function Failures(d: FormData): (r: seq<Field>)
    ensures forall f :: f in r <==> !Passes(d, f)
    ensures InCheckOrder(r)
  {
    FailsIffNotPasses(d);
    FieldOrderComplete();
    FailuresAmong(d, FieldOrder)
  }

  /** The position of a field in the handler's checking order. */
  function FieldIndex(f: Field): (n: nat)
    ensures n < |FieldOrder| && FieldOrder[n] == f
  {
    match f
    case Name => 0
    case Email => 1
    case Phone => 2
    case Service => 3
    case Message => 4
    case Privacy => 5
  }

  /** The `isValid` flag: the submission goes ahead exactly when no field failed. */
  function IsValid(d: FormData): (ok: bool)
    ensures ok <==> forall f :: Passes(d, f)
  {
    var r := Failures(d);
    assert |r| > 0 ==> r[0] in r;
    |r| == 0
  }

  // ---------------------------------------------------------------------------------------
  // The rules one by one

  lemma NameRule(d: FormData)
    ensures Name in Failures(d) <==> d.name.None? || Utf16Length(Trim(d.name.value)) < 2
  {
    if d.name.Some? && |d.name.value| == 0 {
      assert Trim(d.name.value) == [];
    }
  }

  lemma MessageRule(d: FormData)
    ensures Message in Failures(d) <==> d.message.None? || Utf16Length(Trim(d.message.value)) < 10
  {
    if d.message.Some? && |d.message.value| == 0 {
      assert Trim(d.message.value) == [];
    }
  }

  /** An absent or empty address always fails; otherwise the address fails exactly when it
      does not split into a valid local part and domain. */
  lemma EmailRule(d: FormData)
    ensures !Present(d.email) ==> Email in Failures(d)
    ensures Present(d.email) ==> (Email in Failures(d) <==> !SplitsAsEmail(d.email.value))
  {
    if Present(d.email) {
      EmailPatternSplits(d.email.value);
    }
  }

  /** An absent, empty or blank phone number never fails; any other fails exactly when the
      pattern rejects it or it is shorter than 6 units once trimmed. */
  lemma PhoneRule(d: FormData)
    ensures !Present(d.phone) || AllSpace(d.phone.value) ==> Phone !in Failures(d)
    ensures Present(d.phone) && !AllSpace(d.phone.value) ==>
              (Phone in Failures(d) <==>
                 !MatchesPhonePattern(d.phone.value) || Utf16Length(Trim(d.phone.value)) < 6)
  {
  }

  /** A phone number made only of characters of the basic plane is measured in characters. */
  lemma PhoneRuleBasicPlane(d: FormData)
    requires Present(d.phone) && !AllSpace(d.phone.value)
    requires forall i :: 0 <= i < |d.phone.value| ==> d.phone.value[i] <= '\U{FFFF}'
    ensures Phone in Failures(d) <==> !MatchesPhonePattern(d.phone.value) || |Trim(d.phone.value)| < 6
  {
    var t := Trim(d.phone.value);
    assert forall k :: 0 <= k < |t| ==> t[k] in d.phone.value;
  }

  lemma ServiceAndPrivacyRules(d: FormData)
    ensures Service in Failures(d) <==> d.service.None? || d.service.value == ""
    ensures Privacy in Failures(d) <==> d.privacy.None? || d.privacy.value == ""
  {
  }

  /** A list of fields in checking order is determined by which fields it holds. */
  lemma {:induction false} CheckOrderUnique(a: seq<Field>, b: seq<Field>)
    requires InCheckOrder(a) && InCheckOrder(b)
    requires forall f :: f in a <==> f in b
    ensures a == b
  {
    assert |a| > 0 ==> a[0] in b;
    assert |b| > 0 ==> b[0] in a;
    if |a| > 0 && |b| > 0 {
      var i :| 0 <= i < |b| && b[i] == a[0];
      var j :| 0 <= j < |a| && a[j] == b[0];
      assert i == 0 && j == 0;
      forall f
        ensures f in a[1..] <==> f in b[1..]
      {
        if f in a[1..] {
          var k :| 1 <= k < |a| && a[k] == f;
          assert FieldIndex(a[0]) < FieldIndex(f);
          assert f in b;
          var m :| 0 <= m < |b| && b[m] == f;
          assert m != 0;
          assert b[1..][m - 1] == f;
        }
        if f in b[1..] {
          var k :| 1 <= k < |b| && b[k] == f;
          assert FieldIndex(b[0]) < FieldIndex(f);
          assert f in a;
          var m :| 0 <= m < |a| && a[m] == f;
          assert m != 0;
          assert a[1..][m - 1] == f;
        }
      }
      CheckOrderUnique(a[1..], b[1..]);
    }
  }

  /** When exactly one requirement is unmet, exactly that field is reported, once. */
  lemma SingleFailure(d: FormData, f: Field)
    requires !Passes(d, f)
    requires forall g :: g != f ==> Passes(d, g)
    ensures Failures(d) == [f]
  {
    CheckOrderUnique(Failures(d), [f]);
  }

  // ---------------------------------------------------------------------------------------
  // The two worked examples of the form's behaviour

  /** A text inside the Basic Multilingual Plane that neither starts nor ends with white
      space keeps its character count as its trimmed length. */
  lemma UnpaddedLength(s: string)
    requires s != [] && !IsSpace(s[0]) && !IsSpace(s[|s| - 1])
    requires forall i :: 0 <= i < |s| ==> s[i] <= '\U{FFFF}'
    ensures Utf16Length(Trim(s)) == |s|
  {
    TrimUnpadded(s);
  }

  /** A two-letter name, a ten-character message and a blank phone are all accepted. */
  lemma MinimalSubmissionPasses(d: FormData)
    requires d.name == Some("Jo") && d.email == Some("a@b.de") && d.phone == Some("")
    requires d.service == Some("Transport") && d.message == Some("0123456789")
    requires d.privacy == Some("on")
    ensures IsValid(d)
  {
    ExampleNameLength();
    ExampleMessageLength();
    ExampleAddressAccepted();
    EveryRulePasses(d);
  }

  /** The example's address has its `@` at index 1 and its `.` at index 3. */
  lemma ExampleAddressAccepted()
    ensures MatchesEmailPattern("a@b.de")
  {
    EmailWitness("a@b.de", 1, 3);
  }

  /** The example's name is two units long once trimmed. */
  lemma ExampleNameLength()
    ensures Utf16Length(Trim("Jo")) == 2
  {
    UnpaddedLength("Jo");
  }

  /** The example's message is ten units long once trimmed. */
  lemma ExampleMessageLength()
    ensures Utf16Length(Trim("0123456789")) == 10
  {
    UnpaddedLength("0123456789");
  }

  /** An `@` and a later `.` with pattern characters around them are all the e-mail pattern
      asks for. */
  lemma EmailWitness(s: string, i: nat, j: nat)
    requires 0 < i && i + 1 < j && j + 1 < |s| && s[i] == '@' && s[j] == '.'
    requires AllEmailChars(s[..i]) && AllEmailChars(s[i + 1..])
    ensures MatchesEmailPattern(s)
  {
  }

  /** A submission that meets every requirement goes ahead. */
  lemma EveryRulePasses(d: FormData)
    requires Passes(d, Name) && Passes(d, Email) && Passes(d, Phone)
    requires Passes(d, Service) && Passes(d, Message) && Passes(d, Privacy)
    ensures IsValid(d)
  {
    forall f
      ensures Passes(d, f)
    {
    }
  }

  /** An address without `@` fails the e-mail rule and nothing else. */
  lemma AddressWithoutAtFailsAlone(d: FormData)
    requires d.name == Some("Jo") && d.email == Some("not-an-email") && d.phone == None
    requires d.service == Some("Transport") && d.message == Some("0123456789")
    requires d.privacy == Some("on")
    ensures Failures(d) == [Email]
  {
    ExampleNameLength();
    ExampleMessageLength();
    ExampleAddressRejected();
    forall f | f != Email
      ensures Passes(d, f)
    {
    }
    SingleFailure(d, Email);
  }

  /** `not-an-email` holds no `@`, so the e-mail pattern rejects it. */
  lemma ExampleAddressRejected()
    ensures !MatchesEmailPattern("not-an-email")
  {
    var e := "not-an-email";
    assert forall i :: 0 <= i < |e| ==> e[i] != '@';
  }
}
