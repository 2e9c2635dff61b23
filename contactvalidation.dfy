/** The field rules of the contact form's validateForm: each rule may give
    one message for one field, and the error map holds exactly the messages
    of the rules that fail. */
module ContactValidation {
  import opened JsBuiltins
  import opened ContactRecord

  /** The values the error state holds: one constructor per message that
      validateForm can store, and Cleared for the empty string that
      handleCheckBox writes over the language message. */
  datatype Message =
    | FirstNameRequired | FirstNameTooShort | LastNameRequired
    | EmailRequired | EmailInvalid | MobileRequired | MobileInvalid
    | GenderRequired | LangRequired | DateRequired
    | AddressRequired | AddressTooShort | StatusRequired | CoursesRequired
    | Cleared

  /** The text shown under the field; only Cleared is falsy. */
  function Text(m: Message): (t: string)
    ensures t == "" <==> m == Cleared
  {
    match m
    case FirstNameRequired => "First Name is required"
    case FirstNameTooShort => "First Name must be at least 2 characters"
    case LastNameRequired => "Last Name is required"
    case EmailRequired => "Email is required"
    case EmailInvalid => "Please enter a valid email address"
    case MobileRequired => "Mobile number is required"
    case MobileInvalid => "Please enter a valid 10-digit mobile number"
    case GenderRequired => "Please select a gender"
    case LangRequired => "Please select at least one language"
    case DateRequired => "Please select a date"
    case AddressRequired => "Address is required"
    case AddressTooShort => "Address must be at least 10 characters"
    case StatusRequired => "Please select your status"
    case CoursesRequired => "Please select a course"
    case Cleared => ""
  }

  // ---------------------------------------------------------------------
  // The email pattern ^[^\s@]+@[^\s@]+\.[^\s@]+$
  // ---------------------------------------------------------------------

  /** A character of the class [^\s@]. */
  predicate EmailChar(c: char) {
    !IsWhitespace(c) && c != '@'
  }

  /** A match of [^\s@]+. */
  predicate EmailRun(t: string) {
    |t| > 0 && forall i :: 0 <= i < |t| ==> EmailChar(t[i])
  }

  /** The language of the regular expression, read off its structure: three
      runs of [^\s@]+ separated by a literal `@` and a literal `.`. */
  ghost predicate MatchesEmailPattern(s: string) {
    exists user, host, tld :: EmailRun(user) && EmailRun(host) && EmailRun(tld)
      && s == user + "@" + host + "." + tld
  }

  /** The test `emailRegex.test(s)`: a non-empty part before the first `@`
      without whitespace, and after it a domain without whitespace or `@`
      that has a `.` which is neither its first nor its last character. */
  predicate IsEmail(s: string) {
    var k := IndexOf(s, '@');
    0 < k < |s| && EmailRun(s[..k])
    && var domain := s[k + 1..];
    EmailRun(domain) && exists j :: 0 < j < |domain| - 1 && domain[j] == '.'
  }

  /** The test accepts exactly the strings of the regular expression. */
  lemma IsEmailMatchesPattern(s: string)
    ensures IsEmail(s) <==> MatchesEmailPattern(s)
  {
    if IsEmail(s) {
      IsEmailSound(s);
    }
    if MatchesEmailPattern(s) {
      IsEmailComplete(s);
    }
  }

  /** Every string the test accepts splits at its first `@` and at a `.`
      of the domain into three runs of the pattern. */
  lemma IsEmailSound(s: string)
    requires IsEmail(s)
    ensures MatchesEmailPattern(s)
  {
    var k := IndexOf(s, '@');
    var domain := s[k + 1..];
    var j :| 0 < j < |domain| - 1 && domain[j] == '.';
    var user, host, tld := s[..k], domain[..j], domain[j + 1..];
    assert EmailRun(host) by {
      forall i | 0 <= i < |host| ensures EmailChar(host[i]) {
        assert host[i] == domain[i];
      }
    }
    assert EmailRun(tld) by {
      forall i | 0 <= i < |tld| ensures EmailChar(tld[i]) {
        assert tld[i] == domain[j + 1 + i];
      }
    }
    assert domain == host + "." + tld;
    assert s == user + "@" + host + "." + tld;
  }

  /** Every match of the pattern passes the test: its only `@` is the
      first one, and the `.` lies strictly inside the domain. */
  lemma IsEmailComplete(s: string)
    requires MatchesEmailPattern(s)
    ensures IsEmail(s)
  {
    var user, host, tld :| EmailRun(user) && EmailRun(host) && EmailRun(tld)
      && s == user + "@" + host + "." + tld;
    var rest := host + "." + tld;
    assert s == user + ['@'] + rest;
    assert '@' !in user by {
      forall i | 0 <= i < |user| ensures user[i] != '@' {
        assert EmailChar(user[i]);
      }
    }
    IndexOfConcat(user, '@', rest);
    var k := |user|;
    assert s[..k] == user;
    var domain := s[k + 1..];
    assert domain == rest;
    assert domain[|host|] == '.';
    assert EmailRun(domain) by {
      forall i | 0 <= i < |domain| ensures EmailChar(domain[i]) {
        if i < |host| {
          assert domain[i] == host[i];
        } else if i > |host| {
          assert domain[i] == tld[i - |host| - 1];
        }
      }
    }
    assert 0 < |host| < |domain| - 1;
  }

  /** The test `/^[0-9]{10}$/.test(s)`. */
  predicate IsMobileNumber(s: string) {
    |s| == 10 && AllDigits(s)
  }

  // ---------------------------------------------------------------------
  // The rules, one per field, in the order validateForm runs them
  // ---------------------------------------------------------------------

  /** First name: blank after trimming, else fewer than 2 code units
      counted on the UNTRIMMED value. */
  function FirstNameRule(s: string): Option<Message> {
    if Trim(s) == "" then Some(FirstNameRequired)
    else if JsLength(s) < 2 then Some(FirstNameTooShort)
    else None
  }

  function LastNameRule(s: string): Option<Message> {
    if Trim(s) == "" then Some(LastNameRequired) else None
  }

  function EmailRule(s: string): Option<Message> {
    if s == "" then Some(EmailRequired)
    else if !IsEmail(s) then Some(EmailInvalid)
    else None
  }

  function MobileRule(s: string): Option<Message> {
    if s == "" then Some(MobileRequired)
    else if !IsMobileNumber(s) then Some(MobileInvalid)
    else None
  }

  /** Address: blank after trimming, else fewer than 10 code units counted
      on the TRIMMED value. */
  function AddressRule(s: string): Option<Message> {
    if Trim(s) == "" then Some(AddressRequired)
    else if JsLength(Trim(s)) < 10 then Some(AddressTooShort)
    else None
  }

  /** The message, if any, that validateForm stores under `f`. */
  function Rule(d: Record, f: Field): Option<Message> {
    match f
    case FirstName => FirstNameRule(d.firstName)
    case LastName => LastNameRule(d.lastName)
    case Email => EmailRule(d.email)
    case MobileNumber => MobileRule(d.mobileNumber)
    case Gender => if d.gender == "" then Some(GenderRequired) else None
    case Lang => if |d.lang| == 0 then Some(LangRequired) else None
    case Date => if d.date.None? then Some(DateRequired) else None
    case Address => AddressRule(d.address)
    case Status => if d.status == "" then Some(StatusRequired) else None
    case Courses => if d.courses == "" then Some(CoursesRequired) else None
  }

  /** One rule's effect on `newErrors`: a failing rule writes its message
      under its field, a passing one leaves the map as it is. */
  function Put(m: map<Field, Message>, f: Field, outcome: Option<Message>): map<Field, Message> {
    match outcome
    case Some(msg) => m[f := msg]
    case None => m
  }

  /** Every field of the form. */
  const AllFields: set<Field> :=
    {FirstName, LastName, Email, MobileNumber, Gender, Lang, Date, Address, Status, Courses}

  /** The error state validateForm stores: the message of every rule that
      fails, under that rule's field. */
  function FormErrors(d: Record): map<Field, Message> {
    map f | f in AllFields && Rule(d, f).Some? :: Rule(d, f).value
  }

  /** Each field's entry in the error map is its own rule's message. */
  lemma FormErrorsAt(d: Record, f: Field)
    ensures f in FormErrors(d) <==> Rule(d, f).Some?
    ensures f in FormErrors(d) ==> FormErrors(d)[f] == Rule(d, f).value
  {
    assert f in AllFields by {
      match f
      case FirstName => case LastName => case Email => case MobileNumber =>
      case Gender => case Lang => case Date => case Address => case Status =>
      case Courses =>
    }
  }

  /** Ten outcomes, one per field, put one after the other in the order
      validateForm runs its rules. */
  function Chain(out: Field -> Option<Message>): map<Field, Message> {
    var m1 := Put(map[], FirstName, out(FirstName));
    var m2 := Put(m1, LastName, out(LastName));
    var m3 := Put(m2, Email, out(Email));
    var m4 := Put(m3, MobileNumber, out(MobileNumber));
    var m5 := Put(m4, Gender, out(Gender));
    var m6 := Put(m5, Lang, out(Lang));
    var m7 := Put(m6, Date, out(Date));
    var m8 := Put(m7, Address, out(Address));
    var m9 := Put(m8, Status, out(Status));
    Put(m9, Courses, out(Courses))
  }

  /** No outcome lands under another field, and none is overwritten. */
  lemma ChainAt(out: Field -> Option<Message>, f: Field)
    ensures f in Chain(out) <==> out(f).Some?
    ensures f in Chain(out) ==> Chain(out)[f] == out(f).value
  {
    var m1 := Put(map[], FirstName, out(FirstName));
    var m2 := Put(m1, LastName, out(LastName));
    var m3 := Put(m2, Email, out(Email));
    var m4 := Put(m3, MobileNumber, out(MobileNumber));
    var m5 := Put(m4, Gender, out(Gender));
    var m6 := Put(m5, Lang, out(Lang));
    var m7 := Put(m6, Date, out(Date));
    var m8 := Put(m7, Address, out(Address));
    var m9 := Put(m8, Status, out(Status));
    assert Chain(out) == Put(m9, Courses, out(Courses));
    PutAt(map[], FirstName, out(FirstName), f);
    PutAt(m1, LastName, out(LastName), f);
    PutAt(m2, Email, out(Email), f);
    PutAt(m3, MobileNumber, out(MobileNumber), f);
    PutAt(m4, Gender, out(Gender), f);
    PutAt(m5, Lang, out(Lang), f);
    PutAt(m6, Date, out(Date), f);
    PutAt(m7, Address, out(Address), f);
    PutAt(m8, Status, out(Status), f);
    PutAt(m9, Courses, out(Courses), f);
  }

  /** The `newErrors` object as validateForm builds it: the rules' outcomes
      put one after the other, in the order it runs them. */
  function BuiltErrors(d: Record): map<Field, Message> {
    Chain(f => Rule(d, f))
  }

  /** Building the map rule by rule gives the error state: no rule writes
      under another field, and no later rule overwrites an earlier one. */
  lemma BuiltErrorsAreFormErrors(d: Record)
    ensures BuiltErrors(d) == FormErrors(d)
  {
    var built, errors := BuiltErrors(d), FormErrors(d);
    forall f ensures f in built <==> f in errors
      ensures f in built ==> built[f] == errors[f]
    {
      BuiltErrorsAt(d, f);
      FormErrorsAt(d, f);
    }
    assert built.Keys == errors.Keys;
  }

  lemma BuiltErrorsAt(d: Record, f: Field)
    ensures f in BuiltErrors(d) <==> Rule(d, f).Some?
    ensures f in BuiltErrors(d) ==> BuiltErrors(d)[f] == Rule(d, f).value
  {
    ChainAt(g => Rule(d, g), f);
  }

  /** Put changes the entry of its own field only. */
  lemma PutAt(m: map<Field, Message>, g: Field, outcome: Option<Message>, f: Field)
    ensures f in Put(m, g, outcome) <==> f in m || (f == g && outcome.Some?)
    ensures f in Put(m, g, outcome)
      ==> Put(m, g, outcome)[f] == if f == g && outcome.Some? then outcome.value else m[f]
  {
  }

  /** The map is empty exactly when every rule passes. */
  lemma NoErrorsIffAllPass(d: Record)
    ensures FormErrors(d) == map[] <==> forall f :: Rule(d, f).None?
  {
    if FormErrors(d) != map[] {
      var f :| f in FormErrors(d);
      FormErrorsAt(d, f);
    } else {
      forall f ensures Rule(d, f).None? {
        FormErrorsAt(d, f);
      }
    }
  }

  // ---------------------------------------------------------------------
  // What the rules demand, stated positively
  // ---------------------------------------------------------------------

  /** The field passes its check: the requirement list of the form, written
      without reference to the rules above. */
  ghost predicate FieldOk(d: Record, f: Field) {
    match f
    case FirstName => !AllWhitespace(d.firstName) && JsLength(d.firstName) >= 2
    case LastName => !AllWhitespace(d.lastName)
    case Email => MatchesEmailPattern(d.email)
    case MobileNumber => IsMobileNumber(d.mobileNumber)
    case Gender => d.gender != ""
    case Lang => |d.lang| > 0
    case Date => d.date.Some?
    case Address => JsLength(Trim(d.address)) >= 10
    case Status => d.status != ""
    case Courses => d.courses != ""
  }

  ghost predicate DraftValid(d: Record) {
    forall f :: FieldOk(d, f)
  }

  /** A field has an entry in the error map exactly when it fails its
      check; a missing field is therefore always reported. */
  lemma {:induction false} ErrorKeyIffFieldFails(d: Record, f: Field)
    ensures f in FormErrors(d) <==> !FieldOk(d, f)
  {
    FormErrorsAt(d, f);
    match f
    case Email =>
      IsEmailMatchesPattern(d.email);
    case Address =>
      if Trim(d.address) == "" {
        assert JsLength(Trim(d.address)) == 0;
      }
    case _ =>
  }

  /** validateForm returns true exactly when every field passes its check,
      which is exactly when the error map it builds is empty. */
  lemma ErrorsEmptyIffValid(d: Record)
    ensures FormErrors(d) == map[] <==> DraftValid(d)
  {
    if FormErrors(d) == map[] {
      forall f ensures FieldOk(d, f) {
        ErrorKeyIffFieldFails(d, f);
      }
    } else {
      var f :| f in FormErrors(d);
      ErrorKeyIffFieldFails(d, f);
    }
  }

  /** validateForm's messages for the first name: blank after trimming is
      "required", otherwise fewer than two code units counted on the
      untrimmed value is "too short". */
  lemma FirstNameMessages(d: Record)
    ensures AllWhitespace(d.firstName)
      ==> FirstName in FormErrors(d) && FormErrors(d)[FirstName] == FirstNameRequired
    ensures !AllWhitespace(d.firstName) && JsLength(d.firstName) < 2
      ==> FirstName in FormErrors(d) && FormErrors(d)[FirstName] == FirstNameTooShort
  {
    FormErrorsAt(d, FirstName);
    assert Rule(d, FirstName) == FirstNameRule(d.firstName);
  }

  /** validateForm's messages for the address: its length is counted after
      trimming, so surrounding blanks do not count, unlike the first
      name's. */
  lemma AddressMessages(d: Record)
    ensures AllWhitespace(d.address)
      ==> Address in FormErrors(d) && FormErrors(d)[Address] == AddressRequired
    ensures !AllWhitespace(d.address) && JsLength(Trim(d.address)) < 10
      ==> Address in FormErrors(d) && FormErrors(d)[Address] == AddressTooShort
  {
    FormErrorsAt(d, Address);
    var a := d.address;
    assert Rule(d, Address) == AddressRule(a);
    assert AllWhitespace(a) <==> Trim(a) == "";
    assert AllWhitespace(a) ==> AddressRule(a) == Some(AddressRequired);
    assert !AllWhitespace(a) && JsLength(Trim(a)) < 10 ==> AddressRule(a) == Some(AddressTooShort);
  }

  /** The asymmetry on concrete values: a one-letter first name after a
      blank passes, because the blank counts towards its length. */
  lemma PaddedFirstNamePasses()
    ensures JsLength(Trim(" a")) == 1 && FirstNameRule(" a") == None
  {
    var name, name1 := " a", "a";
    assert IsWhitespace(name[0]) && !IsWhitespace(name1[0]);
    assert name[1..] == name1;
    assert TrimStart(name) == TrimStart(name1) == name1;
    assert TrimEnd(name1) == name1;
  }

  /** An address of nine characters between two blanks is too short,
      although its untrimmed length is eleven. */
  lemma PaddedAddressTooShort()
    ensures JsLength(" 123456789 ") == 11 && AddressRule(" 123456789 ") == Some(AddressTooShort)
  {
    PaddedAddressTrims();
    PaddedAddressLengths();
  }

  lemma PaddedAddressLengths()
    ensures JsLength(" 123456789 ") == 11 && JsLength("123456789") == 9
  {
    var addr, digits := " 123456789 ", "123456789";
    assert forall i | 0 <= i < |addr| :: !IsAstral(addr[i]);
    assert forall i | 0 <= i < |digits| :: !IsAstral(digits[i]);
  }

  lemma PaddedAddressTrims()
    ensures Trim(" 123456789 ") == "123456789"
  {
    var addr, addr1, addr2 := " 123456789 ", "123456789 ", "123456789";
    assert IsWhitespace(addr[0]) && !IsWhitespace(addr1[0]) && !IsWhitespace(addr2[8]);
    assert addr[1..] == addr1 && addr1[..9] == addr2;
    assert TrimStart(addr) == TrimStart(addr1) == addr1;
    assert TrimEnd(addr1) == TrimEnd(addr2) == addr2;
  }

  /** The email and mobile-number messages: an empty value is "required",
      any other value that fails the pattern is "invalid". */
  lemma EmailAndMobileMessages(d: Record)
    ensures d.email == "" ==> Email in FormErrors(d) && FormErrors(d)[Email] == EmailRequired
    ensures d.email != "" && !MatchesEmailPattern(d.email)
      ==> Email in FormErrors(d) && FormErrors(d)[Email] == EmailInvalid
    ensures d.mobileNumber == ""
      ==> MobileNumber in FormErrors(d) && FormErrors(d)[MobileNumber] == MobileRequired
    ensures d.mobileNumber != "" && !IsMobileNumber(d.mobileNumber)
      ==> MobileNumber in FormErrors(d) && FormErrors(d)[MobileNumber] == MobileInvalid
  {
    FormErrorsAt(d, Email);
    FormErrorsAt(d, MobileNumber);
    IsEmailMatchesPattern(d.email);
  }

  /** The messages of an untouched form: every field the default draft
      leaves blank is reported as required; status, course and date come
      pre-filled. */
  const EmptyDraftMessages: map<Field, Message> := map[
    FirstName := FirstNameRequired, LastName := LastNameRequired,
    Email := EmailRequired, MobileNumber := MobileRequired,
    Gender := GenderRequired, Lang := LangRequired, Address := AddressRequired]

  lemma EmptyDraftRule(now: int, f: Field)
    ensures f in EmptyDraftMessages <==> Rule(EmptyDraft(now), f).Some?
    ensures f in EmptyDraftMessages ==> Rule(EmptyDraft(now), f) == Some(EmptyDraftMessages[f])
  {
    var m := EmptyDraftMessages;
    match f
    case FirstName => assert Trim("") == "" && m[FirstName] == FirstNameRequired;
    case LastName => assert Trim("") == "" && m[LastName] == LastNameRequired;
    case Email => assert m[Email] == EmailRequired;
    case MobileNumber => assert m[MobileNumber] == MobileRequired;
    case Gender => assert m[Gender] == GenderRequired;
    case Lang => assert m[Lang] == LangRequired;
    case Address => assert Trim("") == "" && m[Address] == AddressRequired;
    case Date => assert Date !in m;
    case Status => assert Status !in m;
    case Courses => assert Courses !in m;
  }

  /** Submitting the default draft shows exactly the "required" message of
      each blank field. */
  lemma EmptyDraftErrors(now: int)
    ensures FormErrors(EmptyDraft(now)) == EmptyDraftMessages
  {
    var d := EmptyDraft(now);
    forall f ensures f in FormErrors(d) <==> f in EmptyDraftMessages
      ensures f in FormErrors(d) ==> FormErrors(d)[f] == EmptyDraftMessages[f]
    {
      EmptyDraftRule(now, f);
      FormErrorsAt(d, f);
    }
  }
}
