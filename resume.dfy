/** The resume page: a read-only projection of the shared resume data onto
    the lines the page shows. Nothing here changes state; each displayed
    value is a function of the data, and a missing resume sends the visitor
    back to the home page. */
module Resume {
  import opened JsBuiltins

  /** The resume data as the page reads it. The optional fields are the ones
      the page tests for truthiness before it uses them; None stands for
      `undefined` or `null`. The date of birth is not part of this model. */
  datatype ResumeData = ResumeData(
    firstName: string,
    lastName: string,
    email: string,
    mobileNumber: string,
    gender: Option<string>,
    status: Option<string>,
    courses: Option<string>,
    lang: Option<seq<string>>,
    skills: Option<string>,
    experiences: Option<string>)

  /** What the page produces: with no data it renders nothing and navigates
      to `path`; otherwise the sheet, where an absent optional section is
      None. */
  datatype Page =
    | Redirect(path: string)
    | Sheet(
        heading: string,
        contactLine: string,
        fullName: string,
        email: string,
        mobile: string,
        gender: string,
        status: string,
        course: string,
        languages: Option<string>,
        skills: Option<string>,
        experiences: Option<string>)

  /** JavaScript truthiness of an optional string: present and not "". */
  predicate Truthy(o: Option<string>) {
    o.Some? && o.value != ""
  }

  // ---------------------------------------------------------------------
  // The displayed values
  // ---------------------------------------------------------------------

  /** `${firstName} ${lastName}`: the first name, one space, the last name. */
  function FullName(first: string, last: string): (n: string)
    ensures |n| == |first| + 1 + |last|
    ensures n[..|first|] == first && n[|first|] == ' ' && n[|first| + 1..] == last
  {
    first + " " + last
  }

  /** When the first name has no space, the full name splits back at its
      first space into the two names. */
  lemma FullNameSplits(first: string, last: string)
    requires ' ' !in first
    ensures var n := FullName(first, last);
      var k := IndexOf(n, ' ');
      k == |first| && n[..k] == first && n[k + 1..] == last
  {
    IndexOfConcat(first, ' ', last);
    assert FullName(first, last) == first + [' '] + last;
  }

  /** `{email} | {mobileNumber}`. */
  function ContactLine(email: string, mobile: string): (line: string)
    ensures |line| == |email| + 3 + |mobile|
    ensures line[..|email|] == email && line[|email|..|email| + 3] == " | "
    ensures line[|email| + 3..] == mobile
  {
    email + " | " + mobile
  }

  /** `s.charAt(0).toUpperCase() + s.slice(1)`. charAt and slice count
      UTF-16 code units, so when the first code point is stored as a
      surrogate pair the two halves are put back together unchanged. Only
      a lower-case ASCII first letter changes; the length is kept. */
  function UpperFirst(s: string): (r: string)
    ensures |r| == |s|
    ensures s != [] && 'a' <= s[0] <= 'z' ==> r[0] == ToUpperAscii(s[0]) && r[1..] == s[1..]
    ensures !(s != [] && 'a' <= s[0] <= 'z') ==> r == s
  {
    if s == [] then []
    else if IsAstral(s[0]) then s
    else
      var r := [ToUpperAscii(s[0])] + s[1..];
      assert r[1..] == s[1..];
      r
  }

  /** Capitalising a capitalised value changes nothing more. */
  lemma UpperFirstIdempotent(s: string)
    ensures UpperFirst(UpperFirst(s)) == UpperFirst(s)
  {
  }

  /** Capitalising keeps the JavaScript length of the value. */
  lemma UpperFirstKeepsLength(s: string)
    ensures JsLength(UpperFirst(s)) == JsLength(s)
  {
    if s != [] && 'a' <= s[0] <= 'z' {
      var r := UpperFirst(s);
      assert r == [r[0]] + s[1..];
      assert r[1..] == s[1..];
    }
  }

  /** The gender and course lines: a truthy value capitalised, else "". */
  function Capitalized(o: Option<string>): (line: string)
    ensures line == "" <==> !Truthy(o)
    ensures Truthy(o) ==> line == UpperFirst(o.value)
  {
    if Truthy(o) then UpperFirst(o.value) else ""
  }

  /** What the page shows for each value the contact form offers. */
  lemma FormOptionLabels()
    ensures Capitalized(Some("male")) == "Male"
    ensures Capitalized(Some("female")) == "Female"
    ensures Capitalized(Some("others")) == "Others"
    ensures Capitalized(Some("engineering")) == "Engineering"
    ensures Capitalized(Some("arts")) == "Arts"
    ensures Capitalized(Some("poly")) == "Poly"
  {
    assert "male"[1..] == "ale";
    assert "female"[1..] == "emale";
    assert "others"[1..] == "thers";
    assert "engineering"[1..] == "ngineering";
    assert "arts"[1..] == "rts";
    assert "poly"[1..] == "oly";
  }

  /** The status line: 'school' and 'college' have their own labels, and
      every other value, an absent one included, reads "Working
      Professional". */
  function StatusLabel(o: Option<string>): (text: string)
    ensures text == "School" <==> o == Some("school")
    ensures text == "College" <==> o == Some("college")
    ensures text == "Working Professional" <==> o != Some("school") && o != Some("college")
  {
    if o == Some("school") then "School"
    else if o == Some("college") then "College"
    else "Working Professional"
  }

  /** `lang && lang.length > 0 && lang.join(', ')`: the languages line is
      shown exactly when the list is present and non-empty. */
  function LanguagesLine(o: Option<seq<string>>): (line: Option<string>)
    ensures line.Some? <==> o.Some? && |o.value| > 0
    ensures line.Some? ==> line.value == Join(o.value, ", ")
    ensures line.Some? && |o.value| == 1 ==> line.value == o.value[0]
  {
    if o.Some? && |o.value| > 0 then Some(Join(o.value, ", ")) else None
  }

  /** The languages line lists every selected language, in order: splitting
      it at ", " gives the list back when no entry holds a comma. */
  lemma LanguagesLineLists(langs: seq<string>)
    requires |langs| > 0
    requires forall i :: 0 <= i < |langs| ==> ',' !in langs[i]
    ensures LanguagesLine(Some(langs)) == Some(Join(langs, ", "))
    ensures SplitCommaSpace(LanguagesLine(Some(langs)).value) == langs
  {
    SplitJoin(langs);
  }

  /** The skills and experiences sections: shown, with the text as it is,
      exactly when the value is truthy. */
  function Section(o: Option<string>): (shown: Option<string>)
    ensures shown.Some? <==> Truthy(o)
    ensures shown.Some? ==> shown.value == o.value && shown.value != ""
  {
    if Truthy(o) then o else None
  }

  // ---------------------------------------------------------------------
  // The page
  // ---------------------------------------------------------------------

  /** The Resume component: no data renders nothing and navigates to "/";
      otherwise every line of the sheet is projected from the data. The
      full name appears both as the heading and in the personal
      information list, which also shows the email and the mobile number
      on their own. */
  function Present(data: Option<ResumeData>): (p: Page)
    ensures p.Redirect? <==> data.None?
    ensures p.Redirect? ==> p.path == "/"
    ensures p.Sheet? ==> (p.heading == p.fullName
      && p.fullName == FullName(data.value.firstName, data.value.lastName)
      && p.email == data.value.email && p.mobile == data.value.mobileNumber
      && p.contactLine == ContactLine(data.value.email, data.value.mobileNumber)
      && p.gender == Capitalized(data.value.gender)
      && p.status == StatusLabel(data.value.status)
      && p.course == Capitalized(data.value.courses)
      && p.languages == LanguagesLine(data.value.lang)
      && p.skills == Section(data.value.skills)
      && p.experiences == Section(data.value.experiences))
  {
    match data
    case None => Redirect("/")
    case Some(r) =>
      var name := FullName(r.firstName, r.lastName);
      Sheet(name, ContactLine(r.email, r.mobileNumber), name, r.email, r.mobileNumber,
        Capitalized(r.gender), StatusLabel(r.status), Capitalized(r.courses),
        LanguagesLine(r.lang), Section(r.skills), Section(r.experiences))
  }
}
