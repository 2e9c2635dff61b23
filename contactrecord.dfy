/** The contact record of the Contact page and the list operations its
    handlers perform on the draft and on the list of saved records. */
module ContactRecord {
  import opened JsBuiltins

  /** One contact, and also the shape of the form's draft (`formData`).
      `id` is "" for a draft that has not been saved. `date` is the time value
      of the date-of-birth Date object in milliseconds, None when the picker
      was cleared (null). */
  datatype Record = Record(
    id: string,
    firstName: string,
    lastName: string,
    email: string,
    mobileNumber: string,
    gender: string,
    lang: seq<string>,
    date: Option<int>,
    address: string,
    status: string,
    courses: string)

  /** The keys of the error map: one per validated form field. */
  datatype Field =
    | FirstName | LastName | Email | MobileNumber | Gender
    | Lang | Date | Address | Status | Courses

  /** The draft the page starts with and returns to after a save; `now` is
      the clock reading behind `new Date()`. */
  function EmptyDraft(now: int): Record {
    Record("", "", "", "", "", "", [], Some(now), "", "college", "engineering")
  }

  // ---------------------------------------------------------------------
  // Text fields of the draft (the inputs wired to handleChange)
  // ---------------------------------------------------------------------

  /** The fields whose input reports a string value through handleChange:
      the text boxes, the gender radio group and the two selects. */
  predicate IsTextField(f: Field) {
    !f.Lang? && !f.Date?
  }

  function TextOf(d: Record, f: Field): string
    requires IsTextField(f)
  {
    match f
    case FirstName => d.firstName
    case LastName => d.lastName
    case Email => d.email
    case MobileNumber => d.mobileNumber
    case Gender => d.gender
    case Address => d.address
    case Status => d.status
    case Courses => d.courses
  }

  /** `{ ...d, [name]: value }` for a text field. */
  function WithText(d: Record, f: Field, v: string): (r: Record)
    requires IsTextField(f)
    ensures TextOf(r, f) == v
    ensures forall g :: IsTextField(g) && g != f ==> TextOf(r, g) == TextOf(d, g)
    ensures r.id == d.id && r.lang == d.lang && r.date == d.date
  {
    match f
    case FirstName => d.(firstName := v)
    case LastName => d.(lastName := v)
    case Email => d.(email := v)
    case MobileNumber => d.(mobileNumber := v)
    case Gender => d.(gender := v)
    case Address => d.(address := v)
    case Status => d.(status := v)
    case Courses => d.(courses := v)
  }

  /** Writing back the value a field already holds changes nothing. */
  lemma WithTextOwnValue(d: Record, f: Field)
    requires IsTextField(f)
    ensures WithText(d, f, TextOf(d, f)) == d
  {
  }

  /** Of two writes to the same field, the later one wins. */
  lemma WithTextTwice(d: Record, f: Field, v: string, w: string)
    requires IsTextField(f)
    ensures WithText(WithText(d, f, v), f, w) == WithText(d, f, w)
  {
  }

  // ---------------------------------------------------------------------
  // The language checkboxes
  // ---------------------------------------------------------------------

  /** The new `lang` list of handleCheckBox: checking appends the language
      when it is absent, unchecking removes every occurrence. */
  function ToggleLang(lang: seq<string>, name: string, checked: bool): (r: seq<string>)
    ensures name in r <==> checked
    ensures forall x :: x != name ==> (x in r <==> x in lang)
    ensures NoDuplicates(lang) ==> NoDuplicates(r)
  {
    if checked then
      if name in lang then lang else lang + [name]
    else
      var r := Filter(lang, (x: string) => x != name);
      assert NoDuplicates(lang) ==> NoDuplicates(r) by {
        if NoDuplicates(lang) {
          FilterNoDuplicates(lang, (x: string) => x != name);
        }
      }
      r
  }

  /** Checking keeps the list and its order, adding the language at the end
      when it was missing; unchecking keeps the others in their order and as
      often as they occurred. */
  lemma ToggleLangOrder(lang: seq<string>, name: string)
    ensures ToggleLang(lang, name, true) == if name in lang then lang else lang + [name]
    ensures IsSubsequence(ToggleLang(lang, name, false), lang)
    ensures forall x :: (multiset(ToggleLang(lang, name, false))[x]
      == if x == name then 0 else multiset(lang)[x])
  {
    var keep := (x: string) => x != name;
    FilterIsSubsequence(lang, keep);
    forall x ensures multiset(ToggleLang(lang, name, false))[x]
      == if x == name then 0 else multiset(lang)[x]
    {
      FilterCount(lang, keep, x);
    }
  }

  /** Repeating the same checkbox event changes nothing more. */
  lemma {:induction false} ToggleLangIdempotent(lang: seq<string>, name: string, checked: bool)
    ensures ToggleLang(ToggleLang(lang, name, checked), name, checked) == ToggleLang(lang, name, checked)
  {
    if !checked {
      FilterIdempotent(lang, (x: string) => x != name);
    }
  }

  /** Checking a language that is absent, then unchecking it, gives back
      the list unchanged. */
  lemma CheckThenUncheck(lang: seq<string>, name: string)
    requires name !in lang
    ensures ToggleLang(ToggleLang(lang, name, true), name, false) == lang
  {
    var added := lang + [name];
    var keep := (x: string) => x != name;
    assert Filter(added, keep) == Filter(lang, keep) + Filter([name], keep) by {
      FilterConcat(lang, [name], keep);
    }
    assert Filter([name], keep) == [];
    FilterKeepsAll(lang, keep);
  }

  // ---------------------------------------------------------------------
  // The list of saved contacts
  // ---------------------------------------------------------------------

  /** `contacts.filter(contact => contact.id !== id)`. */
  function RemoveById(cs: seq<Record>, id: string): (r: seq<Record>)
    ensures forall c :: c in r <==> c in cs && c.id != id
  {
    Filter(cs, (c: Record) => c.id != id)
  }

  /** Deleting keeps every other record as often as before and in its
      relative order. */
  lemma RemoveByIdKeepsRest(cs: seq<Record>, id: string, c: Record)
    ensures IsSubsequence(RemoveById(cs, id), cs)
    ensures multiset(RemoveById(cs, id))[c] == if c.id == id then 0 else multiset(cs)[c]
  {
    FilterIsSubsequence(cs, (c: Record) => c.id != id);
    FilterCount(cs, (c: Record) => c.id != id, c);
  }

  /** Deleting the same id twice is deleting it once. */
  lemma RemoveByIdIdempotent(cs: seq<Record>, id: string)
    ensures RemoveById(RemoveById(cs, id), id) == RemoveById(cs, id)
  {
    FilterIdempotent(cs, (c: Record) => c.id != id);
  }

  /** Deleting an id that no record has leaves the list unchanged. */
  lemma RemoveUnknownId(cs: seq<Record>, id: string)
    requires forall i :: 0 <= i < |cs| ==> cs[i].id != id
    ensures RemoveById(cs, id) == cs
  {
    FilterKeepsAll(cs, (c: Record) => c.id != id);
  }

  /** `contacts.map(contact => contact.id === id ? rec : contact)`: each
      record with the id is replaced by `rec`, every other one is kept, at
      its position. */
  function ReplaceById(cs: seq<Record>, id: string, rec: Record): (r: seq<Record>)
    ensures |r| == |cs|
    ensures forall i :: 0 <= i < |cs| ==> r[i] == if cs[i].id == id then rec else cs[i]
  {
    if cs == [] then []
    else [if cs[0].id == id then rec else cs[0]] + ReplaceById(cs[1..], id, rec)
  }

  /** Updating an id that no record has leaves the list unchanged. */
  lemma ReplaceUnknownId(cs: seq<Record>, id: string, rec: Record)
    requires forall i :: 0 <= i < |cs| ==> cs[i].id != id
    ensures ReplaceById(cs, id, rec) == cs
  {
  }

  /** When the new record keeps the id, updating again changes nothing
      more, and the sequence of ids is the same as before. */
  lemma ReplaceKeepingId(cs: seq<Record>, rec: Record, i: int)
    requires 0 <= i < |cs|
    ensures var r := ReplaceById(cs, rec.id, rec);
      r[i].id == cs[i].id && ReplaceById(r, rec.id, rec) == r
  {
  }

  // ---------------------------------------------------------------------
  // Pagination of the table
  // ---------------------------------------------------------------------

  /** `contacts.slice(page * rowsPerPage, page * rowsPerPage + rowsPerPage)`. */
  function PageRows(cs: seq<Record>, page: nat, rowsPerPage: nat): (r: seq<Record>)
    ensures |r| <= rowsPerPage
    ensures |r| == if |cs| <= page * rowsPerPage then 0 else Min(rowsPerPage, |cs| - page * rowsPerPage)
    ensures forall i :: 0 <= i < |r| ==> r[i] == cs[page * rowsPerPage + i]
  {
    Slice(cs, page * rowsPerPage, page * rowsPerPage + rowsPerPage)
  }

  /** Record `i` is shown on page `i / rowsPerPage`, as row
      `i % rowsPerPage`. */
  lemma RecordOnItsPage(cs: seq<Record>, rowsPerPage: nat, i: nat)
    requires rowsPerPage > 0 && i < |cs|
    ensures var rows := PageRows(cs, i / rowsPerPage, rowsPerPage);
      i % rowsPerPage < |rows| && rows[i % rowsPerPage] == cs[i]
  {
    var p := i / rowsPerPage;
    assert p * rowsPerPage + i % rowsPerPage == i;
    assert p * rowsPerPage <= i;
  }

  /** No other page shows it: row `j` of page `p` is record
      `p * rowsPerPage + j`, whose page is `p` and whose row is `j`. So
      every record is shown on exactly one page. */
  lemma OnlyOnItsPage(cs: seq<Record>, rowsPerPage: nat, p: nat, j: nat)
    requires rowsPerPage > 0 && j < |PageRows(cs, p, rowsPerPage)|
    ensures var i := p * rowsPerPage + j;
      i < |cs| && p == i / rowsPerPage && j == i % rowsPerPage
  {
    DivModUnique(p * rowsPerPage + j, rowsPerPage, p, j);
  }

  /** Division with remainder has one answer: when `i == q * n + m` with
      `0 <= m < n`, the quotient is `q` and the remainder `m`. */
  lemma DivModUnique(i: int, n: int, q: int, m: int)
    requires n > 0 && 0 <= m < n && i == q * n + m
    ensures i / n == q && i % n == m
  {
    var q', m' := i / n, i % n;
    assert (q' - q) * n == q' * n - q * n == m - m';
    MultipleSign(q' - q, n);
  }

  /** A non-zero multiple of `n` is at least `n` away from zero. */
  lemma MultipleSign(d: int, n: int)
    requires n > 0
    ensures d >= 1 ==> d * n >= n
    ensures d <= -1 ==> d * n <= -n
  {
    assert d * n == (d - 1) * n + n && d * n == (d + 1) * n - n;
    assert d >= 1 ==> (d - 1) * n >= 0;
    assert d <= -1 ==> (d + 1) * n <= 0;
  }
}
