/** The state of the Contact page component and its event handlers. Each
    piece of React state (`formData`, `error`, `contacts`, `page`,
    `rowsPerPage`) is a field; each handler is a method that assigns the
    fields its setters update. The clock (`Date.now()`, `new Date()`) and
    the answer of the confirmation dialog are parameters. */
module ContactPage {
  import opened JsBuiltins
  import opened ContactRecord
  import opened ContactValidation

  /** One `if` block of validateForm: when the rule of field `f` fails, its
      message is stored under `f` and `isValid` is cleared; otherwise both
      are left as they are. */
  method ValidateField(d: Record, f: Field, newErrors: map<Field, Message>, isValid: bool)
    returns (errors: map<Field, Message>, valid: bool)
    ensures errors == Put(newErrors, f, Rule(d, f))
    ensures valid <==> isValid && Rule(d, f).None?
  {
    errors, valid := newErrors, isValid;
    var outcome := Rule(d, f);
    if outcome.Some? {
      errors := errors[f := outcome.value];
      valid := false;
    }
  }

  class ContactForm {
    var formData: Record
    var error: map<Field, Message>
    var contacts: seq<Record>
    var page: nat
    var rowsPerPage: nat

    /** The initial state: the default draft, no errors, no contacts, the
        first page of five rows. */
    constructor (now: int)
      ensures formData == EmptyDraft(now) && error == map[]
      ensures contacts == [] && page == 0 && rowsPerPage == 5
    {
      formData := EmptyDraft(now);
      error := map[];
      contacts := [];
      page := 0;
      rowsPerPage := 5;
    }

    /** validateForm: runs every field rule in order, collects the messages
        in `newErrors`, stores them as the error state and returns whether
        no rule failed. */
    method ValidateForm() returns (isValid: bool)
      modifies this`error
      ensures error == FormErrors(formData)
      ensures isValid <==> error == map[]
    {
      var d := formData;
      var newErrors: map<Field, Message> := map[];
      isValid := true;
      newErrors, isValid := ValidateField(d, FirstName, newErrors, isValid);
      newErrors, isValid := ValidateField(d, LastName, newErrors, isValid);
      newErrors, isValid := ValidateField(d, Email, newErrors, isValid);
      newErrors, isValid := ValidateField(d, MobileNumber, newErrors, isValid);
      newErrors, isValid := ValidateField(d, Gender, newErrors, isValid);
      newErrors, isValid := ValidateField(d, Lang, newErrors, isValid);
      newErrors, isValid := ValidateField(d, Date, newErrors, isValid);
      newErrors, isValid := ValidateField(d, Address, newErrors, isValid);
      newErrors, isValid := ValidateField(d, Status, newErrors, isValid);
      newErrors, isValid := ValidateField(d, Courses, newErrors, isValid);
      BuiltErrorsAreFormErrors(d);
      NoErrorsIffAllPass(d);
      error := newErrors;
    }

    /** resetForm: the default draft (dated `now`) and no errors. */
    method ResetForm(now: int)
      modifies this`formData, this`error
      ensures formData == EmptyDraft(now) && error == map[]
    {
      formData := EmptyDraft(now);
      error := map[];
    }

    /** handleFormSubmission. An invalid draft stays as it is, with its
        errors shown, and the list is untouched. A valid draft with an id
        replaces every record with that id; a valid draft without one is
        appended with the id `now.toString()`. After a save the form is
        reset. */
    method HandleFormSubmission(now: nat)
      modifies this`formData, this`error, this`contacts
      ensures var valid := FormErrors(old(formData)) == map[];
        && (!valid ==> formData == old(formData) && error == FormErrors(old(formData))
                       && contacts == old(contacts))
        && (valid ==> formData == EmptyDraft(now) && error == map[])
        && (valid && old(formData).id != "" ==>
              contacts == ReplaceById(old(contacts), old(formData).id, old(formData)))
        && (valid && old(formData).id == "" ==>
              contacts == old(contacts) + [old(formData).(id := NatToString(now))])
    {
      var ok := ValidateForm();
      if ok {
        if formData.id != "" {
          contacts := ReplaceById(contacts, formData.id, formData);
        } else {
          var newContact := formData.(id := NatToString(now));
          contacts := contacts + [newContact];
        }
        ResetForm(now);
      }
    }

    /** handleEdit: loads a saved record into the draft. `new Date(x)`
        copies the time value, and `new Date(null)` is the epoch. The error
        state is left as it is. */
    method HandleEdit(contact: Record)
      modifies this`formData
      ensures formData == contact.(date := Some(match contact.date case Some(t) => t case None => 0))
    {
      var t := match contact.date case Some(t) => t case None => 0;
      formData := contact.(date := Some(t));
    }

    /** handleDelete: when the user confirms, every record with the id is
        removed; otherwise nothing changes. */
    method HandleDelete(id: string, confirmed: bool)
      modifies this`contacts
      ensures contacts == if confirmed then RemoveById(old(contacts), id) else old(contacts)
    {
      if confirmed {
        contacts := RemoveById(contacts, id);
      }
    }

    /** handleChangePage. */
    method HandleChangePage(newPage: nat)
      modifies this`page
      ensures page == newPage
    {
      page := newPage;
    }

    /** handleChangeRowsPerPage: the new page size, and back to the first
        page. */
    method HandleChangeRowsPerPage(rows: nat)
      modifies this`rowsPerPage, this`page
      ensures rowsPerPage == rows && page == 0
    {
      rowsPerPage := rows;
      page := 0;
    }

    /** handleChange for an input reporting a string: the named field of the
        draft takes the value, and its error entry is deleted when it holds
        a message (an entry holding "" is falsy in JavaScript and stays). */
    method HandleChange(name: Field, value: string)
      requires IsTextField(name)
      modifies this`formData, this`error
      ensures formData == WithText(old(formData), name, value)
      ensures error == if name in old(error) && old(error)[name] != Cleared
                       then old(error) - {name} else old(error)
      ensures name in error ==> error[name] == Cleared
    {
      if name in error && error[name] != Cleared {
        error := error - {name};
      }
      formData := WithText(formData, name, value);
    }

    /** The date picker's onChange: the draft takes the new date (None when
        the picker is cleared); the error state is not touched. */
    method SetDate(value: Option<int>)
      modifies this`formData
      ensures formData == old(formData).(date := value)
    {
      formData := formData.(date := value);
    }

    /** handleCheckBox: the language list with `name` added (if absent) or
        removed (every occurrence); a shown language error is blanked once
        the list is non-empty. */
    method HandleCheckBox(name: string, checked: bool)
      modifies this`formData, this`error
      ensures formData == old(formData).(lang := ToggleLang(old(formData).lang, name, checked))
      ensures error == if Lang in old(error) && old(error)[Lang] != Cleared && |formData.lang| > 0
                       then old(error)[Lang := Cleared] else old(error)
      ensures NoDuplicates(old(formData).lang) ==> NoDuplicates(formData.lang)
    {
      var updatedLang := formData.lang;
      if checked {
        if name !in updatedLang {
          updatedLang := updatedLang + [name];
        }
      } else {
        updatedLang := Filter(updatedLang, (x: string) => x != name);
      }
      formData := formData.(lang := updatedLang);
      if Lang in error && error[Lang] != Cleared && |updatedLang| > 0 {
        error := error[Lang := Cleared];
      }
    }

    /** The rows the table shows: the window of the current page, clipped
        to the list. */
    function VisibleRows(): (rows: seq<Record>)
      reads this
      ensures |rows| <= rowsPerPage
      ensures |rows| == if |contacts| <= page * rowsPerPage then 0
                        else Min(rowsPerPage, |contacts| - page * rowsPerPage)
      ensures |rows| > 0 ==> page * rowsPerPage + |rows| <= |contacts|
      ensures forall i :: 0 <= i < |rows| ==> rows[i] == contacts[page * rowsPerPage + i]
    {
      PageRows(contacts, page, rowsPerPage)
    }
  }
}
