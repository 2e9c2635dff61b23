# Contact form and resume view, modelled in Dafny

This project models the two pages of the blog that hold logic.

- The **Contact page** (`src/Pages/Contact.jsx`) keeps a draft contact, validates it field by field, and maintains the list of saved contacts. Its operations are add, update and delete. It also pages through the table of saved contacts.
- The **Resume page** (`src/Pages/Resume.jsx`) projects one resume record onto the lines it displays. With no record, it redirects to the home page.

The Contact page's state is modelled as the class `ContactPage.ContactForm`. Its fields are `formData`, `error`, `contacts`, `page` and `rowsPerPage`. Every handler is a method with a `modifies` clause, and each method's `ensures` gives the full new state in terms of specification functions. The lemmas prove properties of those functions:

- validation returns true exactly when no error is recorded, and each failing rule records only its own field;
- add, update and delete keep the rest of the list intact;
- the language list stays duplicate-free;
- every record appears on exactly one page.

The Resume page is pure, so it is modelled as functions and lemmas.

Modules, one per file:

- `JsBuiltins` (`jsbuiltins.dfy`) models the JavaScript built-ins the pages rely on:
  - `trim` with the ECMAScript whitespace set;
  - `length` in UTF-16 code units;
  - ASCII `toUpperCase`;
  - `Number.prototype.toString` for the non-negative integers `Date.now()` returns, which all lie below 10^21, the bound under which JavaScript prints plain decimal digits;
  - `join`, `filter` and `slice`.

  It also defines two functions that the pages do not call; the model uses them as tools. `SplitCommaSpace` is `split(", ")`; it undoes the languages line's `join(', ')`. `IndexOf` is `indexOf` for one character. It finds the `@` in the executable form of the email pattern, and it splits the full name at its first space.
- `ContactRecord` (`contactrecord.dfy`) holds the contact record, the field keys, the default draft, and the list operations the handlers apply (add, update, delete, language toggle, page window).
- `ContactValidation` (`contactvalidation.dfy`) holds the ten field rules of `validateForm`, the error map they build, and how that map relates to a rule-independent statement of what a valid draft is.
- `ContactPage` (`contactpage.dfy`) holds the component state and its handlers. The clock (`Date.now()`, `new Date()`) and the answer of `window.confirm` are method parameters.
- `Resume` (`resume.dfy`) holds the resume projection.

Where the design description and the code disagree, the model follows the code:

- Validation only checks that a date is present. The "not in the future" bound exists only as the date picker's `maxDate`.
- Typing in a field deletes that field's error only when the error is truthy. An error entry that holds `""` stays.
- The gender values the form offers are `male`, `female` and `others`.

## Model

| member | source | states |
|---|---|---|
| JsBuiltins.TrimStart | src/Pages/Contact.jsx:89 | the result is a suffix of the input that is empty or starts with a non-whitespace character |
| JsBuiltins.TrimStartDrops | src/Pages/Contact.jsx:89 | everything TrimStart drops is whitespace |
| JsBuiltins.TrimEnd | src/Pages/Contact.jsx:89 | the result is a prefix of the input that is empty or ends with a non-whitespace character |
| JsBuiltins.TrimEndDrops | src/Pages/Contact.jsx:89 | everything TrimEnd drops is whitespace |
| JsBuiltins.Trim | src/Pages/Contact.jsx:89 | `trim()` gives "" exactly when the input is all whitespace; otherwise the result, no longer than the input, starts and ends with non-whitespace |
| JsBuiltins.TrimIsMiddle | src/Pages/Contact.jsx:89 | the trimmed value is the slice of the input that starts at the first character TrimStart keeps |
| JsBuiltins.TrimDropsWhitespace | src/Pages/Contact.jsx:89 | every character before and after that slice is whitespace |
| JsBuiltins.TrimIdempotent | src/Pages/Contact.jsx:142-145 | trimming a trimmed value changes nothing |
| JsBuiltins.JsLength | src/Pages/Contact.jsx:92 | `.length` is at least the number of code points and at most twice that, and equals it when no character needs a surrogate pair |
| JsBuiltins.ToUpperAscii | src/Pages/Resume.jsx:67 | lower-case ASCII letters map to their upper-case letter; every other character is unchanged |
| JsBuiltins.DigitChar | src/Pages/Contact.jsx:179 | a digit in 0..9 maps to its ASCII digit character |
| JsBuiltins.NatToString | src/Pages/Contact.jsx:179 | `Date.now().toString()` is a non-empty string of ASCII digits, with no leading zero unless the value is 0 |
| JsBuiltins.DecimalValueOfNatToString | src/Pages/Contact.jsx:179 | reading the decimal string back gives the number |
| JsBuiltins.NatToStringInjective | src/Pages/Contact.jsx:179 | different clock readings give different ids |
| JsBuiltins.Join | src/Pages/Resume.jsx:102 | joining no entries gives "", and joining one entry gives that entry |
| JsBuiltins.JoinSplit | src/Pages/Resume.jsx:102 | `split(", ")` followed by `join(', ')` gives any string back, so the split used below is the exact inverse of this join's separator |
| JsBuiltins.SplitJoin | src/Pages/Resume.jsx:102 | splitting the `join(', ')` of comma-free entries at ", " gives the entries back, in order |
| JsBuiltins.Filter | src/Pages/Contact.jsx:295 | `filter` keeps exactly the elements that pass the test |
| JsBuiltins.FilterCount | src/Pages/Contact.jsx:220 | a kept element occurs as often as before, and a dropped one not at all |
| JsBuiltins.FilterIsSubsequence | src/Pages/Contact.jsx:220 | the kept elements stay in their relative order |
| JsBuiltins.FilterConcat | src/Pages/Contact.jsx:295 | filtering a concatenation filters each part |
| JsBuiltins.FilterIdempotent | src/Pages/Contact.jsx:220 | filtering twice with the same test is filtering once |
| JsBuiltins.FilterKeepsAll | src/Pages/Contact.jsx:220 | when every element passes, the list is unchanged |
| JsBuiltins.FilterNoDuplicates | src/Pages/Contact.jsx:295 | filtering a duplicate-free list gives a duplicate-free list |
| JsBuiltins.Slice | src/Pages/Contact.jsx:587 | `slice(start, end)` is the window clipped to the list: its length is given, and row `i` is element `start + i` |
| ContactRecord.WithText | src/Pages/Contact.jsx:260-263 | the named field takes the value; every other text field, the id, the languages and the date are unchanged |
| ContactRecord.WithTextOwnValue | src/Pages/Contact.jsx:260-263 | writing back a field's own value leaves the draft unchanged |
| ContactRecord.WithTextTwice | src/Pages/Contact.jsx:260-263 | of two writes to one field, the later wins |
| ContactRecord.ToggleLang | src/Pages/Contact.jsx:286-296 | after the toggle, the language is in the list exactly when it was checked; every other language is in it exactly when it was before; a duplicate-free list stays duplicate-free |
| ContactRecord.ToggleLangOrder | src/Pages/Contact.jsx:288-296 | checking keeps the list and appends only a missing language; unchecking keeps the others in their order and as often as they occurred, and removes every occurrence of the language |
| ContactRecord.ToggleLangIdempotent | src/Pages/Contact.jsx:286-296 | repeating the same checkbox event changes nothing more |
| ContactRecord.CheckThenUncheck | src/Pages/Contact.jsx:286-296 | checking an absent language and then unchecking it gives back the original list |
| ContactRecord.RemoveById | src/Pages/Contact.jsx:220 | a record remains exactly when it was present and has a different id |
| ContactRecord.RemoveByIdKeepsRest | src/Pages/Contact.jsx:220 | the rest keep their order and their number of occurrences; no record with the id remains |
| ContactRecord.RemoveByIdIdempotent | src/Pages/Contact.jsx:220 | deleting the same id twice is deleting it once |
| ContactRecord.RemoveUnknownId | src/Pages/Contact.jsx:220 | deleting an id that no record has leaves the list unchanged |
| ContactRecord.ReplaceById | src/Pages/Contact.jsx:172-174 | the length is kept; at each position, a record with the id becomes the draft and any other record is kept |
| ContactRecord.ReplaceUnknownId | src/Pages/Contact.jsx:172-174 | updating an id that no record has leaves the list unchanged |
| ContactRecord.ReplaceKeepingId | src/Pages/Contact.jsx:172-174 | the ids at every position are kept, and updating again changes nothing |
| ContactRecord.PageRows | src/Pages/Contact.jsx:587 | the visible page holds at most `rowsPerPage` rows, its exact length is given, and row `i` is contact `page * rowsPerPage + i` |
| ContactRecord.RecordOnItsPage | src/Pages/Contact.jsx:587 | every contact `i` is row `i % rowsPerPage` of page `i / rowsPerPage` |
| ContactRecord.OnlyOnItsPage | src/Pages/Contact.jsx:587 | row `j` of page `p` is contact `p * rowsPerPage + j`, whose page is `p` and whose row is `j`; so no other page shows a contact |
| ContactValidation.Text | src/Pages/Contact.jsx:90-158 | the displayed error text is "" (falsy) only for the blanked entry; every message of validateForm is non-empty |
| ContactValidation.IsEmailMatchesPattern | src/Pages/Contact.jsx:104 | the executable email check holds exactly when the value matches `^[^\s@]+@[^\s@]+\.[^\s@]+$`, read as three runs of non-space, non-`@` characters joined by `@` and `.` |
| ContactValidation.IsEmailSound | src/Pages/Contact.jsx:104 | a value the check accepts matches the pattern |
| ContactValidation.IsEmailComplete | src/Pages/Contact.jsx:104 | a value that matches the pattern is accepted by the check |
| ContactValidation.FormErrorsAt | src/Pages/Contact.jsx:84-160 | a field has an entry in the error map exactly when its rule fails, and the entry is that rule's message |
| ContactValidation.ChainAt | src/Pages/Contact.jsx:85-160 | writing the ten outcomes in order puts each outcome under its own field, and no later write overwrites an earlier one |
| ContactValidation.BuiltErrorsAt | src/Pages/Contact.jsx:85-160 | in the `newErrors` object built block by block, each field holds exactly its own rule's message |
| ContactValidation.BuiltErrorsAreFormErrors | src/Pages/Contact.jsx:85-162 | the `newErrors` object built block by block is the map of every failing rule's message |
| ContactValidation.PutAt | src/Pages/Contact.jsx:90 | one `newErrors.x = ...` assignment changes only the entry of its own field |
| ContactValidation.NoErrorsIffAllPass | src/Pages/Contact.jsx:86-163 | the error map is empty exactly when every rule passes |
| ContactValidation.ErrorKeyIffFieldFails | src/Pages/Contact.jsx:84-160 | a field is a key of the error map exactly when it fails the requirement stated without the rules (non-blank, length, email pattern, ten digits, chosen, non-empty, present) |
| ContactValidation.ErrorsEmptyIffValid | src/Pages/Contact.jsx:84-164 | the error map is empty exactly when the draft meets every field requirement |
| ContactValidation.FirstNameMessages | src/Pages/Contact.jsx:89-95 | an all-blank first name gives "required"; a non-blank one shorter than 2 code units, counted before trimming, gives "too short" |
| ContactValidation.AddressMessages | src/Pages/Contact.jsx:142-148 | an all-blank address gives "required"; a non-blank one whose trimmed length is below 10 gives "too short" |
| ContactValidation.PaddedFirstNamePasses | src/Pages/Contact.jsx:89-95 | " a" passes the first-name rule, though it trims to one character |
| ContactValidation.PaddedAddressTooShort | src/Pages/Contact.jsx:142-148 | " 123456789 " has length 11 but fails the address rule as too short |
| ContactValidation.PaddedAddressTrims | src/Pages/Contact.jsx:145 | trimming " 123456789 " gives "123456789" |
| ContactValidation.PaddedAddressLengths | src/Pages/Contact.jsx:145 | the padded address has length 11 and its trimmed form 9 |
| ContactValidation.EmailAndMobileMessages | src/Pages/Contact.jsx:104-121 | an empty email or mobile number gives "required"; a non-empty value that fails the email pattern, or is not exactly ten ASCII digits, gives "invalid" |
| ContactValidation.EmptyDraftRule | src/Pages/Contact.jsx:43-55 | on the default draft, exactly the blank fields fail, each with its "required" message |
| ContactValidation.EmptyDraftErrors | src/Pages/Contact.jsx:43-55 | submitting the default draft shows exactly the seven "required" messages; status, course and date are pre-filled |
| ContactPage.ValidateField | src/Pages/Contact.jsx:89-91 | one validation block writes its rule's message under its field and clears `isValid` exactly when the rule fails |
| ContactPage.ContactForm.constructor | src/Pages/Contact.jsx:43-68 | the initial state: the default draft, no errors, no contacts, page 0 of 5 rows |
| ContactPage.ContactForm.ValidateForm | src/Pages/Contact.jsx:84-164 | the stored error map is the map of every failing rule's message, and the result is true exactly when that map is empty |
| ContactPage.ContactForm.ResetForm | src/Pages/Contact.jsx:191-206 | the draft becomes the default draft dated by the clock, and the errors are cleared |
| ContactPage.ContactForm.HandleFormSubmission | src/Pages/Contact.jsx:167-188 | an invalid draft leaves the draft and list as they are and shows its errors; a valid draft with an id replaces the records with that id, one without an id is appended with the clock's decimal string as id; after a save the form is reset |
| ContactPage.ContactForm.HandleEdit | src/Pages/Contact.jsx:209-215 | the draft becomes the record, with the record's date, or the epoch when it has none |
| ContactPage.ContactForm.HandleDelete | src/Pages/Contact.jsx:218-222 | when confirmed, every record with the id is removed; when declined, nothing changes |
| ContactPage.ContactForm.HandleChangePage | src/Pages/Contact.jsx:237-239 | the page becomes the requested one |
| ContactPage.ContactForm.HandleChangeRowsPerPage | src/Pages/Contact.jsx:242-245 | the page size becomes the chosen one and the page goes back to 0 |
| ContactPage.ContactForm.HandleChange | src/Pages/Contact.jsx:248-264 | only the named draft field changes; only that field's error entry is deleted, and only when it holds a message |
| ContactPage.ContactForm.SetDate | src/Pages/Contact.jsx:463-468 | only the draft's date changes, and the errors are untouched |
| ContactPage.ContactForm.HandleCheckBox | src/Pages/Contact.jsx:284-310 | only the draft's languages change, by the toggle; a shown language error is blanked when the new list is non-empty; a duplicate-free list stays duplicate-free |
| ContactPage.ContactForm.VisibleRows | src/Pages/Contact.jsx:587 | the table shows `rowsPerPage` rows, or the fewer contacts left from `page * rowsPerPage` on, or none past the end; row `i` is contact `page * rowsPerPage + i` |
| Resume.FullName | src/Pages/Resume.jsx:39 | the heading is the first name, one space, the last name |
| Resume.FullNameSplits | src/Pages/Resume.jsx:55 | when the first name has no space, the full name splits at its first space into the two names |
| Resume.ContactLine | src/Pages/Resume.jsx:42 | the contact line is the email, " \| ", the mobile number |
| Resume.UpperFirst | src/Pages/Resume.jsx:67 | the length is kept; a lower-case ASCII first letter becomes its own upper-case letter with the rest unchanged; any other value is unchanged |
| Resume.UpperFirstIdempotent | src/Pages/Resume.jsx:67 | capitalising twice is capitalising once |
| Resume.UpperFirstKeepsLength | src/Pages/Resume.jsx:95 | capitalising keeps the JavaScript length |
| Resume.Capitalized | src/Pages/Resume.jsx:95 | the line is "" exactly when the value is absent or empty; otherwise it is the capitalised value |
| Resume.FormOptionLabels | src/Pages/Resume.jsx:67 | the form's values male, female, others, engineering, arts and poly display as Male, Female, Others, Engineering, Arts and Poly |
| Resume.StatusLabel | src/Pages/Resume.jsx:86-88 | 'school' maps to "School" and 'college' to "College"; every other value, and only those, maps to "Working Professional" |
| Resume.LanguagesLine | src/Pages/Resume.jsx:98-105 | the languages line is shown exactly when the list is present and non-empty; it is then the `", "` join of the list, whatever the entries hold, and a single language is shown as itself |
| Resume.LanguagesLineLists | src/Pages/Resume.jsx:102 | the line is the `", "` join of the list, and splitting it gives the list back in order |
| Resume.Section | src/Pages/Resume.jsx:106-123 | a section is shown exactly when its value is truthy, and it shows the value unchanged |
| Resume.Present | src/Pages/Resume.jsx:23-62 | no data redirects to "/"; otherwise each line of the sheet, including the Email and Mobile items, is its projection of the data, and the heading equals the full name |

## Left out

- Persistence: the `localStorage` load and save effects (`src/Pages/Contact.jsx:71-81`) are browser I/O with `JSON.parse`/`JSON.stringify`. The model keeps the list in memory only.
- The dialog's `open` state and its handlers `handleClickOpen` and `handleClose` (`src/Pages/Contact.jsx:225-234`). They only show or hide the form, apart from calling `resetForm`, which is modelled.
- `handleRadioChange` (`src/Pages/Contact.jsx:267-281`) is never attached to an input. The gender radio group reports through `handleChange`, which is modelled.
- `window.confirm` is a parameter of `HandleDelete`. `Date.now()` and `new Date()` are the parameter `now`. `window.print`, `window.location` and `navigate(-1)` are browser calls and are not modelled; the redirect is modelled as the `Redirect("/")` outcome.
- ContactPage.ContactForm.HandleFormSubmission: one clock reading is used for both the new id and the reset draft's date. The model makes no uniqueness promise for ids, because two saves in the same millisecond get the same id, exactly as in the code.
- ContactPage.ContactForm.HandleChangeRowsPerPage: the value is taken as the already parsed number. `parseInt` of the select's value is not modelled; the select offers only 5, 10 and 25.
- ContactPage.ContactForm.HandleChange: requires a field that handleChange serves in the page (text boxes, gender radios, the status and course selects). The date picker and the language checkboxes have their own handlers, `SetDate` and `HandleCheckBox`. The `type === 'checkbox'` branch is never reached from handleChange's inputs.
- ContactPage.ContactForm.HandleEdit: dates are time values in milliseconds. Date objects, invalid dates, `toLocaleDateString` and the date of birth line of the resume (`src/Pages/Resume.jsx:73`) are not modelled.
- ContactValidation.Text: the error map holds `Message` values. The code holds their strings, and `Text` gives each constructor's exact string.
- JsBuiltins.NatToString: gives plain decimal digits for every non-negative integer. JavaScript writes plain digits only below 10^21 and switches to exponent notation from there on. `Date.now()` stays below 8.64 × 10^15, the largest time value, so the ids and the display of dates never reach that bound.
- Resume.UpperFirst: `toUpperCase` is modelled for ASCII letters only. Other letters (accented, Greek, …) are left unchanged. A first character that JavaScript stores as a surrogate pair is also left unchanged, as in JavaScript, where `charAt(0)` yields a lone surrogate that `toUpperCase` keeps.
- Resume.FullName: the model takes the first and last names as strings. A record without them would display "undefined" in JavaScript.
- Resume.LanguagesLineLists: the round trip requires that no language name contains a comma. The form's values (`tamil`, `english`, `japanese`) contain none.
- Rendering: all JSX and MUI layout, and the table's empty-state row.
- `src/contexts/ResumeContext.jsx` is not part of this model. The Resume page takes its data as an `Option` parameter. The modelled `Redirect("/")` is the page under a provider that holds no data. The app's entry files mount no `ResumeProvider`, and without one `useResume` throws before the page can redirect; that path is not modelled.
