# netbox-scion: appliance lists, link-assignment cascade and form cleaning, in Dafny

This project models the application logic of the NetBox SCION plugin. The
plugin documents SCION networks. Each ISD-AS (Isolation Domain–Autonomous
System) record owns an ordered list of appliance names. The list is called
`appliances` in the views and `cores` in the forms; both are the same column
here. Each SCION link assignment binds an `interface_id` of an ISD-AS to one
of those appliances through its `core` column.

Modules:

- `Models` (`models.dfy`) holds the stored rows. `IsdAsTable` maps each
  ISD-AS primary key to its appliance column (`None` is a NULL column).
  `LinkAssignment` is an assignment row. `NoDuplicates` states that appliance
  names are unique. `Referenced` states that every assignment names an
  appliance listed on its ISD-AS.
- `Views` (`views.dfy`) models netbox_scion/views.py. The class `Database`
  holds both tables. Its methods `AddAppliance`, `RenameAppliance` and
  `RemoveAppliance` are the three appliance views, and each returns an
  `Outcome` in place of a flash message and redirect. `AddAppliance` and
  `RenameAppliance` model what those two views evidently intend; read
  against netbox_scion/forms.py in this revision they raise (`AddApplianceAsWritten`,
  `RenameApplianceAsWritten`, see "## Findings"). A rename moves the
  assignments on the old name to the new name (`Retarget`). A remove deletes
  the assignments on the name (`DropCore`) and reports how many it deleted
  (`CountCore`). `GetIsdasAppliances` is the AJAX lookup. The class
  `LinkAssignmentEditView` covers "Create & Add Another". It probes upwards
  for the next free interface id in a `while` loop and builds the pre-filled
  add-form URL.
- `Forms` (`forms.dfy`) models netbox_scion/forms.py. It covers
  `clean_cores` and its round trip with the `', '.join` in `ISDAForm.__init__`,
  and how the core dropdown is built in `SCIONLinkAssignmentForm.__init__`
  and `full_clean`. It also covers the Zendesk-ticket check and `clean_core`.
- `Strings` (`strings.dfy`) models the Python builtins the code relies on:
  `str.strip` with Python's whitespace set, `str.split` on one character,
  `sep.join`, and `str(int)` with its inverse `int(str)`.
- `Wrappers` (`wrappers.dfy`) defines `Option`.

The three appliance views are proved to keep a duplicate-free list
duplicate-free. They are also proved to keep `Referenced`: after any of
them, every assignment still names an appliance listed on its ISD-AS.

The form's round trip holds only for names that are stripped, non-empty and
free of commas. The appliance views accept any name. A name `x,y` built
from two core names therefore comes back from the ISD-AS form's hidden field
as the two cores `x` and `y` (`Forms.CommaNameDoesNotRoundTrip`).

## Model

| member | source | states |
|---|---|---|
| `Views.Database.AddAppliance` | netbox_scion/views.py:111-129 | An unknown ISD-AS gives not-found. An absent name is appended at the end and the earlier names are unchanged. A present name gives AlreadyExists and leaves the list as it was. A NULL list reads as empty and is saved as `[name]`. Assignments are untouched. A duplicate-free list stays duplicate-free, and `Referenced` is preserved. |
| `Views.Database.RenameAppliance` | netbox_scion/views.py:141-175 | Nothing changes when the old name is not listed, when the new name equals the old one, or when the new name is taken. Each case has its own outcome. Otherwise the new name replaces the old one at its first index, and every assignment of this ISD-AS on the old name moves to the new one. No duplicates and `Referenced` are preserved. |
| `Views.Database.RemoveAppliance` | netbox_scion/views.py:188-218 | An unlisted name changes neither table. A listed name is removed at its first occurrence and the rest keep their order. Exactly this ISD-AS's assignments on that name are deleted, and the reported count equals the number deleted. From a duplicate-free list the name is gone entirely. `Referenced` is preserved. |
| `Views.AddApplianceAsWritten` | netbox_scion/views.py:111-131 | As written, the add view reaches an outcome only for a missing ISD-AS (not found). For every existing ISD-AS it raises on the undefined form class, so it never adds a name or reports one as present. |
| `Views.RenameApplianceAsWritten` | netbox_scion/views.py:141-177 | As written, the edit view answers only a missing ISD-AS (not found) or an unlisted name (NotFound). For every listed name it raises on the undefined form class, so it never renames. |
| `Views.Database.GetIsdasAppliances` | netbox_scion/views.py:18-44 | The reply has no error exactly when an id was given and the ISD-AS exists, and then it carries that ISD-AS's list, with NULL read as empty. Otherwise it carries the matching error message and an empty list. |
| `Views.IndexOf` | netbox_scion/views.py:160 | `list.index`: the position holds the name and no earlier position does. |
| `Views.RemoveFirst` | netbox_scion/views.py:201 | `list.remove`: the list with its first occurrence of the name cut out and the rest in order. |
| `Views.CountCore` | netbox_scion/views.py:195-198 | The count is at most the table size, and it is zero exactly when no row of the ISD-AS is on the name. |
| `Views.Retarget` | netbox_scion/views.py:166-169 | The bulk update keeps the table length. A row of this ISD-AS on the old name gets the new core, and every other row is unchanged. |
| `Views.DropCore` | netbox_scion/views.py:205-207 | The bulk delete removes exactly the matching rows, so the kept rows number the original minus `CountCore`. With no match the table is unchanged, which is why the source may skip the delete. |
| `Views.DropCoreKeepsOthers` | netbox_scion/views.py:194-207 | Every row that is not this ISD-AS's assignment on the name is kept exactly as often as it occurred, and no matching row is kept. |
| `Views.RetargetMovesCount` | netbox_scion/views.py:165-169 | After a rename no assignment of the ISD-AS is on the old name. The new name's count grows by the old name's count. |
| `Views.RenameKeepsNoDuplicates` | netbox_scion/views.py:155-163 | Replacing a listed name by an unlisted one keeps the list duplicate-free. The new name is then listed and the old one is gone. |
| `Views.RemoveKeepsNoDuplicates` | netbox_scion/views.py:193-203 | Removing a listed name from a duplicate-free list leaves no occurrence of it, keeps the list duplicate-free and shortens it by one. |
| `Views.AddKeepsReferenced` | netbox_scion/views.py:119-124 | Appending a name keeps every assignment's appliance listed. |
| `Views.RenameKeepsReferenced` | netbox_scion/views.py:159-169 | Renaming in the list and moving the assignments together keep every assignment's appliance listed. |
| `Views.RemoveKeepsReferenced` | netbox_scion/views.py:193-207 | Removing the name and deleting its assignments together keep every remaining assignment's appliance listed. |
| `Views.LinkAssignmentEditView.GetExtraAddAnotherParams` | netbox_scion/views.py:238-263 | With no saved object there are no parameters. Otherwise the parameters are the ISD-AS (when set) and then the interface id. The id is at least the previous id + 1, is unused in that ISD-AS, and every id from the previous + 1 up to it is used, so the probe does not fill gaps. The loop terminates because the table is finite. |
| `Views.LinkAssignmentEditView.GetReturnUrl` | netbox_scion/views.py:265-289 | "Create & Add Another" with an object records it as the view's object. It returns the add URL pre-filled with that object's ISD-AS and the next free interface id. Any other case defers to the framework's default. |
| `Views.NextFreeUnique` | netbox_scion/views.py:252-261 | The probed interface id is determined uniquely by the table, the ISD-AS and the previous id. |
| `Views.NextFreeSkipsGaps` | netbox_scion/views.py:252-259 | With ids 1, 2 and 4 in use and 4 just created, the next id is 5, not the gap at 3. |
| `Views.Used` | netbox_scion/views.py:255-258 | The `.exists()` probe holds only for a set ISD-AS that owns a row with that interface id, so a used id is never above the largest id in the table. |
| `Views.AddAnotherParams` | netbox_scion/views.py:243-261 | The `params` dict in insertion order: `isd_as` first when the object has an ISD-AS, then `interface_id` with the probed id, and its keys hold no `&` or `=`. |
| `Views.AddFormUrl` | netbox_scion/views.py:280-286 | Without parameters the URL is the bare add URL. With parameters it is the add URL, `?`, and a query string that splits at `&` into exactly one `k=str(v)` piece per parameter, in order (`Views.Piece`, `Strings.IntToDecimal`), and parses back to exactly those parameters. |
| `Views.Piece` | netbox_scion/views.py:283 | A `k=v` piece holds no `&` when the key holds none. When the key holds no `=`, it splits at `=` into exactly the key and `str(v)`. |
| `Views.QueryString` | netbox_scion/views.py:283 | No parameters give the empty string. Parameters with plain keys give a string that splits at `&` into exactly their `k=v` pieces, in order. |
| `Views.QueryStringRoundTrip` | netbox_scion/views.py:283-284 | A non-empty parameter list whose keys contain no `&` or `=`, joined as `k=v` pieces with `&`, parses back to itself. |
| `Strings.Strip` | netbox_scion/forms.py:48 | `str.strip`: the result is a contiguous piece of the input with only whitespace cut on each side. It is empty exactly when the input is blank, and otherwise starts and ends with non-whitespace. |
| `Strings.Split` | netbox_scion/forms.py:48 | `str.split(sep)` gives at least one piece. `JoinSplit` and `SplitPiecesFree` pin down which. |
| `Strings.SplitPiecesFree` | netbox_scion/forms.py:48 | No piece of `str.split(sep)` holds the separator. |
| `Strings.JoinSplit` | netbox_scion/forms.py:48 | Joining the pieces of a split with the separator rebuilds the string. |
| `Strings.SplitJoin` | netbox_scion/views.py:283 | Splitting a join of separator-free pieces gives back the pieces. |
| `Strings.JoinWithLength` | netbox_scion/forms.py:38 | `sep.join(xs)` (`Strings.JoinWith`, also the `'&'.join` of views.py:283) of a non-empty list is as long as all strings together plus one separator between each two. `SplitJoin` reads it back. |
| `Strings.NatToDecimal` | netbox_scion/views.py:283 | `str(n)` is a non-empty run of decimal digits. It starts with `0` exactly when `n` is 0, and is then just `0`. |
| `Strings.DecimalRoundTrip` | netbox_scion/views.py:283 | Reading the digits of `str(n)` gives back `n`. |
| `Strings.IntToDecimal` | netbox_scion/views.py:283 | `str(v)` of a non-negative integer is a digit run without a leading zero. For a negative integer it is `-` followed by a digit run that does not start with `0`, so `-` appears only in front. `ParseIntRoundTrip` reads it back. |
| `Strings.IsDigits` | netbox_scion/forms.py:139 | `str.isdigit`: false on the empty string. A digit string holds no whitespace and is not blank. |
| `Strings.ParseIntRoundTrip` | netbox_scion/views.py:283 | `int(str(i)) == i` for every integer, negative ones included. |
| `Forms.StripNonBlank` | netbox_scion/forms.py:48 | The list comprehension keeps at most one name per piece, and every kept name is non-empty and stripped. Comma-free pieces give comma-free names. |
| `Forms.CleanCores` | netbox_scion/forms.py:43-49 | An empty value gives `[]`. Every cleaned name is non-empty, stripped and comma-free, and there are at most as many names as comma-separated pieces. |
| `Forms.CleanCoresConcat` | netbox_scion/forms.py:48 | Cleaning keeps input order: the names from text before a comma come first, followed by the names from the text after it. |
| `Forms.CleanCoresPiece` | netbox_scion/forms.py:48 | A comma-free piece cleans to nothing when it is blank, and otherwise to its stripped self. |
| `Forms.CleanCoresName` | netbox_scion/forms.py:43-49 | A stripped, non-empty, comma-free name cleans to the one-element list holding exactly that name. |
| `Forms.CoresRoundTrip` | netbox_scion/forms.py:37-49 | For stripped, non-empty, comma-free names, `clean_cores(', '.join(xs)) == xs`. |
| `Forms.CleanCoresIdempotent` | netbox_scion/forms.py:43-49 | Joining a cleaned list and cleaning it again gives the same list. |
| `Forms.CommaNameDoesNotRoundTrip` | netbox_scion/forms.py:37-49 | For any two core names `x` and `y`, the one name `x,y` comes back from join-then-clean as the two names `x` and `y`. |
| `Forms.IsdAsForm.constructor` | netbox_scion/forms.py:34-38 | For a saved ISD-AS with a non-empty core list, the hidden field starts as the cores joined with ", ". Otherwise the initial value is kept. |
| `Forms.CoreChoices` | netbox_scion/forms.py:105-111 | For a non-empty list the choices are the "--- Select Core ---" placeholder and then `(c, c)` per core in list order. For an empty list they are exactly `[('', 'No cores available')]`. |
| `Forms.CoreFieldAcceptsListedCores` | netbox_scion/forms.py:66-71 | Under the required choice field, the dropdown built from an ISD-AS accepts exactly its non-empty core names. The "select ISD-AS first" list accepts nothing. |
| `Forms.SelectedIsdAs` | netbox_scion/forms.py:90-102 | A saved instance's ISD-AS wins. Otherwise the `isd_as` of dict data passed as the first positional argument is used if it exists. Missing, unknown or keyword-passed data selects none. |
| `Forms.LinkAssignmentForm.constructor` | netbox_scion/forms.py:83-116 | Customer id and ticket are optional. The dropdown is the selected ISD-AS's core choices, or exactly `[('', '--- Select ISD-AS first ---')]` when none is selected. |
| `Forms.LinkAssignmentForm.FullClean` | netbox_scion/forms.py:118-134 | When the submitted data names an existing ISD-AS, the dropdown is rebuilt from its cores. Otherwise it is left as it was. |
| `Forms.CleanZendeskTicket` | netbox_scion/forms.py:136-141 | On the value `clean_zendesk_ticket` receives, a ticket is accepted exactly when it is missing, blank or all digits. An accepted ticket is returned unchanged. Any other ticket, including one with surrounding spaces, gets the "only numbers" error. |
| `Forms.CleanCore` | netbox_scion/forms.py:151-154 | The submitted core is returned unchanged, and a missing one reads as empty. |

## Findings

| source | as written | input that shows it | evidently intended | confidence | as-written member | corrected member |
|---|---|---|---|---|---|---|
| netbox_scion/views.py:116-131 | Read against netbox_scion/forms.py in this revision, both branches build `forms.ApplianceManagementForm`, a class that file does not define, so the request raises. | ISD-AS 1 exists with no appliances; any request to add a name. | Validate the name and append it unless it is already listed. | not executed; low: netbox_scion/forms.py in this revision also lacks the filter forms views.py reads at import and names the column `cores`, so views.py evidently targets a different revision of the forms module, in which this view would not raise | `Views.AddApplianceAsWritten`, with `Views.AddAsWrittenNeverAdds` and `Views.AsWrittenRaises` | `Views.Database.AddAppliance` |
| netbox_scion/views.py:151-177 | Read against netbox_scion/forms.py in this revision, both branches build the same undefined class for a listed name, so the request raises. | ISD-AS 1 lists `core1`; any request to edit `core1`. | Rename the name and move its assignments, or report no change or a clash. | not executed; low: netbox_scion/forms.py in this revision also lacks the filter forms views.py reads at import and names the column `cores`, so views.py evidently targets a different revision of the forms module, in which this view would not raise | `Views.RenameApplianceAsWritten`, with `Views.RenameAsWrittenNeverRenames` and `Views.AsWrittenRaises` | `Views.Database.RenameAppliance` |

## Left out

- Host-framework plumbing is not modelled: `get_object_or_404` (modelled only as the `IsdAsNotFound` outcome), `render`, `redirect`, `messages.*`, querysets and `.save()`, and `reverse` (the add URL is a parameter). The generic list, detail, edit, delete and change-log view classes are also out.
- Every `Views` member models views.py as if the forms module it imports provided every form it names. netbox_scion/forms.py in this revision does not:
  - it lacks `SCIONLinkAssignmentFilterForm`, `OrganizationFilterForm` and `ISDAFilterForm`, which views.py reads in class bodies at import time (views.py:14, 56, 88, 230);
  - it lacks `ApplianceManagementForm` (views.py:116, 131, 151, 177) and has only `CoreManagementForm`, whose field is `core_name` rather than `appliance_name`;
  - it names the ISD-AS list column `cores` where views.py says `appliances`.

  Against this file, importing views.py would already fail at line 14, so no view would run, the remove view, `get_isdas_appliances` and `get_return_url` included. More likely the two files are different revisions. The model follows views.py on its own terms and treats `appliances` and `cores` as one column.
- `Views.Database.AddAppliance` and `Views.Database.RenameAppliance` give the evidently intended behaviour. `Views.AddApplianceAsWritten` and `Views.RenameApplianceAsWritten` record what the add and edit views would do against netbox_scion/forms.py in this revision if the module imported: the add view raises for every existing ISD-AS, and the edit view for every listed name (see "## Findings"). The cleaned appliance name is taken as given.
- For add and edit, only a POST whose form validates is modelled. A GET, or a form that fails validation, would render the page and change no state. The edit view's not-found redirect for an unlisted name comes before the method test and is modelled as `NotFound` for any request.
- `Views.Database.RemoveAppliance` models every request method. The remove view has no method test and no form, so a GET removes the name and deletes its assignments too.
- `get_isdas_appliances` has a broad `except Exception` branch that is not modelled. A request id that is missing or empty is `None`, and the lookup takes keys only. A non-numeric id, which the source routes into that exception branch, is not modelled. A numeric id that cannot be a key, such as `0` or `-1`, is truthy and reaches `DoesNotExist`, which replies "ISD-AS not found" (views.py:30-34). `Option<Pk>` cannot express such an id, but the source gives it the same reply as a missing key, which is what the model returns for an absent one.
- Each view is one atomic step. The source saves the list and then updates or deletes the assignments as separate writes, without a transaction or locking. Crashes between those writes and concurrent last-write-wins edits are not modelled.
- `Strings.IsDigits`: `str.isdigit` also accepts non-ASCII digits (superscripts, other scripts), while the model accepts only `0`-`9`.
- Primary keys are positive integers, as auto-increment keys are. The source's truthiness tests on `pk` therefore equal "is set".
- `Forms.LinkAssignmentForm.constructor` requires that an instance's ISD-AS exists in the table. The database's foreign key guarantees this; the source would raise on a dangling one.
- In the forms, the data's `isd_as` arrives as an optional key. An absent, empty or unparsable value is `None`, which the source also treats as "no ISD-AS" (it swallows `ValueError`).
- The host framework's `super().full_clean()` and the field validation that follows are not modelled, except that `Forms.CoreFieldAccepts` restates the rule of the required choice field. `SCIONLinkAssignmentForm.clean` returns its data unchanged and is not modelled. If `zendesk_ticket` is a model text field, its generated form field strips the value before `clean_zendesk_ticket` sees it, so through the real form ` 123 ` would be accepted. models.py is not part of this model.
- The organization queryset set in `ISDAForm.__init__` is host-framework configuration.
- The conditional unique constraint on `(isd_as, peer)` from migration 0018 is a database constraint, not code.
- `static/netbox_scion/js/core-dropdown.js` (browser UI code), tables, filtersets, serializers, API routes, navigation and configuration are declarative host-framework files with no logic to verify.
