# Form builder: element list, save, and the forms and responses API

This project models the core of a small form-building web application and proves
properties of it. Users drag field types from a palette into a form, reorder them,
delete them, name the form and save it. The server stores forms, lists them and
deletes them. It also stores submitted answers ("responses") and lists them.

The model has ten modules:

- `Wrappers` (wrappers.dfy) holds `Option`. `None` stands for JavaScript's
  `undefined`, `NaN` or an absent query parameter.
- `JsString` (js_string.dfy) models the JavaScript string primitives the code relies on:
  - `String.prototype.trim`, over the WhiteSpace and LineTerminator code points of
    sections 12.2 and 12.3 of ECMA-262;
  - the global `parseInt` without a radix (section 19.2.5 of ECMA-262): leading white
    space, an optional sign, a `0x` prefix, then the longest digit prefix;
  - integer-to-string conversion.
- `Json` (json.dfy) models a parsed JSON value and three JavaScript operations on it:
  truthiness, property access on a parsed body, and `String(v)`.
- `ArrayMove` (array_move.dfy) models `arrayMoveImmutable` of the `array-move` package.
- `FormBuilder` (form_builder.dfy) models the builder page.
  - The class `Builder` holds the page state: the element list, the selected id and the
    title. Its methods are the page's drop, delete, hover, click and save handlers.
  - Pure functions model the list transforms, the save request and how the page treats
    the server's answer.
- `Store` (store.dfy) models the database as the two handlers see it.
  - The class `Database` holds the Form and FormResponse tables as maps keyed by id.
  - `ListingOrder` gives the order in which `findMany` lists rows under an `orderBy`.
- `Http` (http.dfy) holds `Reply`, the status and body of a `NextResponse.json` reply.
- `FormsRoute` (forms_route.dfy) and `FormResponsesRoute` (form_responses_route.dfy)
  model the API handlers.
  - Each handler first decides what to do with its input, as a pure "plan" function.
  - A method then carries the plan out on the `Database` and returns a status and a body.
- `SaveRoundTrip` (save_round_trip.dfy) connects the page and the forms API. A save with
  a non-blank title is stored and lists first. The stored form reads back as the list
  the user built. The page navigates exactly when the form was created.

Some inputs are not visible to the code, so they become parameters:
- Element ids are `Date.now()` values.
- The database picks row ids and creation times (`freshId`, `now`).
- A database failure other than a missing row is the `fault` flag.

## Model

| member | source | states |
|---|---|---|
| FormBuilder.Builder.constructor | src/app/form-builder/page.tsx:53-61 | the page starts with the given elements (none on the builder page) and no selection; the title starts empty, as `FormBuilderPage`'s `useState('')` at line 172 sets it |
| FormBuilder.Builder.SetTitle | src/app/form-builder/page.tsx:221 | typing sets the title and nothing else; a selection still names an element of the list |
| FormBuilder.Builder.Drop | src/app/form-builder/page.tsx:65-67 | a palette drop appends exactly `{id, label}` at the end; earlier elements, their order, the selection and the title are unchanged |
| FormBuilder.Builder.DeleteSelected | src/app/form-builder/page.tsx:75-80 | with no selection nothing changes; with selection `s` the list becomes `Without(list, s)`, which is strictly shorter, and the selection is cleared |
| FormBuilder.Without | src/app/form-builder/page.tsx:77 | the filter removes every element with the id; each other element survives exactly as often as before; survivors keep their relative order |
| FormBuilder.WithoutLength | src/app/form-builder/page.tsx:77 | the filtered list is shorter by exactly the number of elements carrying the id |
| FormBuilder.WithoutAbsent | src/app/form-builder/page.tsx:77 | filtering out an id that no element carries leaves the list unchanged |
| FormBuilder.WithoutUnique | src/app/form-builder/page.tsx:77 | with unique ids, deleting the id of one element removes that element and only it |
| FormBuilder.Builder.Hover | src/app/form-builder/page.tsx:146-152 | equal indices leave the list alone; distinct in-range indices array-move the list; the elements (multiset), the selection and the title are kept |
| FormBuilder.Builder.Click | src/app/form-builder/page.tsx:164 | clicking the item at an index makes its id the selection and changes nothing else |
| FormBuilder.ClickHighlightsOne | src/app/form-builder/page.tsx:100 | with unique ids, after a click exactly the clicked item is shown as selected |
| FormBuilder.Builder.Save | src/app/form-builder/page.tsx:177-191 | a title that is blank after trimming sends nothing; otherwise the request has the trimmed title and the current list in order, exactly the request `SaveRequestFor` describes |
| FormBuilder.SaveRequestFor | src/app/form-builder/page.tsx:177-191 | None exactly when the title is all white space; otherwise a non-empty trimmed title and the elements unchanged |
| FormBuilder.ElementsJson | src/app/form-builder/page.tsx:187-190 | the body's `elements` is an array of one `{id, label}` object per element, in list order |
| FormBuilder.ElementsRoundTrip | src/app/form-builder/page.tsx:187-190 | a serialised element list reads back as the same elements in the same order |
| FormBuilder.RequestJson | src/app/form-builder/page.tsx:187-190 | the posted body is an object with exactly the keys `title` and `elements`, holding the title and the element array |
| FormBuilder.ErrorMessage | src/app/form-builder/page.tsx:196-200 | `data.error \|\| 'Failed to save form'`: the fallback text when `data.error` is falsy, otherwise `String(data.error)`, so a non-empty string error is shown as is |
| FormBuilder.SaveOutcomeOf | src/app/form-builder/page.tsx:193-206 | the page navigates exactly when `response.ok` and `data.success` is truthy; otherwise it alerts `data.error`, or 'Failed to save form' when that is falsy |
| ArrayMove.Move | src/app/form-builder/page.tsx:150 | same length; the old element at `from` is now at `to`; removing it again leaves the other elements in their old relative order |
| ArrayMove.MovePermutes | src/app/form-builder/page.tsx:150 | a move is a permutation: the multiset of elements is unchanged |
| ArrayMove.MovePositions | src/app/form-builder/page.tsx:150 | position by position, the elements between the two indices shift one place towards `from`, and all others stay put |
| ArrayMove.MoveToSelf | src/app/form-builder/page.tsx:148 | a move onto the same index changes nothing, so the `draggedIndex !== index` guard only skips a no-op |
| ArrayMove.MoveBack | src/app/form-builder/page.tsx:150 | moving from `i` to `j` and back from `j` to `i` restores the list |
| ArrayMove.MoveLastToFront | src/app/form-builder/page.tsx:150 | dragging the last of `[A, B, C]` to the front gives `[C, A, B]` |
| ArrayMove.InsertRemoved | src/app/form-builder/page.tsx:150 | taking out an element and inserting it at the same index restores the list |
| JsString.Trim | src/app/form-builder/page.tsx:177 | the result is the input minus white space at both ends: it is framed by white space in the input, it neither starts nor ends with white space, and it is empty exactly when the input is all white space |
| JsString.TrimIdempotent | src/app/form-builder/page.tsx:177-188 | trimming twice equals trimming once: a title the page sends already trimmed is unchanged by trimming it again |
| JsString.LeadingBlanks | src/app/api/forms/route.ts:75 | counts the white space that parseInt skips: all of it is white space, and the next character is not |
| JsString.ParseInt | src/app/api/forms/route.ts:75 | parseInt is NaN whenever the string holds no decimal digit (the exact NaN condition is `ParseIntNaN`) |
| JsString.ParseIntOfDecimal | src/app/api/form-responses/route.ts:18 | parseInt reads back every integer written in decimal |
| JsString.ParseIntReadsDecimalPrefix | src/app/api/forms/route.ts:75 | parseInt reads an integer followed by text that does not continue it, and ignores the text; a leading '+' on a non-negative integer changes nothing |
| JsString.ParseIntHex | src/app/api/forms/route.ts:75 | after an optional '-' or '+', a "0x" or "0X" prefix makes parseInt read the hexadecimal digits that follow, negated after '-', ignoring the text after them |
| JsString.ParseIntDigits | src/app/api/forms/route.ts:75 | after an optional '-' or '+', parseInt reads the whole run of decimal digits, leading zeros included ("007" is 7), negated after '-', and ignores the text after it, unless the digits open a "0x" prefix |
| JsString.ParseIntNaN | src/app/api/forms/route.ts:75-79 | parseInt is NaN exactly when, after the white space and an optional sign, there is no decimal digit, or a "0x" prefix has no hexadecimal digit after it |
| JsString.ParseIntNoLeadingDigit | src/app/api/forms/route.ts:75-79 | text such as "abc12", "- 5" or "+-5", with no digit right after the white space and the optional sign, reads as NaN |
| JsString.IntToString | src/app/forms/page.tsx:42 | the `${id}` rendering of an integer is a '-' exactly for a negative one, then decimal digits whose value is its magnitude |
| JsString.ParseIntHexWithoutDigits | src/app/api/forms/route.ts:75 | a "0x" or "0X" prefix with no hexadecimal digit after it reads as NaN |
| JsString.ParseIntSkipsWhitespace | src/app/api/forms/route.ts:75 | leading white space never changes what parseInt reads |
| JsString.DecimalValue | src/app/api/form-responses/route.ts:18 | the decimal digits of `n` have the value `n` |
| JsString.NatToDecimal | src/app/api/form-responses/route.ts:18 | decimal rendering is non-empty, all digits, and starts with '0' only for 0 |
| Json.Truthy | src/app/api/forms/route.ts:10 | a value is falsy exactly when it is `undefined`, `null`, `false`, `0` or the empty string, as `!title`, `elements \|\| []`, `!formId \|\| !responses` and `!data.success` test |
| Json.ToStr | src/app/api/form-responses/route.ts:18 | `formId.toString()` of a number is its decimal rendering and parseInt reads it back as that number; a string is itself; an object without its own `toString` key is "[object Object]" |
| Json.Prop | src/app/api/forms/route.ts:8 | destructuring a non-null body finds a property exactly when the body is an object with that key |
| FormsRoute.PostPlanFor | src/app/api/forms/route.ts:7-22 | a non-null body with a falsy title is refused; a non-empty string title is created with the title as sent and with elements that are truthy: the sent ones when those are truthy, `[]` when they are missing or falsy (`elements \|\| []`) |
| FormsRoute.TitleOnlyBody | src/app/api/forms/route.ts:10-20 | only falsiness is checked: an empty title is refused; any other title, even all white space, is accepted; missing elements are stored as `[]` |
| FormsRoute.Post | src/app/api/forms/route.ts:5-40 | status is always 200; 'Title is required' and 'Failed to create form' leave the table unchanged; otherwise the new row is stored under the fresh id and returned |
| FormsRoute.NewestFirst | src/app/api/forms/route.ts:45-51 | the listing holds every form exactly once and nothing else, with ids strictly decreasing |
| FormsRoute.Get | src/app/api/forms/route.ts:43-61 | status 200; the listing when the database works, `[]` when it fails |
| FormsRoute.CreatedFormListedFirst | src/app/api/forms/route.ts:17-49 | a form created under an id above all others heads the next listing, followed by the previous listing |
| FormsRoute.DeletePlanFor | src/app/api/forms/route.ts:65-82 | an absent or empty id is required; a NaN from parseInt is invalid; otherwise the row to delete is what parseInt read |
| FormsRoute.DeleteAsksForId | src/app/api/forms/route.ts:75 | the `?id=${id}` the forms page sends deletes exactly form `id` |
| FormsRoute.DeleteReadsLeadingDigits | src/app/api/forms/route.ts:75-82 | trailing text after the digits is ignored; a non-empty id without digits is invalid |
| FormsRoute.Delete | src/app/api/forms/route.ts:63-109 | gives 400 'Form ID is required', 400 'Invalid Form ID', 500 on a database failure, or 404 'Form not found', with the table unchanged; otherwise 200, with exactly that row removed |
| FormResponsesRoute.PostPlanFor | src/app/api/form-responses/route.ts:6-21 | a falsy formId or responses is refused; a null body or a NaN formId fails; otherwise formId is `parseInt(String(formId))` and the answers are stored as sent |
| FormResponsesRoute.SubmissionStored | src/app/api/form-responses/route.ts:9-18 | a numeric formId from the fill page is stored as is when it is not 0; formId 0 is refused as falsy |
| FormResponsesRoute.StringFormIdParsed | src/app/api/form-responses/route.ts:18 | a formId sent as a decimal string is stored as its number; "0" is truthy and is stored |
| FormResponsesRoute.Post | src/app/api/form-responses/route.ts:4-31 | gives 400 'FormId and responses are required' or 500 'Error saving form response', with the table unchanged; otherwise 200 with the new row, stored under the fresh id |
| FormResponsesRoute.FilterFor | src/app/api/form-responses/route.ts:36-38 | an absent or empty parameter selects all rows; otherwise the rows of the form that parseInt reads; NaN is a bad filter |
| FormResponsesRoute.Selected | src/app/api/form-responses/route.ts:38-41 | the `where` clause keeps exactly the rows that match the filter, unchanged |
| FormResponsesRoute.Listing | src/app/api/form-responses/route.ts:40-54 | lists exactly the selected rows, each with its form's title, newest first (equal times: higher id first) |
| FormResponsesRoute.TitleOf | src/app/api/form-responses/route.ts:45-51 | the joined title is present exactly when the response's form exists, and is then that form's title |
| FormResponsesRoute.NewerFirstIsBefore | src/app/api/form-responses/route.ts:41-43 | the order the listing promises (newer first, higher id first on equal times) is the `findMany` order under the rank `createdAt` |
| FormResponsesRoute.Get | src/app/api/form-responses/route.ts:33-58 | status 200; the listing, or `[]` when the filter is NaN or the database fails |
| FormResponsesRoute.SavedResponseListedFirst | src/app/api/form-responses/route.ts:16-44 | a response stored no earlier than all others, under a higher id, heads the next listing of every filter that selects it |
| Store.ListingOrder | src/app/api/forms/route.ts:45-49 | `findMany` with `orderBy` lists every key once, nothing else, each before all that follow it |
| Store.ListingUnique | src/app/api/forms/route.ts:45-49 | under a total order a table has exactly one listing, so the order is determined |
| Store.ListingWithNewFirst | src/app/api/form-responses/route.ts:40-44 | a row ranked ahead of all others is listed first, followed by the old listing |
| Store.FirstExists | src/app/api/forms/route.ts:45-49 | a non-empty table has a row that comes before all others |
| Store.Database.CreateForm | src/app/api/forms/route.ts:17-22 | `prisma.form.create` adds the row under the fresh id and changes nothing else |
| Store.Database.DeleteForm | src/app/api/forms/route.ts:84-88 | `prisma.form.delete` removes the row and reports whether it existed (P2025 otherwise) |
| Store.Database.CreateResponse | src/app/api/form-responses/route.ts:16-21 | `prisma.formResponse.create` adds the row under the fresh id, stamped with the creation time |
| SaveRoundTrip.SaveAccepted | src/app/form-builder/page.tsx:182-191 | the body a non-blank save posts is accepted by the forms API, with the trimmed title and the element array |
| SaveRoundTrip.SavedFormReadsBack | src/app/api/forms/route.ts:17-51 | after the save, the forms listing starts with the new form, titled with the trimmed title, whose elements read back as the saved list |
| SaveRoundTrip.SaveOutcomeOfReply | src/app/form-builder/page.tsx:193-203 | a created form makes the page navigate; a refusal makes it alert the API's own error text |

## Left out

- UI wiring: JSX rendering, styling, the widget table per label, and the react-dnd
  plumbing (providers and ref callbacks).
- The field `label` of an element is called `kind` in the model, because `label` is a
  reserved word in Dafny.
- FormBuilder.Builder.Hover: takes the dragged index and the hovered index as inputs. In
  the source, the dragged item's index is captured when the drag starts and never updated
  (line 141). The model does not track a drag session.
- FormBuilder.Builder.Hover: requires both indices to be in range. `array-move` behaviour on negative
  or out-of-range indices is library code that is not shown.
- Palette and list items share one drag type. The model does not cover a palette item
  hovering over the list, or a list drop reaching the outer drop target.
- `Date.now()` ids are parameters of `Drop`. Nothing guarantees they are unique, which is
  why deletion removes every element with the selected id.
- Row ids, creation times and database failures are inputs. The Prisma client, its
  JSON column storage and its error codes other than P2025 are not modelled.
- The model has no Int32 range limit on ids. A parsed id out of that range reaches the
  database as any other id.
- A NaN form id reaching the database is modelled as a database error. For POST this
  gives 500, and for a GET filter it gives `[]`. This follows from the catch blocks.
- The non-string title case is a model choice. A truthy title that is not a string is
  assumed to be refused by the database, giving "Failed to create form". The schema is
  not part of this model.
- Deleting a form does not cascade to its responses, and foreign keys are not checked.
  A listed response whose form is gone shows no title (`None`).
- FormResponsesRoute.Listing: breaks ties between equal `createdAt` values by higher id
  first. The database leaves that order unspecified.
- JSON numbers are integers only. Floating point, the exponent form of `String(n)` for
  magnitudes of 10^21 and above, and precision loss in `parseInt` on long digit strings
  are not modelled.
- Json.ToStr: a parsed object with its own `toString` key, alone or inside an array, is
  not modelled. `String()` and `.toString()` of such a value throw in JavaScript; the model
  renders it as "[object Object]". For POST /api/form-responses the throw is caught and the
  answer is 500 'Error saving form response' with nothing stored, where the model stores the
  row. For the builder page's `new Error(data.error)` the throw is caught and the alert shows
  the engine's message, where the model alerts "[object Object]".
- URL decoding of query parameters is not modelled; the parameter is the decoded string.
- A request body that is not valid JSON throws like a `null` body does. The model only
  represents the `null` case.
- Client-side I/O (`fetch`, `alert`, `router.push`) and `console` logging are not
  modelled. `SaveOutcomeOf` stands for the choice between navigating and alerting.
- The legacy `pages/api` handlers and the display-only pages are not part of this model.
- Three behaviours of the code are weaker than they may look, and the model follows the
  code:
  - delete filters out every element with the id, not exactly one;
  - hover does not re-track the dragged index after a move;
  - the server checks only that the title is truthy, not that it is non-blank.
