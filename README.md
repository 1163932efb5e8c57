# Party invitation: RSVP validation, attendance tally, phone formatting

A Dafny model of the logic behind a small party-invitation web application.
Guests open the party page, see the party's details, the attendance counts and
a wall of messages, and send an RSVP through a form.

- **RSVP action** (`RsvpAction`). The RSVP route checks the submitted form fields
  against a schema. The fields are first and last name, guest count, optional
  message, party id and response. The route answers with `error` (HTTP 400),
  `idle` or `success`. The route stores nothing.
- **Party loaders** (`PartyLoader`, `PartyLayout`, `IndexPage`). A loader looks
  the configured party up and answers 404 when it is missing. It reads the
  party's RSVPs grouped by response with summed guests, and folds those groups
  onto a base record of zeros. The layout seeds YES, MAYBE and NO; the index page
  seeds only YES and MAYBE. The loader also returns the message wall: the
  party's RSVPs that carry a message, newest first (`MessageWall`).
- **Phone formatting** (`PhoneFormat`). `formatPhoneNumber` pours the decimal
  digits of a number into the `#` placeholders of a template. It returns
  "Invalid phone number" when a placeholder is left unfilled.

The database is not called. The party table is a map from id to party and the
RSVP table is a sequence of rows. The group-by query is the function
`Attendance.GroupBy`, proved to satisfy `IsGroupingOf`: one group per response
that occurs, with the summed guests, in any order. The message query is
`MessageWall.Messages`, proved to satisfy `IsMessageWall`: a newest-first
permutation of the party's rows that have a message.

Three facts about the program that a reader might not expect:
- The schema has `firstName` and `lastName` (no single name field), sets no lower
  bound on `guests`, and its last-name rule carries the message "First name is
  required." (see "## Findings").
- The RSVP action stores nothing; no modelled route creates or updates RSVPs.
- The layout seeds all three responses, but the index page seeds only YES and
  MAYBE, so its tally has no NO entry when nobody answered NO
  (`IndexPage.IndexOmitsUnansweredNo`).

The schema's rules are modelled on the schema library's own behaviour. A missing
key is a `Required` issue. An empty string fails a minimum-length rule with the
schema's message. A missing guest count defaults to "1". The empty string
coerces to the number 0.

## Model

| member | source | states |
|---|---|---|
| `PhoneFormat.Fill` | app/utils/misc.ts:15 | the replace step keeps the template's length |
| `PhoneFormat.FormatPhoneNumber` | app/utils/misc.ts:10-17 | the loop over the template, with the counter advanced once per placeholder and the final search for `#`, computes exactly `Format` |
| `PhoneFormat.Format` | app/utils/misc.ts:15-16 | the result is either "Invalid phone number" or a string as long as the template with no `#` left in it |
| `PhoneFormat.FillAt` | app/utils/misc.ts:15 | position k of the filled template is the template character when it is not `#`; a `#` preceded by h placeholders takes digit i+h, or stays `#` when there is no such digit |
| `PhoneFormat.FillLeavesPlaceholder` | app/utils/misc.ts:15-16 | with digits free of `#`, a `#` is left exactly when the template has placeholders and i plus their number exceeds the digit count |
| `PhoneFormat.FillAppend` | app/utils/misc.ts:13-15 | the counter is threaded left to right: filling a+b fills a, then fills b from the offset advanced by a's placeholders |
| `PhoneFormat.HashCountAppend` | app/utils/misc.ts:15 | placeholder counts add up over concatenation |
| `PhoneFormat.HashCountBelow` | app/utils/misc.ts:15 | a placeholder is preceded by fewer placeholders than the template holds |
| `PhoneFormat.FormatOutcome` | app/utils/misc.ts:10-17 | the result is "Invalid phone number" exactly when the digits from offset i run out; otherwise it has the template's length, contains no `#`, keeps every other character in place and fills the placeholders left to right from offset i; surplus digits are ignored |
| `PhoneFormat.FormatExample` | app/utils/misc.ts:9 | 12025550171 in "+# (###) ###-####" gives "+1 (202) 555-0171" |
| `PhoneFormat.ShowExample` | app/utils/misc.ts:9 | the decimal rendering of 12025550171 is "12025550171" |
| `Decimal.Show` | app/utils/misc.ts:15 | the decimal rendering of a natural is non-empty, all digits, with no leading zero |
| `Decimal.ParseShow` | app/routes/resources+/rsvp.tsx:17 | reading the rendering of n back as digits gives n |
| `Records.ParseResponse` | app/routes/resources+/rsvp.tsx:21 | an accepted response text is the name of the member returned |
| `Records.ParseResponseName` | app/routes/resources+/rsvp.tsx:21 | exactly "YES", "MAYBE" and "NO" are accepted, each as its own member |
| `RsvpAction.CoerceNumber` | app/routes/resources+/rsvp.tsx:17 | the coercion of the decimal rendering of any integer, negative ones included, is that integer |
| `RsvpAction.ValidateWith` | app/routes/resources+/rsvp.tsx:15-29 | the schema yields a value exactly when every field passes, and otherwise reports exactly the failing fields, collecting every failing field and not only the first |
| `RsvpAction.Errors` | app/routes/resources+/rsvp.tsx:26-29 | the reported errors are keyed by exactly the fields that fail, each with all of its issues |
| `RsvpAction.ValidateAsWritten` | app/routes/resources+/rsvp.tsx:15-22 | the schema as written yields only values with a non-empty first and last name |
| `RsvpAction.Validate` | app/routes/resources+/rsvp.tsx:15-22 | the corrected schema yields only values with non-empty names, and accepts exactly the submissions the schema as written accepts, with the same value |
| `RsvpAction.FirstNameRule` | app/routes/resources+/rsvp.tsx:16 | in either schema, a missing first name is `Required`; an empty one fails with "First name is required."; an accepted value carries the submitted first name |
| `RsvpAction.LastNameRule` | app/routes/resources+/rsvp.tsx:18 | corrected schema: a missing last name is `Required`; an empty one fails with "Last name is required."; an accepted value carries the submitted last name |
| `RsvpAction.LastNameMessageAsWritten` | app/routes/resources+/rsvp.tsx:18 | as written, an empty last name fails with "First name is required." |
| `RsvpAction.AsWrittenMisnamesLastName` | app/routes/resources+/rsvp.tsx:18 | a form whose only field is an empty last name shows "First name is required." under the last-name field |
| `RsvpAction.MessagesNameTheirField` | app/routes/resources+/rsvp.tsx:16-18 | corrected schema: a minimum-length issue appears only on a name field, and its message names that field |
| `RsvpAction.IssueMessages` | app/routes/resources+/rsvp.tsx:16-18 | in either schema a minimum-length issue appears only on a name field: the first name with "First name is required.", the last name with the last-name rule's message |
| `RsvpAction.GuestsRule` | app/routes/resources+/rsvp.tsx:17 | in either schema, a missing guest count passes and validates to 1; the rendering of any integer, 0 and negatives included, validates to that integer; a text that does not coerce is reported as not a number |
| `RsvpAction.ResponseRule` | app/routes/resources+/rsvp.tsx:21 | in either schema, a missing response is `Required`; a present one passes exactly when it is YES, MAYBE or NO, so NO passes although the form offers only YES and MAYBE; the value is the member named |
| `RsvpAction.MessageAndPartyRule` | app/routes/resources+/rsvp.tsx:19-20 | in either schema, the message never fails, and is absent in the value when missing or else verbatim; a missing party id is `Required`; an accepted party id is verbatim |
| `RsvpAction.ExtraFieldsIgnored` | app/routes/resources+/rsvp.tsx:15-22 | in either schema, fields outside the schema do not change the outcome |
| `RsvpAction.SameSchemaFieldsAgree` | app/routes/resources+/rsvp.tsx:15-22 | two submissions that agree on the schema's six fields validate to the same outcome |
| `RsvpAction.ValidateEncode` | app/routes/resources+/rsvp.tsx:15-22 | round trip: the form data of a value with non-empty names validates back to that value; with an empty name it fails |
| `RsvpAction.ValidateWellFormed` | app/routes/resources+/rsvp.tsx:15-22 | every accepted value has non-empty names and is reproduced by encoding it and validating again |
| `RsvpAction.Parse` | app/routes/resources+/rsvp.tsx:26-29 | the submission echoes the intent and payload; it has a value exactly when the schema (with the given last-name message) accepts the data, then with no errors, and otherwise carries the schema's field errors |
| `RsvpAction.Action` | app/routes/resources+/rsvp.tsx:24-44 | status is `error` with HTTP 400 exactly when the schema rejects the data, `idle` exactly when it accepts them with an intent other than "submit", `success` otherwise, with HTTP 200; the parsed submission is echoed and nothing else is produced; the route as written passes "First name is required." as the last-name message |
| `RsvpAction.ActionAsWrittenMisnamesLastName` | app/routes/resources+/rsvp.tsx:18-37 | the route as written answers an empty last name with HTTP 400 and echoes "First name is required." under the last-name field |
| `RsvpAction.CorrectedActionAgrees` | app/routes/resources+/rsvp.tsx:18-43 | the corrected route gives every request the same status, HTTP code and value as the route as written, reports errors on the same fields with the same issues on every field but the last name, and reports an empty last name with "Last name is required." |
| `RsvpAction.ErrorsDifferOnlyInLastName` | app/routes/resources+/rsvp.tsx:16-18 | the two schemas report errors on the same fields, with the same issues on every field but the last name |
| `RsvpAction.SubmitEncodedSucceeds` | app/routes/resources+/rsvp.tsx:39-43 | submitting a well-formed value with intent "submit" succeeds and carries that value back, in the route as written and in the corrected one |
| `Attendance.GroupBy` | app/routes/_party+/_layout.tsx:50-54 | the group-by result has distinct responses, one group for each response that occurs among the party's RSVPs, each with the sum of their guests |
| `Attendance.SumGuests` | app/routes/_party+/_layout.tsx:50-54 | the summed guests of a response no RSVP of the party carries are 0 |
| `Attendance.FoldSnoc` | app/routes/_party+/_layout.tsx:68-72 | folding one more group overwrites that group's response and nothing else |
| `Attendance.Fold` | app/routes/_party+/_layout.tsx:68-72 | the folded tally's keys are the base's keys plus the response of every group |
| `Attendance.FoldEntry` | app/routes/_party+/_layout.tsx:68-72 | a response present in the folded tally is in the base or carried by a group; a carried response takes the guests of its last group (later entries win), others keep the base value |
| `Attendance.LastForDistinct` | app/routes/_party+/_layout.tsx:50-53 | with distinct responses, the last group for a response is the only one |
| `Attendance.LastForSome` | app/routes/_party+/_layout.tsx:68-72 | a last group for a response exists exactly when some group carries it |
| `Attendance.FoldOrderIrrelevant` | app/routes/_party+/_layout.tsx:50-72 | with distinct responses, any two listings of the same groups fold to the same tally |
| `Attendance.FoldGrouping` | app/routes/_party+/_layout.tsx:50-72 | folding any grouping of the party's RSVPs gives each occurring response its total guests and leaves the others at their base value or absent |
| `MessageWall.Filter` | app/routes/_party+/_layout.tsx:64 | the rows kept are exactly the party's rows with a non-null message |
| `MessageWall.Insert` | app/routes/_party+/_layout.tsx:56 | inserting into a newest-first list keeps it newest first and adds exactly that row |
| `MessageWall.SortNewestFirst` | app/routes/_party+/_layout.tsx:56 | the sort is ordered by creation time descending and is a permutation of its input |
| `MessageWall.Messages` | app/routes/_party+/_layout.tsx:55-65 | the wall is newest first and a permutation of the party's rows with a message |
| `MessageWall.WallMembers` | app/routes/_party+/_layout.tsx:64 | a row is on a wall exactly when it is a stored row of the party with a message |
| `MessageWall.SameHead` | app/routes/_party+/_layout.tsx:56 | two newest-first listings of the same rows with distinct times start with the same row |
| `MessageWall.NewestFirstUnique` | app/routes/_party+/_layout.tsx:56 | with distinct creation times, two newest-first listings of the same rows are equal |
| `MessageWall.WallDetermined` | app/routes/_party+/_layout.tsx:55-65 | with distinct creation times, every wall the query may return equals the computed one |
| `PartyLoader.Load` | app/routes/_party+/_layout.tsx:22-75 | a missing party gives exactly 404 "Party not found. ☹️" and no tally; a found party is returned with its message wall |
| `PartyLoader.LoadTally` | app/routes/_party+/_layout.tsx:50-72 | a found party's tally gives each response that occurs its total guests and leaves other responses at their base value or absent |
| `PartyLayout.Loader` | app/routes/_party+/_layout.tsx:45-65 | the layout answers 404 "Party not found. ☹️" exactly when the party is missing, and otherwise returns the party's message wall |
| `PartyLayout.LayoutFold` | app/routes/_party+/_layout.tsx:68-72 | folding any groups onto the layout's base gives exactly the keys YES, MAYBE and NO; a response carried by groups takes its last group's guests, others stay 0 |
| `PartyLayout.BaseHasAll` | app/routes/_party+/_layout.tsx:72 | the layout's base holds every response at 0 |
| `PartyLayout.AllResponses` | app/routes/_party+/_layout.tsx:72 | a tally holding every response has exactly the keys YES, MAYBE and NO |
| `PartyLayout.LayoutTallyComplete` | app/routes/_party+/_layout.tsx:50-72 | the layout's tally has exactly the keys YES, MAYBE and NO, each the total guests of the party's RSVPs with that response, 0 when there are none |
| `IndexPage.Loader` | app/routes/_index.tsx:43-63 | the index page answers 404 "Party not found. ☹️" exactly when the party is missing, and otherwise returns the party's message wall |
| `IndexPage.IndexFold` | app/routes/_index.tsx:66-70 | folding any groups onto the index's base always has YES and MAYBE, has NO exactly when some group carries it, and gives carried responses their last group's guests and the others 0 |
| `IndexPage.IndexTally` | app/routes/_index.tsx:48-70 | the index's tally gives YES and MAYBE the party's totals; NO appears exactly when some RSVP of the party answered NO, and then holds their total |
| `IndexPage.IndexOmitsUnansweredNo` | app/routes/_index.tsx:70 | for a party nobody answered NO, the index tally has no NO entry while the layout's shows NO as 0 |

## Findings

| source | as written | input that shows it | evidently intended | confidence | as-written member | corrected member |
|---|---|---|---|---|---|---|
| app/routes/resources+/rsvp.tsx:18 | the last-name minimum-length rule carries the message "First name is required." | a form with `lastName` = "" | "Last name is required." | high (copied line); not executed | `RsvpAction.ActionAsWrittenMisnamesLastName` | `RsvpAction.MessagesNameTheirField` |

`RsvpAction.Parse` and `RsvpAction.Action` take the last-name message as a
parameter. The route as written is `Action(data, FirstNameRequired, intent)`;
the corrected route passes `LastNameRequired`. The two schemas accept the same
submissions with the same values and differ only in that one message
(`RsvpAction.Validate`, `RsvpAction.CorrectedActionAgrees`).
The copied message reaches the user only when the empty string itself reaches
the schema; where the form library first turns an empty field into a missing
one, the schema reports `Required` for the last name instead.

## Left out

- Database I/O. The party lookup, the group-by and the message query are
  modelled as a map, a sequence and the functions `GroupBy` and `Messages`. The
  two queries run concurrently in the source; here they are two pure functions.
- Column selection of the party and message queries. Loaders return whole
  `Party` and `Rsvp` records; the selection only drops fields.
- A null guest sum from the group-by. The database schema is not part of this
  model, so guests are modelled as non-null integers.
- The form library's handling of raw form data. Its turning of empty strings
  into missing values is not modelled. Repeated keys and file entries are not
  modelled either. The intent, which the library derives from the pressed
  button, is a parameter.
- Decimal.Show: renders every digit of a natural exactly. JavaScript's `${n}`
  agrees only up to 2^53 - 1 (Number.MAX_SAFE_INTEGER); larger numbers are
  doubles, printed rounded to 17 significant digits and padded with zeros, and
  from 10^21 on in exponent notation.
- RsvpAction.CoerceNumber: reads digit strings as exact integers of any size.
  JavaScript's `Number` is exact only up to 2^53 - 1 in magnitude; larger values
  are rounded to the nearest double, and very long digit strings become
  `Infinity`. The round trip in its contract matches the program only within
  that range.
- RsvpAction.GuestsRule: a rendered guest count validates to that integer for
  every integer; the program agrees only for magnitudes up to 2^53 - 1.
- RsvpAction.CoerceNumber: covers the empty string (0) and an optional minus sign
  followed by decimal digits. JavaScript's `Number` also reads surrounding
  whitespace, a plus sign, decimals, exponents, hexadecimal and `Infinity`;
  such texts are treated here as not a number.
- The exact English text of the schema library's built-in issues (missing
  field, not a number, invalid enum value). They are the `Issue` constructors
  `Required`, `NotANumber` and `InvalidEnum`.
- PhoneFormat.FormatPhoneNumber: `n` is rendered exactly (see `Decimal.Show`), so
  the model matches the program only for `n` up to 2^53 - 1. `n` and the offset
  `i` are naturals. Negative or fractional numbers, negative offsets and the
  rounded or exponent-notation renderings of large numbers are not modelled. The default offset 0 is passed explicitly.
- Date and time formatting of the party's start and end, page meta tags, and all
  React rendering, including the RSVP form component.
- The cookie-based redirect of the party index route, cookie signing, the
  change-notification event stream, environment parsing, the flash session and
  the class-name helper `cn`.
- Creating and updating RSVPs: the RSVP action stores nothing, and no modelled
  route creates or updates RSVPs.
