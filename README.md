# Bulk invitations of the onboarding engine, in Dafny

This project models the one piece of logic in the onboarding engine's
invitations controller: the bulk-invitation endpoint
`POST /api/v1/invitations/bulk`. A user who passes `authorize @group` (a
policy not part of this model) sends a comma-separated `emails` parameter. The controller answers in one of three ways:

- a blank parameter (nil, empty or white space only) gives 400 with the
  "empty" message;
- a parameter with no accepted address gives 400 with the "invalid" message
  and calls no service;
- otherwise `InvitationService#bulk_invite!` is called once on the list that
  `extract_emails` returns, and the answer is 202 Accepted.

`extract_emails` cuts the string at every comma, keeps the fields that the
email-format validator accepts, and keeps at most the first 100 of them.

Two modules, both pure functions and lemmas, as in the controller itself:

- `RubyCore` (`ruby_core.dfy`): the Ruby and ActiveSupport semantics that the
  controller relies on. `blank?` is covered for nil and for strings, with
  `[[:space:]]` taken as the Unicode White_Space characters.
  `String#split(',')` cuts at every comma, keeps fields verbatim with no
  trimming, and drops trailing empty fields. `Array#select` and
  `Array#first(n)` complete the set. `Join` (`Array#join(',')`) and
  `SplitAll` (the cut at every comma) are mutual inverses; `Split` undoes
  `Join` on lists whose last field is non-empty. `FirstSatisfying` is a
  one-pass reference for "the first n elements that pass", and `SkipSpaces`
  one for `blank?`.
- `InvitationsController` (`invitations.dfy`): `ExtractEmails`, and `Bulk`
  with its outcome datatype. These come with `Status`, `ErrorKey` (the
  translation key of `errors.emails`) and `InviteCalls` (the argument lists of
  the `bulk_invite!` calls made).

The email validator is unknown, so it is a parameter `valid: string -> bool`.
The invitation service is outside the model: the outcome records the list
the service is called with.

With `emails="a@x.com, not-an-email, b@y.com"` the code does not trim, so
the validator is asked about `" b@y.com"` with its leading space. Whether
that address is invited depends on the validator (`SpacedExampleSplit`,
`BulkSpacedExample`).

The outcome type records at most one `bulk_invite!` call per request: the
`Invited` outcome carries one list, the two errors carry none.

## Model

| member | source | states |
|---|---|---|
| `RubyCore.IsSpace` | engines/onboarding/app/controllers/onboarding/api/v1/invitations_controller.rb:16 | the characters of `[[:space:]]` in a Unicode string: U+0009 to U+000D, space, U+0085, U+00A0, U+1680, U+2000 to U+200A, U+2028, U+2029, U+202F, U+205F, U+3000 |
| `RubyCore.IsBlank` | engines/onboarding/app/controllers/onboarding/api/v1/invitations_controller.rb:16 | ActiveSupport's `blank?` on the parameter: nil, or a string of `[[:space:]]` characters only (the empty string included) |
| `RubyCore.BlankIffSkipSpaces` | engines/onboarding/app/controllers/onboarding/api/v1/invitations_controller.rb:16 | a string is blank exactly when skipping its leading white space leaves nothing, and a concatenation is blank exactly when both parts are |
| `RubyCore.SplitAll` | engines/onboarding/app/controllers/onboarding/api/v1/invitations_controller.rb:95 | cutting at every comma gives at least one field, and no field holds a comma |
| `RubyCore.JoinSplitAll` | engines/onboarding/app/controllers/onboarding/api/v1/invitations_controller.rb:95 | joining the fields back with commas rebuilds the input exactly: nothing is trimmed or lost |
| `RubyCore.SplitAllJoin` | engines/onboarding/app/controllers/onboarding/api/v1/invitations_controller.rb:95 | cutting a comma-join of comma-free fields gives those fields back, so the fields are determined by the input |
| `RubyCore.SplitAllCount` | engines/onboarding/app/controllers/onboarding/api/v1/invitations_controller.rb:95 | a string has exactly one field more than it has commas |
| `RubyCore.DropTrailingEmpty` | engines/onboarding/app/controllers/onboarding/api/v1/invitations_controller.rb:95 | the result is a prefix of the fields, ends in a non-empty field or is empty, and only empty fields were dropped |
| `RubyCore.Split` | engines/onboarding/app/controllers/onboarding/api/v1/invitations_controller.rb:95 | `split(',')` returns comma-free fields, a prefix of all the comma-delimited fields, with the last one non-empty and only empty fields dropped after it |
| `RubyCore.SplitVerbatim` | engines/onboarding/app/controllers/onboarding/api/v1/invitations_controller.rb:95 | every field `split(',')` returns is a verbatim slice of the input bounded by commas or the string's ends |
| `RubyCore.SplitEmptyIff` | engines/onboarding/app/controllers/onboarding/api/v1/invitations_controller.rb:95 | `split(',')` returns no field exactly when the input holds commas only (the empty string included) |
| `RubyCore.SplitJoin` | engines/onboarding/app/controllers/onboarding/api/v1/invitations_controller.rb:95 | `fields.join(',').split(',') == fields` for comma-free fields that are none at all or end in a non-empty one |
| `RubyCore.SplitNoComma` | engines/onboarding/app/controllers/onboarding/api/v1/invitations_controller.rb:95 | a non-empty string without commas is a single field |
| `RubyCore.SplitExample` | engines/onboarding/app/controllers/onboarding/api/v1/invitations_controller.rb:95 | `"a,,b,"` splits into `"a"`, `""`, `"b"`: inner empty fields stay, trailing ones go |
| `RubyCore.Select` | engines/onboarding/app/controllers/onboarding/api/v1/invitations_controller.rb:96 | `select` returns no more elements than it was given, all of them accepted, and x is in the result exactly when x is in the input and accepted |
| `RubyCore.SelectKeepsOrderAndCount` | engines/onboarding/app/controllers/onboarding/api/v1/invitations_controller.rb:96 | `select` keeps the input order (a subsequence) and every accepted element as many times as it occurs |
| `RubyCore.SelectNone` | engines/onboarding/app/controllers/onboarding/api/v1/invitations_controller.rb:96 | `select` is empty when no element is accepted |
| `RubyCore.First` | engines/onboarding/app/controllers/onboarding/api/v1/invitations_controller.rb:97 | `first(n)` is a prefix of length min(n, size) |
| `RubyCore.FirstOfSelect` | engines/onboarding/app/controllers/onboarding/api/v1/invitations_controller.rb:94-97 | `select(...).first(n)` equals the single pass that collects accepted elements until it has n |
| `InvitationsController.ExtractEmails` | engines/onboarding/app/controllers/onboarding/api/v1/invitations_controller.rb:91-98 | at most 100 results, every one accepted by the validator, none for a blank parameter |
| `InvitationsController.ExtractIsFirstAccepted` | engines/onboarding/app/controllers/onboarding/api/v1/invitations_controller.rb:94-97 | the result is exactly the first min(100, n) accepted fields of `split(',')`, in order |
| `InvitationsController.ExtractKeepsOrder` | engines/onboarding/app/controllers/onboarding/api/v1/invitations_controller.rb:94-97 | the result is a subsequence of the input's fields |
| `InvitationsController.ExtractKeepsAllWhenFew` | engines/onboarding/app/controllers/onboarding/api/v1/invitations_controller.rb:94-97 | with at most 100 accepted fields none is dropped: an address is returned exactly when it is an accepted field, as often as it occurs |
| `InvitationsController.ExtractCapsAtMax` | engines/onboarding/app/controllers/onboarding/api/v1/invitations_controller.rb:97 | with more than 100 accepted fields exactly the first 100 are returned |
| `InvitationsController.ExtractVerbatim` | engines/onboarding/app/controllers/onboarding/api/v1/invitations_controller.rb:95 | each returned address is a comma-free field of the input, taken verbatim with no trimming |
| `InvitationsController.ExtractEmptyIff` | engines/onboarding/app/controllers/onboarding/api/v1/invitations_controller.rb:92-97 | the result is empty exactly when the parameter is blank or the validator accepts none of its fields |
| `InvitationsController.Bulk` | engines/onboarding/app/controllers/onboarding/api/v1/invitations_controller.rb:13-35 | the "empty" error exactly for a blank parameter; the "invalid" error only when extraction found nothing; otherwise the service is called on the (non-empty) `extract_emails` result |
| `InvitationsController.Status` | engines/onboarding/app/controllers/onboarding/api/v1/invitations_controller.rb:17-31 | the response status: 400 (`:bad_request`) for both errors, 202 (`head :accepted`) after the service call |
| `InvitationsController.ErrorKey` | engines/onboarding/app/controllers/onboarding/api/v1/invitations_controller.rb:19-32 | the translation key of `errors.emails`: `onboarding.invitation.bulk.errors.empty` or `.invalid`, none on success |
| `InvitationsController.InviteCalls` | engines/onboarding/app/controllers/onboarding/api/v1/invitations_controller.rb:26 | the argument lists of the `bulk_invite!` calls: one list for `Invited`, none for the errors |
| `InvitationsController.BulkBlank` | engines/onboarding/app/controllers/onboarding/api/v1/invitations_controller.rb:16-21 | a blank parameter gives the "empty" error with 400, whatever the validator says (extraction plays no part), never the "invalid" one, and no service call |
| `InvitationsController.BulkInvalidIff` | engines/onboarding/app/controllers/onboarding/api/v1/invitations_controller.rb:23-34 | the "invalid" error is given exactly when the parameter is not blank and no field is accepted; it comes with 400 and no service call |
| `InvitationsController.BulkInvitesIff` | engines/onboarding/app/controllers/onboarding/api/v1/invitations_controller.rb:23-28 | the service is called exactly when the parameter is not blank and some field is accepted; then it is called once, on the `extract_emails` result (non-empty, at most 100, all accepted), and the answer is 202 with no error |
| `InvitationsController.BulkCommasOnly` | engines/onboarding/app/controllers/onboarding/api/v1/invitations_controller.rb:16-34 | a non-empty commas-only parameter is not blank but has no field, so every validator gives the "invalid" error |
| `InvitationsController.NoFieldsIff` | engines/onboarding/app/controllers/onboarding/api/v1/invitations_controller.rb:16-25 | a parameter passes the blank check yet splits into no field exactly when it is a non-empty string of commas |
| `InvitationsController.SpacedExampleSplit` | engines/onboarding/app/controllers/onboarding/api/v1/invitations_controller.rb:95 | `"a@x.com, not-an-email, b@y.com"` is cut into three fields, the last two keeping their leading space |
| `InvitationsController.BulkSpacedExample` | engines/onboarding/app/controllers/onboarding/api/v1/invitations_controller.rb:23-28 | for that input, with `a@x.com` accepted, the service receives the accepted ones among the three untrimmed fields |

## Left out

- Authentication, `authorize @group` and the `load_group` before-action (the 404 for an unknown group): framework hooks and a policy whose code is not part of this model. `Bulk` starts after they have passed.
- `params.require` / `permit`: `emails` is modelled as nil or a string. An array or hash value is dropped by `permit` and reaches the code as nil, which the model covers. Permitted scalars that are not strings are not modelled: a number or `true` is not blank, so `extract_emails` calls `split` on it and raises `NoMethodError` (a 500); `false` is blank and gives the "empty" error.
- String parameters are modelled as Unicode text. A value that is not valid UTF-8 makes `blank?` raise `ArgumentError` (a 500), and that path is not modelled.
- BulkInvitesIff: the `Invited` outcome with 202 assumes that `bulk_invite!` returns normally. `bulk` has no rescue, so if the service raises, the exception propagates and no 202 is sent; the model does not capture that path.
- The text of the translated messages: only their keys are modelled.
- `InvitationService#bulk_invite!` and `#accept!`, and `::EmailValidator`: their code is not part of this model. The validator is the parameter `valid`, and the service call is recorded in the outcome.
- `show` and `accept`: glue around a token lookup and a service call.
- The database schema and the group engine file: declarative tables and framework wiring, with no logic to model.
- Persistence, token generation and concurrency: outside the controller code.
