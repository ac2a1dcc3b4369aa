# Replace-user transition and date filter, modelled in Dafny

This project models two parts of the CHT core framework.

**The sentinel's `create_user_for_contacts` transition.** A person contact can
carry a `user_for_contact.replace` map. Each key is the username of an account
linked to the contact. Each value names a replacement contact and has a status.
When a change to such a contact reaches the sentinel, every `READY` entry is
processed:

- the replacement contact is checked: it must exist, have a name and have a
  valid phone, and the old account must exist;
- the old account's password stops working;
- a new account `<slug of the name>-dddd` is created for the replacement
  contact, with token login active;
- a `token_login` message is queued for the replacement contact's phone.

A failing entry adds one error to the contact instead, with the code
`create_user_for_contacts_error'`. The outcome is recorded in the contact's info
document. The model sets `ok` when no entry failed. The transition is off when it is
disabled, or when the configuration is invalid (token login disabled, or no
`app_url`).

The model is a pure state transformer over a `World`. A world holds the
contacts, the accounts and their queued messages, the info records and the
settings. It is built from these modules:

- `Usernames`: slugs, the four-digit suffix, account document ids.
- `Model`: the data model, passwords and login.
- `Config`: configuration validation.
- `ReplaceUser`: one entry, and the pass over all entries of a map.
- `Dispatcher`: applicability, the saved contact and the info record.

**The date filter component of the web app.** This part covers range
validation, applying a range to the global filter, the range a picker
selection stands for, clearing, the count of selected dates and the input
label. It is in module `DateFilter`. `Common` holds `Option` and `Result`.

The transition's own implementation file is not part of this model. Its
behaviour is taken from the integration test that pins it down. The test is
cited below by line.

## Model

| member | source | states |
|---|---|---|
| `Usernames.Slug` | tests/integration/sentinel/transitions/create-user-for-contacts.spec.js:129-130 | The slug of a name is lower-case letters, digits and single hyphens. It is no longer than the name, and empty only for the empty name. It starts with a hyphen exactly when the name starts with a non-alphanumeric character. |
| `Usernames.SlugOfSlug` | tests/integration/sentinel/transitions/create-user-for-contacts.spec.js:129-130 | A well-formed slug is its own slug. So slugs are a normal form (proved by induction). |
| `Usernames.SlugIdempotent` | tests/integration/sentinel/transitions/create-user-for-contacts.spec.js:129-130 | Slugging twice gives the same result as slugging once. |
| `Usernames.SlugKeepsAlnums` | tests/integration/sentinel/transitions/create-user-for-contacts.spec.js:129-130 | Apart from its hyphens, the slug holds exactly the name's ASCII letters and digits, lower-cased and in order (a reference definition, proved by induction). |
| `Usernames.SlugHyphenPerRun` | tests/integration/sentinel/transitions/create-user-for-contacts.spec.js:129-130 | The slug has one hyphen for each maximal run of other characters in the name. |
| `Usernames.SlugOfAlnums` | tests/integration/sentinel/transitions/create-user-for-contacts.spec.js:129-130 | A name of letters and digits only has a slug of the same length, each character lower-cased in place (proved by induction). |
| `Usernames.SlugAppend` | tests/integration/sentinel/transitions/create-user-for-contacts.spec.js:129-130 | Cutting a name right after a letter or digit cuts the slug at the same place: the slug of the whole is the slug of the first part followed by the slug of the rest (proved by induction). |
| `Usernames.SlugOfRun` | tests/integration/sentinel/transitions/create-user-for-contacts.spec.js:129-130 | A non-empty run of non-alphanumeric characters followed by a letter, a digit or the end becomes exactly one hyphen in front of the slug of what follows (proved by induction). |
| `Usernames.SlugRunBecomesHyphen` | tests/integration/sentinel/transitions/create-user-for-contacts.spec.js:129-130 | For a name `a + s + b` with a maximal separator run `s`, the slug is `Slug(a) + "-" + Slug(b)`. Splitting a name at its runs and applying `SlugOfAlnums` to the blocks between them gives the slug of every name. |
| `Usernames.NewPersonSlug` | tests/integration/sentinel/transitions/create-user-for-contacts.spec.js:17-23 | The name "New Person" slugs to `new-person`. This is the prefix the test's username pattern requires. |
| `Usernames.NewPersonShape` | tests/integration/sentinel/transitions/create-user-for-contacts.spec.js:130 | A username generated for "New Person" is `new-person-` followed by four digits, 15 characters in all. |
| `Usernames.FourDigits` | tests/integration/sentinel/transitions/create-user-for-contacts.spec.js:129-130 | The suffix is exactly four decimal digits. |
| `Usernames.ParseFourDigitsOfFourDigits` | tests/integration/sentinel/transitions/create-user-for-contacts.spec.js:129-130 | Reading back a suffix gives the draw modulo 10000. |
| `Usernames.FourDigitsOfParse` | tests/integration/sentinel/transitions/create-user-for-contacts.spec.js:129-130 | Every four-digit string is the suffix of its own value. This is the other direction of the round trip. |
| `Usernames.GeneratedShape` | tests/integration/sentinel/transitions/create-user-for-contacts.spec.js:130 | A username has the tested shape `^<slug>-\d\d\d\d$` exactly when it is the slug, a hyphen and the suffix of some number below 10000. |
| `Usernames.MakeUsernameShape` | tests/integration/sentinel/transitions/create-user-for-contacts.spec.js:130 | Every generated username has the tested shape. |
| `Usernames.UserDocIdInjective` | tests/integration/sentinel/transitions/create-user-for-contacts.spec.js:129 | Two account document ids `org.couchdb.user:<name>` are equal exactly when the names are. So a message's `user` identifies one account. |
| `Model.SetPassword` | tests/integration/sentinel/transitions/create-user-for-contacts.spec.js:112-115 | After a password change, the account logs in with exactly the new password. The changed account differs from before only in its credential, which is the new password. The set of accounts and every other account are unchanged. |
| `Config.ConfigErrors` | tests/integration/sentinel/transitions/create-user-for-contacts.spec.js:296-318 | When the transition is enabled, a missing `app_url` and disabled token login are each reported, and each error at most once. No error is reported otherwise. |
| `Config.ActiveIffEnabledAndValid` | tests/integration/sentinel/transitions/create-user-for-contacts.spec.js:273-318 | The transition runs exactly when it is enabled, token login is enabled and `app_url` is set. |
| `ReplaceUser.Validate` | tests/integration/sentinel/transitions/create-user-for-contacts.spec.js:320-471 | An entry passes exactly when none of these failures holds: no replacement id, replacement contact missing, no name, no phone, invalid phone, old account missing. A rejected entry names a failure that holds, and no failure checked earlier holds. |
| `ReplaceUser.PickUsername` | tests/integration/sentinel/transitions/create-user-for-contacts.spec.js:129-130 | A picked username is free and has the generated shape. It is the first free one among the bounded candidates: every earlier candidate is taken. No username is picked exactly when every remaining candidate is taken. |
| `ReplaceUser.ReplaceOne` | tests/integration/sentinel/transitions/create-user-for-contacts.spec.js:108-138 | One entry is replaced exactly when validation passes and a free candidate exists. Then the old account is locked and others are untouched. The one new account has the old account's roles, the replacement's contact id, phone, name and facility, and token login. One `token_login` message is appended for it. A rejected entry names a failure that holds and is the first one. A username failure happens only when validation passes and every one of the ten candidate usernames is already taken. |
| `ReplaceUser.RunEntries` | tests/integration/sentinel/transitions/create-user-for-contacts.spec.js:202-271 | The pass keeps the entries' number. It changes only READY entries, and only to COMPLETE. There are as many new accounts plus errors as READY entries. Every error carries the stable code and is tied to the entry that failed. Exactly one message is queued per new account. Which entry produced which outcome is stated by the lemmas below. |
| `ReplaceUser.RunEntriesCreatesFreshAccounts` | tests/integration/sentinel/transitions/create-user-for-contacts.spec.js:241-258 | New usernames did not exist before and are pairwise distinct. The accounts after the pass are exactly the old ones plus the new ones. |
| `ReplaceUser.RunEntriesKeepsExistingAccounts` | tests/integration/sentinel/transitions/create-user-for-contacts.spec.js:195-199 | No account is deleted. An existing account changes at most by having its password disabled. An account that is not the key of a READY entry is left exactly as it was. |
| `ReplaceUser.RunEntriesAppendsMessages` | tests/integration/sentinel/transitions/create-user-for-contacts.spec.js:260-266 | Messages already queued stay in place. New messages are only appended. |
| `ReplaceUser.RunEntriesPairsMessages` | tests/integration/sentinel/transitions/create-user-for-contacts.spec.js:260-270 | The j-th new message is a `token_login` for the j-th new account, sent to that account's phone. |
| `ReplaceUser.RunEntriesTracesCreatedAccounts` | tests/integration/sentinel/transitions/create-user-for-contacts.spec.js:241-258 | Every new account comes from a distinct READY entry, in entry order. It is linked to that entry's replacement contact and has the roles of the account it replaces. |
| `ReplaceUser.RunEntriesTracesErrors` | tests/integration/sentinel/transitions/create-user-for-contacts.spec.js:67-77 | Every error comes from a distinct READY entry, in entry order, and that entry is left READY. Its failure holds against the accounts as they were before the pass. Or it is the username failure: the entry passes validation and every candidate username is taken among the accounts after the pass. |
| `ReplaceUser.RunEntriesAccountsForEveryEntry` | tests/integration/sentinel/transitions/create-user-for-contacts.spec.js:202-271 | Every READY entry ends either COMPLETE or READY. It is COMPLETE exactly when it created one of the new accounts, and READY exactly when it recorded one of the errors. |
| `ReplaceUser.RunEntriesRecordsEveryFailure` | tests/integration/sentinel/transitions/create-user-for-contacts.spec.js:67-77 | Every entry left READY has a recorded error whose failure holds for it. Or that error is the username failure, and every candidate username for the entry is taken after the pass. |
| `ReplaceUser.RunEntriesKeepsUncompletedAccounts` | tests/integration/sentinel/transitions/create-user-for-contacts.spec.js:195-199 | An account that is not the key of an entry the pass completed is left exactly as it was. |
| `ReplaceUser.RunEntriesKeepsFailedEntriesAccounts` | tests/integration/sentinel/transitions/create-user-for-contacts.spec.js:67-77 | When no two entries share a key, the old account of an entry that failed is left exactly as it was. |
| `ReplaceUser.RunEntriesLocksReplacedAccounts` | tests/integration/sentinel/transitions/create-user-for-contacts.spec.js:232-234 | Every entry that became COMPLETE has had its old account's password disabled. |
| `Dispatcher.HasReadyEntryIffCount` | tests/integration/sentinel/transitions/create-user-for-contacts.spec.js:473-499 | A replace map has an actionable entry exactly when its count of READY entries is positive. |
| `Dispatcher.ProcessChange` | tests/integration/sentinel/transitions/create-user-for-contacts.spec.js:104-109 | Processing a change touches only the changed contact and its info record. It always leaves an info record. It never removes or relinks an account, and only appends messages. |
| `Dispatcher.ProcessChangeIdempotent` | tests/integration/sentinel/transitions/create-user-for-contacts.spec.js:104-106 | A change delivered twice has the effect of one delivery. The recorded revision stops a second run. |
| `Dispatcher.InapplicableChangeIsNoOp` | tests/integration/sentinel/transitions/create-user-for-contacts.spec.js:473-541 | Each of these changes no contact and no account and records no outcome: a disabled transition, an invalid configuration, a non-person, no replace map, or a map without READY entries. |
| `Dispatcher.FailedReplacementRecordsOneError` | tests/integration/sentinel/transitions/create-user-for-contacts.spec.js:67-77 | A failing entry gives `ok` false. It adds exactly one error, with the stable code, naming a failure that holds. It creates no account and queues no message. |
| `Dispatcher.SuccessfulReplacement` | tests/integration/sentinel/transitions/create-user-for-contacts.spec.js:88-139 | The tested replacement gives `ok` true and no error. There is exactly one new account, linked to the replacement contact with all tested fields. There is exactly one `token_login` message, to the replacement's phone. The old account rejects every password until a new password is set, then accepts it. |
| `Dispatcher.ReplacedByLinksNewAccount` | tests/integration/sentinel/transitions/create-user-for-contacts.spec.js:118-119 | After one replacement, the accounts linked to the replacement contact are the ones linked before plus the new account. |
| `Dispatcher.NewPersonUsername` | tests/integration/sentinel/transitions/create-user-for-contacts.spec.js:129-130 | In the tested replacement of a contact by "New Person", the new username is `new-person-dddd`. |
| `Dispatcher.UnlistedAccountsUntouched` | tests/integration/sentinel/transitions/create-user-for-contacts.spec.js:195-199 | An account that is not the key of a READY entry keeps its contact link and exactly the passwords it accepted. |
| `Dispatcher.ReadyEntriesCount` | tests/integration/sentinel/transitions/create-user-for-contacts.spec.js:202-271 | Every READY entry yields one new account or one error, and `ok` holds exactly when there is no new error. Then there are as many new accounts and messages as READY entries. Each new message is a `token_login` for a distinct new account, sent to its phone. A change the transition runs on has at least one READY entry. |
| `Dispatcher.FailedEntriesKeepTheirAccounts` | tests/integration/sentinel/transitions/create-user-for-contacts.spec.js:67-77 | After a change, every entry still READY has one of the contact's new errors, and that error's failure holds for it. Or it is the username failure, and every candidate username for the entry is taken among the accounts after the change. When no two entries share a key, its old account is unchanged. |
| `DateFilter.ValidateDateRange` | webapp/src/ts/components/filters/date-filter/date-filter.component.ts:102-110 | A range is accepted exactly when it is absent, has an unset end, or does not end before it starts. The error is shown exactly when the range is rejected. |
| `DateFilter.ApplyFilter` | webapp/src/ts/components/filters/date-filter/date-filter.component.ts:112-126 | A rejected range leaves the filter and the searches alone. An accepted range becomes the filter's date. It emits one search, or none when the search is skipped. |
| `DateFilter.CreateDateRange` | webapp/src/ts/components/filters/date-filter/date-filter.component.ts:128-138 | Range mode takes both picked dates. A start-date picker replaces only `from` and keeps the current `to`. An end-date picker replaces only `to` and keeps `from`. |
| `DateFilter.PickDates` | webapp/src/ts/components/filters/date-filter/date-filter.component.ts:71-74 | A picker selection emits a search exactly when the resulting range is in order, and then becomes the filter's date. Otherwise the filter is unchanged and the error is shown. The component's own state changes only in whether the error is shown. |
| `DateFilter.Clear` | webapp/src/ts/components/filters/date-filter/date-filter.component.ts:140-142 | Clearing always passes validation. It unsets the filter's date, hides the error and emits a search unless it is skipped. |
| `DateFilter.CountSelected` | webapp/src/ts/components/filters/date-filter/date-filter.component.ts:144-147 | The count is 0 or 1. It is 1 exactly when the picker's own end is set: `from` for a start-date picker, `to` otherwise. |
| `DateFilter.SetLabel` | webapp/src/ts/components/filters/date-filter/date-filter.component.ts:149-169 | In range mode the label is the start, then the divider and the end when the end shows. A start-date picker shows only the start, and an end-date picker only the end. Nothing else changes. |
| `DateFilter.SingleLabelShowsSelectedEnd` | webapp/src/ts/components/filters/date-filter/date-filter.component.ts:144-169 | A single-date picker's label shows exactly the end it counts. It is empty when no date is selected, and the formatted date when one is. |
| `DateFilter.RangeLabelWithOnlyEnd` | webapp/src/ts/components/filters/date-filter/date-filter.component.ts:158-168 | A range with only an end date is labelled with the divider followed by that date. |
| `DateFilter.RangeLabelWithBothEnds` | webapp/src/ts/components/filters/date-filter/date-filter.component.ts:158-168 | A full range is labelled with the start, the divider and the end. |
| `DateFilter.EmptyRangeHasEmptyLabel` | webapp/src/ts/components/filters/date-filter/date-filter.component.ts:149-169 | In every mode, an unset range has the empty label. |
| `DateFilter.PickedEndIsSelected` | webapp/src/ts/components/filters/date-filter/date-filter.component.ts:128-147 | Once a single-date picker reads its picked range back, the picked date is the one it counts. |
| `DateFilter.ReapplyWithoutSearchIsNoOp` | webapp/src/ts/components/filters/date-filter/date-filter.component.ts:112-123 | Re-applying the filter's own date without a search changes nothing but hiding the error. |
| `DateFilter.ClearedFilterSelectsNothing` | webapp/src/ts/components/filters/date-filter/date-filter.component.ts:140-169 | After a clear, the cleared range validates, counts no selected date and has the empty label. |

## Left out

- The implementation file of the transition is not part of this model.
  - `ReplaceUser.Validate` checks failures in this order: id, replacement contact, name, phone, valid phone, old account. This order is a modelling choice. The test only checks one failure at a time, so it does not fix the order. The phone failures' texts (lines 368 and 395) read like account-creation errors, and the missing account is reported as a failed lookup (line 345). This suggests that the real code checks the phone only after it finds the old account. So an entry with both an invalid phone and a missing account may be reported differently by the real code.
  - Each rejection is one `Failure` value. The log texts and error messages are left out; only the stable code is kept.
  - The code keeps its trailing apostrophe, as the test spells it.
- The new account's facility is the replacement contact's parent. That is what the test checks (line 124). In the test's data the old account's place is the same clinic (lines 17-31), so copying it from the old account would also fit the test. This choice is the model's own.
- `Dispatcher.ReadyEntriesCount`: `ok` is set when no entry failed. No test mixes a passing and a failing entry in one change, so this rule for a mixed outcome is a modelling choice.
- `ReplaceUser.RunEntriesTracesErrors` states the cause of a username failure against the accounts after the whole pass, not the accounts at the moment the entry ran. Every candidate taken then is still taken after the pass, because accounts are only added. `RunEntriesRecordsEveryFailure` and `Dispatcher.FailedEntriesKeepTheirAccounts` state it the same way.
- `ReplaceUser.RunEntriesKeepsFailedEntriesAccounts` and `Dispatcher.FailedEntriesKeepTheirAccounts` require distinct keys. The stored replace map is an object, so its keys are distinct. The model's sequence could repeat a key, and for such a sequence this is not promised.
- `Usernames.Slug` covers ASCII only. Letters outside A-Z are not case-folded and count as separators, and leading or trailing separators are kept as a hyphen. For example, `Slug("é")` is `"-"`, and the name `b.` gives the username `b--1234` for draw 1234. The real slug function is not part of this model, and this is the model's own choice for names outside the tested `New Person`.
- Phone-number parsing is a parameter predicate (`PhoneCheck`).
- Random suffix digits are a parameter function (`Draws`) of the old username and the attempt number.
- The number of username attempts is a model constant (`MaxUsernameAttempts`, 10), because the real bound is not visible.
- Login over HTTP, status codes 302/401 and token delivery are left out. A credential is either a password or locked, and `CanLogin` stands for a successful login.
- `Model.SetPassword` stands for the admin password update the test performs. It does not model the users API.
- A queued message's nested `tasks[0].messages[0].to` is flattened to one recipient field.
- Concurrency, feed re-delivery races, transport failures and partial completion are left out. Each change is processed atomically. The re-delivery guard is the revision recorded in the info record.
- The configuration error disables every transition in the real system. The model covers only this transition.
- Date filter:
  - The store subscription (`ngOnInit`), the date-range picker set-up and its mobile class toggling (`ngAfterViewInit`), and DOM clean-up (`ngOnDestroy`) are left out. As a result, the component's own `dateRange` changes only when a caller sets it.
  - Dates are integers compared by value. JavaScript truthiness of a date value is modelled as presence (`Some`).
  - The `d MMM` date pipe is an arbitrary `Format` function. An empty formatted string counts as absent, as in the source.
