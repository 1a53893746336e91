# Conference check-in: registration and verification, modelled in Dafny

The app has two screens over one on-device table of participants, keyed by
user ID. The registration screen edits a draft (user ID, full name, title,
registration type, photo path). While the user ID is being typed, it warns
when that ID is already taken. On submit it validates the draft and inserts
the row. The verification screen trims the typed ID, looks it up, and paints
the result in a category derived from the stored registration type.

The Dafny project is split into these modules:

- `Optional` (`optional.dfy`) models Kotlin's nullable `T?` as `Option<T>`.
- `KotlinText` (`kotlin_text.dfy`) models the standard-library text functions the view models use:
  - `Char.isWhitespace`, `isBlank` and `trim`;
  - `toIntOrNull` in radix 10, with Kotlin's 32-bit `Int` range;
  - `Int.toString`, used by the string templates that quote a parsed ID.
- `Data` (`data.dfy`) holds the `Participant` row and the table as a map from `userId` to row:
  - the DAO's REPLACE insert, point select and `COUNT(*)` query;
  - the `ParticipantRepository` class, which holds the table.

  A ghost log on the repository records every store call, so contracts can say whether the table was read or written at all.
- `Registration` (`registration.dfy`) models `RegistrationUiState` and the `RegistrationViewModel` class.
- `Verification` (`verification.dfy`) models `VerificationUiState`, `BackgroundColorType` and the `VerificationViewModel` class.
- `Scenarios` (`scenarios.dfy`) covers both screens over one shared table:
  - what a registration means to a later search;
  - a whole check-in session driven through the two view-model classes.

Each body that the view models launch as a coroutine is treated as one atomic step. A step is specified by a pure function of three things: the state before it, the table, and whether each store call throws. `EditUserId` and `DuplicateCheck` cover the user-ID edit, `Register` the submit, and `Verify` the search. The class methods are written statement by statement like the Kotlin code, including the transient loading state. Each method is proved to leave exactly the state, table and call log that its step function gives. The properties of the screens are proved as lemmas about those functions.

A thrown store exception is modelled as a `fault: Option<string>` parameter for each store call. `Some(m)` means that call throws with message `m`.

Two behaviours of the code are easy to miss, and the model makes both explicit:

- Registration parses the user ID exactly as typed, while verification trims it first. `Scenarios.PaddedIdOnlyVerifies` shows that `" 42"` is rejected by one screen and found by the other.
- A successful submit copies the state captured at submit time. So an error message shown before the submit is still shown afterwards, next to the success message (`Registration.RegisterSuccess`).

The live duplicate check publishes its warning into whatever state is current when the count returns. It does not compare the field against the value it checked. With atomic steps this is unobservable, so the model has no stale-result suppression either.

## Model

| member | source | states |
|---|---|---|
| KotlinText.IsWhitespace | app/src/main/java/com/example/myapplication/ui/viewmodel/VerificationViewModel.kt:43 | Kotlin's `Char.isWhitespace`: no digit and no sign character is whitespace |
| KotlinText.IsBlank | app/src/main/java/com/example/myapplication/ui/viewmodel/RegistrationViewModel.kt:83 | `isBlank`: the empty text is blank, and a non-empty blank text starts and ends with whitespace |
| KotlinText.TrimStartSpec | app/src/main/java/com/example/myapplication/ui/viewmodel/VerificationViewModel.kt:43 | what trimming the start keeps is a suffix not starting with whitespace, and what it drops is blank |
| KotlinText.TrimEndSpec | app/src/main/java/com/example/myapplication/ui/viewmodel/VerificationViewModel.kt:43 | what trimming the end keeps is a prefix not ending with whitespace, and what it drops is blank |
| KotlinText.Trim | app/src/main/java/com/example/myapplication/ui/viewmodel/VerificationViewModel.kt:43 | the trimmed text is empty exactly when the input is blank, and otherwise begins and ends with non-whitespace |
| KotlinText.TrimIsInfix | app/src/main/java/com/example/myapplication/ui/viewmodel/VerificationViewModel.kt:43 | the trimmed text is an infix of the input whose margins on both sides are blank |
| KotlinText.TrimIdempotent | app/src/main/java/com/example/myapplication/ui/viewmodel/VerificationViewModel.kt:43 | trimming twice gives the same text as trimming once |
| KotlinText.TrimmedBlankIffBlank | app/src/main/java/com/example/myapplication/ui/viewmodel/VerificationViewModel.kt:43-45 | the trimmed text is blank exactly when the untrimmed text is |
| KotlinText.ToIntOrNull | app/src/main/java/com/example/myapplication/ui/viewmodel/RegistrationViewModel.kt:88 | text that parses consists of an optional leading sign and then digits, ending in a digit; a negative value has a leading `-` |
| KotlinText.ToIntOrNullValue | app/src/main/java/com/example/myapplication/ui/viewmodel/RegistrationViewModel.kt:88 | an optional `-` or `+` followed by a non-empty run of digits, leading zeros allowed, parses to its signed value when that fits an `Int`, and to null when it does not |
| KotlinText.ParsedTextHasNoWhitespace | app/src/main/java/com/example/myapplication/ui/viewmodel/VerificationViewModel.kt:54 | text that parses as an `Int` contains no whitespace |
| KotlinText.ParsedTextIsTrimmed | app/src/main/java/com/example/myapplication/ui/viewmodel/VerificationViewModel.kt:43-54 | text that parses is unchanged by trimming |
| KotlinText.BlankNeverParses | app/src/main/java/com/example/myapplication/ui/viewmodel/RegistrationViewModel.kt:83-92 | blank text never parses, so the blank check before parsing only selects the message |
| KotlinText.NatToString | app/src/main/java/com/example/myapplication/ui/viewmodel/RegistrationViewModel.kt:105 | the rendering of a natural number is a non-empty run of digits without a leading zero |
| KotlinText.IntToString | app/src/main/java/com/example/myapplication/ui/viewmodel/VerificationViewModel.kt:74 | the rendering is non-empty and starts with `-` exactly for negative values |
| KotlinText.NatToStringValue | app/src/main/java/com/example/myapplication/ui/viewmodel/RegistrationViewModel.kt:105 | the digits rendered for `n` have the value `n` |
| KotlinText.IntToStringRoundTrip | app/src/main/java/com/example/myapplication/ui/viewmodel/VerificationViewModel.kt:74 | parsing the rendering of any `Int` gives that `Int` back |
| Data.SelectById | app/src/main/java/com/example/myapplication/data/ParticipantDao.kt:14-15 | the select returns a row exactly when the key is in the table, and that row is the stored one; absence is null, not an error |
| Data.CountByUserId | app/src/main/java/com/example/myapplication/data/ParticipantDao.kt:20-21 | the count for an ID is zero exactly when no row carries that ID |
| Data.UserIdExists | app/src/main/java/com/example/myapplication/data/ParticipantRepository.kt:18-20 | `count > 0`; when every row is filed under its own ID, this holds exactly when the ID is a key of the table |
| Data.Replace | app/src/main/java/com/example/myapplication/data/ParticipantDao.kt:11-12 | an insert adds the row's key to the table's keys and no other key |
| Data.CountIsZeroOrOne | app/src/main/java/com/example/myapplication/data/Participant.kt:8-9 | since `userId` is the primary key, the count for an ID is 1 if it is stored and 0 otherwise |
| Data.ExistsIffSelected | app/src/main/java/com/example/myapplication/data/ParticipantRepository.kt:18-20 | `count > 0` holds exactly when the point select finds a row |
| Data.SelectedRowHasKey | app/src/main/java/com/example/myapplication/data/ParticipantDao.kt:14-15 | a selected row carries the ID it was selected by |
| Data.ReplaceThenSelect | app/src/main/java/com/example/myapplication/data/ParticipantDao.kt:11-12 | after an insert the select returns the inserted row, whether or not the key was stored before |
| Data.ReplaceKeepsOtherRows | app/src/main/java/com/example/myapplication/data/ParticipantDao.kt:11-12 | an insert leaves the row of every other key as it was |
| Data.ReplaceIdempotent | app/src/main/java/com/example/myapplication/data/ParticipantDao.kt:11 | inserting the same row twice gives the table that one insert gives |
| Data.ReplaceKeepsKeyed | app/src/main/java/com/example/myapplication/data/Participant.kt:6-14 | an insert keeps every row filed under its own `userId` |
| Data.ParticipantRepository.constructor | app/src/main/java/com/example/myapplication/data/ParticipantRepository.kt:5 | a new repository has an empty table and has made no calls |
| Data.ParticipantRepository.InsertParticipant | app/src/main/java/com/example/myapplication/data/ParticipantRepository.kt:6-8 | the call is logged; a completed insert replaces the row for the key, and one that throws leaves the table unchanged |
| Data.ParticipantRepository.GetParticipantById | app/src/main/java/com/example/myapplication/data/ParticipantRepository.kt:10-12 | the call is logged; it returns the stored row or null, or throws, and the table is not written |
| Data.ParticipantRepository.CheckUserIdExists | app/src/main/java/com/example/myapplication/data/ParticipantRepository.kt:18-20 | the call is logged; it returns whether the count is positive, or throws, and the table is not written |
| Registration.DuplicateCheck | app/src/main/java/com/example/myapplication/ui/viewmodel/RegistrationViewModel.kt:61-77 | the duplicate check never writes the table, makes at most one call, and either leaves the state as it was or only sets the warning quoting the typed text |
| Registration.EditUserId | app/src/main/java/com/example/myapplication/ui/viewmodel/RegistrationViewModel.kt:37-43 | a user-ID edit stores the typed text, keeps the error message, never writes the table and makes at most one call |
| Registration.Register | app/src/main/java/com/example/myapplication/ui/viewmodel/RegistrationViewModel.kt:79-139 | a submit makes at most two store calls; the table changes only for a locally valid draft, and then only by inserting the draft's row under the parsed ID; every submit ends with either the success message or an error message |
| Registration.EditUserIdFrame | app/src/main/java/com/example/myapplication/ui/viewmodel/RegistrationViewModel.kt:37-43 | a user-ID edit sets the text and changes no other field except the warning; the table is never written, and blank text is not checked |
| Registration.DuplicateWarningIffStoredId | app/src/main/java/com/example/myapplication/ui/viewmodel/RegistrationViewModel.kt:61-76 | the warning appears exactly when the text parses, the count completes and the ID is stored, and it quotes the text as typed; the store is queried exactly when the text parses; the error message is untouched |
| Registration.BlankGuardIsRedundant | app/src/main/java/com/example/myapplication/ui/viewmodel/RegistrationViewModel.kt:40-41 | the blank guard before the duplicate check changes nothing observable |
| Registration.RegisterValidationOrder | app/src/main/java/com/example/myapplication/ui/viewmodel/RegistrationViewModel.kt:83-97 | blank ID, then unparsable ID, then blank name: the first failing check sets its message and nothing else, with no store call |
| Registration.RegisterStoreAccess | app/src/main/java/com/example/myapplication/ui/viewmodel/RegistrationViewModel.kt:99-120 | the store is reached exactly when the local checks pass; the count always comes first; the insert of the draft's row follows exactly when the count completes and finds nothing |
| Registration.RegisterRejectsExistingId | app/src/main/java/com/example/myapplication/ui/viewmodel/RegistrationViewModel.kt:102-108 | a submit for a stored ID changes only the error message, which names the parsed ID, and leaves the table unchanged |
| Registration.RegisterSuccess | app/src/main/java/com/example/myapplication/ui/viewmodel/RegistrationViewModel.kt:110-131 | a successful submit stores the draft's row under the parsed ID and keeps every other row; it resets the draft to its defaults, sets the success message and keeps the submitted error message |
| Registration.RegisterSucceedsOrKeepsDraft | app/src/main/java/com/example/myapplication/ui/viewmodel/RegistrationViewModel.kt:79-139 | a submit either succeeds, giving the new row and the cleared form, or fails with an error message, keeping the table, the draft, the warning and the success message |
| Registration.RegisterFailureKeepsDraft | app/src/main/java/com/example/myapplication/ui/viewmodel/RegistrationViewModel.kt:83-108 | a failed submit changes only the error message and the loading flag, and leaves the table unchanged |
| Registration.RegisterNeverOverwrites | app/src/main/java/com/example/myapplication/ui/viewmodel/RegistrationViewModel.kt:102-120 | despite the REPLACE insert, a submit never changes a stored row; the only key it can add is the submitted one |
| Registration.RegisterStoreFailure | app/src/main/java/com/example/myapplication/ui/viewmodel/RegistrationViewModel.kt:132-137 | an exception from the count or the insert shows as "Error: ...", stops loading, and keeps the draft and the table |
| Registration.StepsSettle | app/src/main/java/com/example/myapplication/ui/viewmodel/RegistrationViewModel.kt:110-136 | no step leaves the form loading |
| Registration.RegistrationViewModel.constructor | app/src/main/java/com/example/myapplication/ui/viewmodel/RegistrationViewModel.kt:29-34 | the form starts in the default state over the given repository |
| Registration.RegistrationViewModel.UpdateUserId | app/src/main/java/com/example/myapplication/ui/viewmodel/RegistrationViewModel.kt:37-43 | leaves exactly the state and store calls of `EditUserId`, and does not write the table |
| Registration.RegistrationViewModel.CheckDuplicateId | app/src/main/java/com/example/myapplication/ui/viewmodel/RegistrationViewModel.kt:61-77 | leaves exactly the state and store calls of `DuplicateCheck`; a store error is swallowed, and the table is not written |
| Registration.RegistrationViewModel.UpdateFullName | app/src/main/java/com/example/myapplication/ui/viewmodel/RegistrationViewModel.kt:45-47 | changes only the full name |
| Registration.RegistrationViewModel.UpdateTitle | app/src/main/java/com/example/myapplication/ui/viewmodel/RegistrationViewModel.kt:49-51 | changes only the title |
| Registration.RegistrationViewModel.UpdateRegistrationType | app/src/main/java/com/example/myapplication/ui/viewmodel/RegistrationViewModel.kt:53-55 | changes only the registration type |
| Registration.RegistrationViewModel.UpdatePhotoPath | app/src/main/java/com/example/myapplication/ui/viewmodel/RegistrationViewModel.kt:57-59 | changes only the photo path |
| Registration.RegistrationViewModel.RegisterParticipant | app/src/main/java/com/example/myapplication/ui/viewmodel/RegistrationViewModel.kt:79-139 | leaves exactly the state, table and store calls of `Register` |
| Registration.RegistrationViewModel.ClearError | app/src/main/java/com/example/myapplication/ui/viewmodel/RegistrationViewModel.kt:141-143 | clears only the error message |
| Registration.RegistrationViewModel.ClearSuccess | app/src/main/java/com/example/myapplication/ui/viewmodel/RegistrationViewModel.kt:145-147 | clears only the success message |
| Verification.CategoryFor | app/src/main/java/com/example/myapplication/ui/viewmodel/VerificationViewModel.kt:78-83 | the mapping is total: type 1 and only type 1 gives Full, 2 gives Student, 3 gives None, every other type gives Default, and no type gives NotFound |
| Verification.CategoryDistinguishesTiers | app/src/main/java/com/example/myapplication/ui/viewmodel/VerificationViewModel.kt:78-83 | the three tiers get three different categories |
| Verification.Verify | app/src/main/java/com/example/myapplication/ui/viewmodel/VerificationViewModel.kt:41-101 | a search keeps the typed text, makes at most one lookup, and ends with either a participant or an error message shown |
| Verification.VerifyRejectsBlank | app/src/main/java/com/example/myapplication/ui/viewmodel/VerificationViewModel.kt:43-52 | blank search text gives "Please enter a User ID", no participant and Default, with no store call |
| Verification.VerifyRejectsNonNumber | app/src/main/java/com/example/myapplication/ui/viewmodel/VerificationViewModel.kt:54-62 | non-blank text that does not parse once trimmed gives "User ID must be a valid number", no participant and Default, with no store call |
| Verification.VerifyNotFound | app/src/main/java/com/example/myapplication/ui/viewmodel/VerificationViewModel.kt:70-76 | an absent ID gives no participant, "User ID N not found" with the parsed ID, NotFound and not loading, after a single lookup |
| Verification.VerifyFound | app/src/main/java/com/example/myapplication/ui/viewmodel/VerificationViewModel.kt:77-90 | a stored ID gives exactly the stored row, with that ID, no error, not loading, and the category of its registration type |
| Verification.VerifyOutcomes | app/src/main/java/com/example/myapplication/ui/viewmodel/VerificationViewModel.kt:41-101 | the untrimmed text is kept; the store is read exactly when the trimmed text parses; exactly one of participant and error is present; NotFound shows exactly when a lookup completed without a row |
| Verification.VerifySeesOnlyTrimmedText | app/src/main/java/com/example/myapplication/ui/viewmodel/VerificationViewModel.kt:43 | two search texts that trim alike give the same outcome |
| Verification.VerifyStoreFailure | app/src/main/java/com/example/myapplication/ui/viewmodel/VerificationViewModel.kt:92-98 | an exception from the lookup gives "Error: ...", no participant, Default and not loading |
| Verification.VerifySettles | app/src/main/java/com/example/myapplication/ui/viewmodel/VerificationViewModel.kt:64-100 | no search leaves the screen loading |
| Verification.VerificationViewModel.constructor | app/src/main/java/com/example/myapplication/ui/viewmodel/VerificationViewModel.kt:29-35 | the screen starts in the default state over the given repository |
| Verification.VerificationViewModel.UpdateSearchUserId | app/src/main/java/com/example/myapplication/ui/viewmodel/VerificationViewModel.kt:37-39 | changes only the search text |
| Verification.VerificationViewModel.VerifyParticipant | app/src/main/java/com/example/myapplication/ui/viewmodel/VerificationViewModel.kt:41-101 | leaves exactly the state and store calls of `Verify`, and cannot write the table |
| Verification.VerificationViewModel.ClearError | app/src/main/java/com/example/myapplication/ui/viewmodel/VerificationViewModel.kt:103-105 | clears only the error message |
| Scenarios.RegisteredParticipantIsVerified | app/src/main/java/com/example/myapplication/ui/viewmodel/RegistrationViewModel.kt:112-120 | after a successful registration, searching for the typed ID or its decimal rendering finds exactly the row built from the draft |
| Scenarios.SecondRegistrationIsRejected | app/src/main/java/com/example/myapplication/ui/viewmodel/RegistrationViewModel.kt:102-108 | once an ID is registered, any submit whose text parses to the same ID (such as "007" after "7") fails as a duplicate and leaves the table unchanged |
| Scenarios.PaddedIdOnlyVerifies | app/src/main/java/com/example/myapplication/ui/viewmodel/VerificationViewModel.kt:43 | `" 42"` does not parse on the registration screen but finds ID 42 on the verification screen |
| Scenarios.RenderedIdReadsBack | app/src/main/java/com/example/myapplication/ui/viewmodel/VerificationViewModel.kt:43-54 | the decimal rendering of an ID is not blank and reads back as that ID, trimmed or not |
| Scenarios.CheckInSession | app/src/main/java/com/example/myapplication/ui/viewmodel/RegistrationViewModel.kt:37-139 | in one session on a fresh table, the first registration succeeds and a repeat shows the warning and is rejected; a search then finds the row and its category, and a search for another ID reports it not found |

## Left out

- Coroutine interleavings are not modelled. Each launched body is one atomic step. A late duplicate-check result applied after further edits, and edits made while a submit is pending, are therefore not represented.
- The transient `isLoading = true` states exist only inside a method body. No step leaves them published.
- `getParticipantByIdFlow` (a reactive `Flow` subscription) is not modelled, because neither screen's logic uses it.
- The Room database builder and its singleton are replaced by the repository's map-valued `table` field. The screens, navigation, camera and colour constants are UI only.
- Store exceptions are a parameter carrying the rendered exception message. Room's own failure conditions are not modelled.
- An insert that throws is assumed to leave the table unchanged.
- KotlinText.ToIntOrNull: accepts only ASCII digits. The JVM's `Character.digit` also accepts decimal digits of other scripts.
- KotlinText.IsWhitespace: lists the code points of `Character.isWhitespace` and `Character.isSpaceChar` for current Unicode versions. U+180E is not among them, although older Unicode versions counted it.
- Strings are sequences of Unicode scalar values rather than UTF-16 code units. No supplementary-plane character is whitespace. The supplementary planes do hold decimal digits, but Kotlin's `toIntOrNull` reads one UTF-16 unit at a time and a surrogate unit is never a digit. The model's `IsDigit` accepts only ASCII digits, so such text is rejected either way.
