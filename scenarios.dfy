/**
 * Both screens over one shared table: what a registration means to a later
 * verification, and a concrete check-in session driven through the two view
 * models.
 */
module Scenarios {
  import opened Optional
  import opened KotlinText
  import opened Data
  import opened Registration
  import opened Verification

  /**
   * After a successful registration, searching for the text that was
   * registered, or for the canonical decimal form of its ID, finds exactly the
   * row built from the submitted draft.
   */
  lemma {:induction false} RegisteredParticipantIsVerified(
    draft: RegistrationUiState, t: Table, search: VerificationUiState)
    requires KeyedByUserId(t) && Succeeds(draft, t, Option.None, Option.None)
    ensures var id := ToIntOrNull(draft.userId).value;
      var after := Register(draft, t, Option.None, Option.None).table;
      && Verify(search.(searchUserId := draft.userId), after, Option.None).state.participant
           == Some(NewParticipant(draft, id))
      && Verify(search.(searchUserId := IntToString(id)), after, Option.None).state.participant
           == Some(NewParticipant(draft, id))
  {
    var id := ToIntOrNull(draft.userId).value;
    var after := Register(draft, t, Option.None, Option.None).table;
    RegisterSuccess(draft, t);
    RegisterNeverOverwrites(draft, t, Option.None, Option.None);
    assert KeyedByUserId(after) && SelectById(after, id) == Some(NewParticipant(draft, id));
    SearchFinds(search, after, draft.userId, NewParticipant(draft, id));
    IntToStringRoundTrip(id);
    SearchFinds(search, after, IntToString(id), NewParticipant(draft, id));
  }

  /** A search for text that parses to the ID of a stored row finds that row. */
  lemma SearchFinds(search: VerificationUiState, t: Table, text: string, p: Participant)
    requires KeyedByUserId(t) && ToIntOrNull(text) == Some(p.userId) && SelectById(t, p.userId) == Some(p)
    ensures Verify(search.(searchUserId := text), t, Option.None).state.participant == Some(p)
  {
    var s2 := search.(searchUserId := text);
    assert s2.searchUserId == text;
    ParsedTextIsTrimmed(text);
    assert Trim(s2.searchUserId) == text;
    assert SearchedId(s2) == Some(p.userId);
    assert p.userId in t;
    VerifyFound(s2, t);
  }

  /**
   * Once an ID is registered, any later submit whose text parses to the same
   * ID (say "007" after "7") fails as a duplicate and leaves the table as it is.
   */
  lemma {:induction false} SecondRegistrationIsRejected(
    first: RegistrationUiState, second: RegistrationUiState, t: Table, insertFault: Option<string>)
    requires KeyedByUserId(t) && Succeeds(first, t, Option.None, Option.None)
    requires LocallyValid(second) && ToIntOrNull(second.userId) == ToIntOrNull(first.userId)
    ensures var id := ToIntOrNull(first.userId).value;
      var after := Register(first, t, Option.None, Option.None).table;
      var r := Register(second, after, Option.None, insertFault);
      && r.state == second.(errorMessage := Some(AlreadyExists(id)))
      && r.table == after
  {
    var id := ToIntOrNull(first.userId).value;
    var after := Register(first, t, Option.None, Option.None).table;
    RegisterNeverOverwrites(first, t, Option.None, Option.None);
    RegisterSuccess(first, t);
    ExistsIffSelected(after, id);
    RegisterRejectsExistingId(second, after, insertFault);
  }

  /**
   * Registration parses the user ID as typed while verification trims it
   * first: " 42" is not a number to the registration form but finds ID 42 on
   * the verification screen.
   */
  lemma PaddedIdOnlyVerifies()
    ensures ToIntOrNull(" 42") == Option.None
    ensures ToIntOrNull(Trim(" 42")) == Some(42)
  {
    assert !IsDigit(" 42"[0]) && !IsSign(" 42"[0]);
    TrimsToFortyTwo();
    ParsesFortyTwo();
  }

  lemma TrimsToFortyTwo()
    ensures Trim(" 42") == "42"
  {
    TrimStartDropsOneSpace();
    TrimKeepsTrimmed("42");
  }

  lemma TrimStartDropsOneSpace()
    ensures TrimStart(" 42") == TrimStart("42") == "42"
  {
    assert " 42"[1..] == "42";
  }

  lemma ParsesFortyTwo()
    ensures ToIntOrNull("42") == Some(42)
  {
    assert "42"[..1] == "4";
    assert "4"[..0] == "";
    assert DigitsValue("42") == 42;
  }

  /** The decimal rendering of an `Int` is what both screens read back as that `Int`. */
  lemma RenderedIdReadsBack(id: Int32)
    ensures !IsBlank(IntToString(id))
    ensures ToIntOrNull(IntToString(id)) == Some(id)
    ensures ToIntOrNull(Trim(IntToString(id))) == Some(id)
  {
    var text := IntToString(id);
    IntToStringRoundTrip(id);
    assert !IsWhitespace(text[|text| - 1]);
    ParsedTextIsTrimmed(text);
  }

  /**
   * A check-in session on a fresh table: register a participant under the
   * typed text of `id`, type the same ID again and submit again, then search
   * on a second screen sharing the table for `id` and for another ID.
   */
  method CheckInSession(id: Int32, fullName: string, title: string, registrationType: Int32, otherId: Int32)
    returns (registered: RegistrationUiState, duplicate: RegistrationUiState,
             found: VerificationUiState, missing: VerificationUiState)
    requires !IsBlank(fullName) && otherId != id
    ensures registered.successMessage == Some(Registration.Registered)
    ensures registered.userId == "" && registered.fullName == "" && registered.duplicateIdWarning == Option.None
    ensures duplicate.errorMessage == Some(AlreadyExists(id))
    ensures duplicate.duplicateIdWarning == Some(DuplicateWarning(IntToString(id)))
    ensures duplicate.userId == IntToString(id) && duplicate.fullName == fullName
    ensures found.participant == Some(Participant(id, fullName, title, registrationType, Option.None))
    ensures found.errorMessage == Option.None && found.backgroundColorType == CategoryFor(registrationType)
    ensures missing.participant == Option.None && missing.backgroundColorType == NotFound
    ensures missing.errorMessage == Some(NotFoundMessage(otherId))
  {
    var repository := new ParticipantRepository();
    var registration := new RegistrationViewModel(repository);
    registered := RegisterOnce(registration, id, fullName, title, registrationType);
    duplicate := RegisterAgain(registration, id, fullName);
    var verification := new VerificationViewModel(repository);
    found := SearchStored(verification, id);
    missing := SearchAbsent(verification, otherId);
  }

  /** The first registration of `id` on an empty table succeeds and stores the row. */
  method RegisterOnce(registration: RegistrationViewModel, id: Int32, fullName: string, title: string, registrationType: Int32)
    returns (registered: RegistrationUiState)
    requires registration.Valid() && registration.repository.table == map[]
    requires registration.uiState == Registration.InitialState && !IsBlank(fullName)
    modifies registration, registration.repository
    ensures registration.Valid() && registered == registration.uiState
    ensures registration.repository.table == map[id := Participant(id, fullName, title, registrationType, Option.None)]
    ensures registered.successMessage == Some(Registration.Registered)
    ensures registered.userId == "" && registered.fullName == "" && registered.duplicateIdWarning == Option.None
  {
    ghost var edited := EditUserId(registration.uiState, IntToString(id), map[], Option.None).state;
    registration.UpdateUserId(IntToString(id), Option.None);
    assert registration.uiState == edited;
    registration.UpdateFullName(fullName);
    registration.UpdateTitle(title);
    registration.UpdateRegistrationType(registrationType);
    ghost var draft := edited.(fullName := fullName, title := title, registrationType := registrationType);
    assert registration.uiState == draft;
    FirstSubmitSucceeds(edited, id, fullName, title, registrationType);
    registration.RegisterParticipant(Option.None, Option.None);
    registered := registration.uiState;
  }

  /** Typing `id` into the initial form on an empty table and submitting it with a name stores the row. */
  lemma FirstSubmitSucceeds(edited: RegistrationUiState, id: Int32, fullName: string, title: string, registrationType: Int32)
    requires edited == EditUserId(Registration.InitialState, IntToString(id), map[], Option.None).state
    requires !IsBlank(fullName)
    ensures var draft := edited.(fullName := fullName, title := title, registrationType := registrationType);
      var r := Register(draft, map[], Option.None, Option.None);
      && r.table == map[id := Participant(id, fullName, title, registrationType, Option.None)]
      && r.state.successMessage == Some(Registration.Registered)
      && r.state.userId == "" && r.state.fullName == "" && r.state.duplicateIdWarning == Option.None
  {
    var draft := edited.(fullName := fullName, title := title, registrationType := registrationType);
    RenderedIdReadsBack(id);
    EditUserIdFrame(Registration.InitialState, IntToString(id), map[], Option.None);
    assert draft.userId == IntToString(id) && draft.photoPath == Option.None;
    CountIsZeroOrOne(map[], id);
    assert Succeeds(draft, map[], Option.None, Option.None);
    RegisterSucceedsOrKeepsDraft(draft, map[], Option.None, Option.None);
  }

  /** Typing the same ID again shows the live warning, and submitting it fails as a duplicate. */
  method RegisterAgain(registration: RegistrationViewModel, id: Int32, fullName: string)
    returns (duplicate: RegistrationUiState)
    requires registration.Valid() && id in registration.repository.table && !IsBlank(fullName)
    modifies registration, registration.repository
    ensures registration.Valid() && duplicate == registration.uiState
    ensures registration.repository.table == old(registration.repository.table)
    ensures duplicate.errorMessage == Some(AlreadyExists(id))
    ensures duplicate.duplicateIdWarning == Some(DuplicateWarning(IntToString(id)))
    ensures duplicate.userId == IntToString(id) && duplicate.fullName == fullName
  {
    ghost var t := registration.repository.table;
    ghost var before := registration.uiState;
    ghost var edited := EditUserId(before, IntToString(id), t, Option.None).state;
    registration.UpdateUserId(IntToString(id), Option.None);
    assert registration.uiState == edited;
    registration.UpdateFullName(fullName);
    assert registration.uiState == edited.(fullName := fullName);
    ResubmitIsRejected(before, edited, t, id, fullName);
    registration.RegisterParticipant(Option.None, Option.None);
    duplicate := registration.uiState;
  }

  /** Typing a stored ID raises the warning, and submitting it with a name fails as a duplicate. */
  lemma ResubmitIsRejected(before: RegistrationUiState, edited: RegistrationUiState, t: Table, id: Int32, fullName: string)
    requires KeyedByUserId(t) && id in t && !IsBlank(fullName)
    requires edited == EditUserId(before, IntToString(id), t, Option.None).state
    ensures edited.duplicateIdWarning == Some(DuplicateWarning(IntToString(id)))
    ensures var r := Register(edited.(fullName := fullName), t, Option.None, Option.None);
      && r.state == edited.(fullName := fullName, errorMessage := Some(AlreadyExists(id)))
      && r.table == t
  {
    RenderedIdReadsBack(id);
    CountIsZeroOrOne(t, id);
    EditUserIdFrame(before, IntToString(id), t, Option.None);
    DuplicateWarningIffStoredId(before, IntToString(id), t, Option.None);
    RegisterRejectsExistingId(edited.(fullName := fullName), t, Option.None);
  }

  /** Searching for a stored ID finds its row. */
  method SearchStored(verification: VerificationViewModel, id: Int32) returns (found: VerificationUiState)
    requires verification.Valid() && id in verification.repository.table
    modifies verification, verification.repository`calls
    ensures verification.Valid()
    ensures found.participant == Some(verification.repository.table[id])
    ensures found.errorMessage == Option.None
    ensures found.backgroundColorType == CategoryFor(verification.repository.table[id].registrationType)
  {
    ghost var typed := verification.uiState.(searchUserId := IntToString(id));
    verification.UpdateSearchUserId(IntToString(id));
    assert verification.uiState == typed;
    SearchHits(typed, verification.repository.table, id);
    verification.VerifyParticipant(Option.None);
    found := verification.uiState;
  }

  lemma SearchHits(typed: VerificationUiState, t: Table, id: Int32)
    requires KeyedByUserId(t) && typed.searchUserId == IntToString(id) && id in t
    ensures var r := Verify(typed, t, Option.None).state;
      && r.participant == Some(t[id]) && r.errorMessage == Option.None
      && r.backgroundColorType == CategoryFor(t[id].registrationType)
  {
    RenderedIdReadsBack(id);
    assert SearchedId(typed) == Some(id);
    VerifyFound(typed, t);
  }

  /** Searching for an absent ID reports it not found. */
  method SearchAbsent(verification: VerificationViewModel, id: Int32) returns (missing: VerificationUiState)
    requires verification.Valid() && id !in verification.repository.table
    modifies verification, verification.repository`calls
    ensures verification.Valid()
    ensures missing.participant == Option.None && missing.backgroundColorType == NotFound
    ensures missing.errorMessage == Some(NotFoundMessage(id))
  {
    ghost var typed := verification.uiState.(searchUserId := IntToString(id));
    verification.UpdateSearchUserId(IntToString(id));
    assert verification.uiState == typed;
    SearchMisses(typed, verification.repository.table, id);
    verification.VerifyParticipant(Option.None);
    missing := verification.uiState;
  }

  lemma SearchMisses(typed: VerificationUiState, t: Table, id: Int32)
    requires typed.searchUserId == IntToString(id) && id !in t
    ensures var r := Verify(typed, t, Option.None).state;
      && r.participant == Option.None && r.backgroundColorType == NotFound
      && r.errorMessage == Some(NotFoundMessage(id))
  {
    RenderedIdReadsBack(id);
    assert SearchedId(typed) == Some(id);
    VerifyNotFound(typed, t);
  }
}
