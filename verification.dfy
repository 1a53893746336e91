/**
 * The verification screen's state machine (`VerificationViewModel`).
 *
 * A search trims the typed text, checks it with the same blank and parse
 * rules as registration, looks the ID up, and lands in one of three outcomes:
 * not found, found (with a display category derived from the stored
 * registration type) or failed. As in the registration module, the launched
 * lookup is one atomic step, specified by the function `Verify`.
 */
module Verification {
  import opened Optional
  import opened KotlinText
  import opened Data

  /** The colour category the screen is painted with. */
  datatype BackgroundColorType = Default | NotFound | Full | Student | None

  /** The search text and the outcome of the last search. */
  datatype VerificationUiState = VerificationUiState(
    searchUserId: string,
    participant: Option<Participant>,
    isLoading: bool,
    errorMessage: Option<string>,
    backgroundColorType: BackgroundColorType)

  /** `VerificationUiState()` with every default. */
  const InitialState := VerificationUiState("", Option.None, false, Option.None, Default)

  const EnterUserId := "Please enter a User ID"
  const UserIdNotNumber := "User ID must be a valid number"

  function NotFoundMessage(id: Int32): string {
    "User ID " + IntToString(id) + " not found"
  }

  /**
   * The `when` over a found row's registration type: the three tiers
   * 1 (full), 2 (student) and 3 (none) get their own category, any other Int
   * the default one; a found row is never painted as not found.
   */
  function CategoryFor(registrationType: Int32): (c: BackgroundColorType)
    ensures c == Full <==> registrationType == 1
    ensures c == Student <==> registrationType == 2
    ensures c == BackgroundColorType.None <==> registrationType == 3
    ensures c == Default <==> !(1 <= registrationType <= 3)
    ensures c != NotFound
  {
    if registrationType == 1 then Full
    else if registrationType == 2 then Student
    else if registrationType == 3 then BackgroundColorType.None
    else Default
  }

  /** Each of the three tiers has a category of its own. */
  lemma CategoryDistinguishesTiers(a: Int32, b: Int32)
    requires 1 <= a <= 3 && 1 <= b <= 3
    ensures CategoryFor(a) == CategoryFor(b) <==> a == b
  {
  }

  /** What one search leaves behind: the published state and the store calls made. */
  datatype VerificationStep = VerificationStep(state: VerificationUiState, calls: seq<StoreCall>)

  /**
   * `verifyParticipant`; `fault` says whether the lookup throws. The typed
   * text is kept, at most one lookup is made, and the screen ends up showing
   * either a participant or an error message.
   */
  function Verify(s: VerificationUiState, t: Table, fault: Option<string>): (r: VerificationStep)
    ensures r.state.searchUserId == s.searchUserId
    ensures |r.calls| <= 1
    ensures r.state.participant.Some? || r.state.errorMessage.Some?
  {
    var userId := Trim(s.searchUserId);
    if IsBlank(userId) then
      VerificationStep(s.(errorMessage := Some(EnterUserId), participant := Option.None, backgroundColorType := Default), [])
    else match ToIntOrNull(userId)
      case None =>
        VerificationStep(s.(errorMessage := Some(UserIdNotNumber), participant := Option.None, backgroundColorType := Default), [])
      case Some(id) =>
        if fault.Some? then
          VerificationStep(s.(isLoading := false, errorMessage := Some(StoreFailureText(fault.value)),
                              participant := Option.None, backgroundColorType := Default), [GetById(id)])
        else match SelectById(t, id)
          case None =>
            VerificationStep(s.(isLoading := false, participant := Option.None,
                                errorMessage := Some(NotFoundMessage(id)), backgroundColorType := NotFound), [GetById(id)])
          case Some(p) =>
            VerificationStep(s.(isLoading := false, participant := Some(p),
                                errorMessage := Option.None, backgroundColorType := CategoryFor(p.registrationType)), [GetById(id)])
  }

  /** The ID a search looks up: the typed text, trimmed, when it parses as an Int. */
  function SearchedId(s: VerificationUiState): Option<Int32> {
    ToIntOrNull(Trim(s.searchUserId))
  }

  /** Text that is blank, even untrimmed, is rejected before the store is reached. */
  lemma {:induction false} VerifyRejectsBlank(s: VerificationUiState, t: Table, fault: Option<string>)
    requires IsBlank(s.searchUserId)
    ensures Verify(s, t, fault) ==
      VerificationStep(s.(errorMessage := Some(EnterUserId), participant := Option.None, backgroundColorType := Default), [])
  {
    TrimmedBlankIffBlank(s.searchUserId);
  }

  /** Non-blank text that does not parse once trimmed is rejected before the store is reached. */
  lemma {:induction false} VerifyRejectsNonNumber(s: VerificationUiState, t: Table, fault: Option<string>)
    requires !IsBlank(s.searchUserId) && SearchedId(s).None?
    ensures Verify(s, t, fault) ==
      VerificationStep(s.(errorMessage := Some(UserIdNotNumber), participant := Option.None, backgroundColorType := Default), [])
  {
    TrimmedBlankIffBlank(s.searchUserId);
  }

  /** An ID with no row: no participant, the not-found message naming the parsed ID, the not-found category. */
  lemma VerifyNotFound(s: VerificationUiState, t: Table)
    requires SearchedId(s).Some? && SearchedId(s).value !in t
    ensures var r := Verify(s, t, Option.None);
      && r.state == s.(isLoading := false, participant := Option.None,
                       errorMessage := Some(NotFoundMessage(SearchedId(s).value)), backgroundColorType := NotFound)
      && r.calls == [GetById(SearchedId(s).value)]
  {
  }

  /**
   * An ID with a row: exactly the stored row, carrying that ID, no error, not
   * loading, and the category of its registration type.
   */
  lemma VerifyFound(s: VerificationUiState, t: Table)
    requires KeyedByUserId(t)
    requires SearchedId(s).Some? && SearchedId(s).value in t
    ensures var id := SearchedId(s).value;
      var r := Verify(s, t, Option.None);
      && r.state.participant == Some(t[id])
      && r.state.participant.value.userId == id
      && r.state.errorMessage == Option.None
      && !r.state.isLoading
      && r.state.backgroundColorType == CategoryFor(t[id].registrationType)
      && r.calls == [GetById(id)]
  {
  }

  /**
   * Whatever the outcome, the typed text is kept untrimmed, at most one lookup
   * is made, exactly one of participant and error message is present, and the
   * not-found category shows exactly when a lookup completed without a row.
   */
  lemma {:induction false} VerifyOutcomes(s: VerificationUiState, t: Table, fault: Option<string>)
    ensures var r := Verify(s, t, fault);
      && r.state.searchUserId == s.searchUserId
      && (r.calls == [] <==> SearchedId(s).None?)
      && (r.calls != [] ==> r.calls == [GetById(SearchedId(s).value)])
      && (r.state.participant.Some? <==> r.state.errorMessage.None?)
      && (r.state.backgroundColorType == NotFound <==>
            SearchedId(s).Some? && fault.None? && SelectById(t, SearchedId(s).value).None?)
  {
    var userId := Trim(s.searchUserId);
    if IsBlank(userId) {
      BlankNeverParses(userId);
    }
  }

  /** Surrounding whitespace does not matter: two texts that trim alike give the same outcome. */
  lemma VerifySeesOnlyTrimmedText(s: VerificationUiState, a: string, b: string, t: Table, fault: Option<string>)
    requires Trim(a) == Trim(b)
    ensures Verify(s.(searchUserId := a), t, fault).state.(searchUserId := b)
         == Verify(s.(searchUserId := b), t, fault).state
  {
    var sa, sb := s.(searchUserId := a), s.(searchUserId := b);
    var userId := Trim(a);
    assert Trim(sa.searchUserId) == userId && Trim(sb.searchUserId) == userId;
    if !IsBlank(userId) && ToIntOrNull(userId).Some? {
      var id := ToIntOrNull(userId).value;
      assert Verify(sa, t, fault).calls == Verify(sb, t, fault).calls == [GetById(id)];
    }
  }

  /** A store exception: no participant, "Error: ..." and the default category. */
  lemma VerifyStoreFailure(s: VerificationUiState, t: Table, message: string)
    requires SearchedId(s).Some?
    ensures Verify(s, t, Some(message)).state
         == s.(isLoading := false, errorMessage := Some(StoreFailureText(message)),
               participant := Option.None, backgroundColorType := Default)
  {
  }

  /** No search leaves the screen loading. */
  lemma VerifySettles(s: VerificationUiState, t: Table, fault: Option<string>)
    requires !s.isLoading
    ensures !Verify(s, t, fault).state.isLoading
  {
  }

  /** `VerificationViewModel`: the published state and the repository it was built with. */
  class VerificationViewModel {
    const repository: ParticipantRepository
    var uiState: VerificationUiState

    ghost predicate Valid()
      reads this, repository
    {
      repository.Valid() && !uiState.isLoading
    }

    constructor (repository: ParticipantRepository)
      requires repository.Valid()
      ensures Valid() && this.repository == repository && uiState == InitialState
    {
      this.repository := repository;
      uiState := InitialState;
    }

    method UpdateSearchUserId(userId: string)
      requires Valid()
      modifies this
      ensures Valid()
      ensures uiState == old(uiState).(searchUserId := userId)
    {
      uiState := uiState.(searchUserId := userId);
    }

    /**
     * `verifyParticipant`. It may only append to the repository's call log, so
     * the table is not written; every state it publishes is a copy of the state
     * captured on entry.
     */
    method VerifyParticipant(fault: Option<string>)
      requires Valid()
      modifies this, repository`calls
      ensures Valid()
      ensures var r := Verify(old(uiState), repository.table, fault);
        uiState == r.state && repository.calls == old(repository.calls) + r.calls
    {
      var currentState := uiState;
      var userId := Trim(currentState.searchUserId);
      if IsBlank(userId) {
        uiState := currentState.(errorMessage := Some(EnterUserId), participant := Option.None,
                                 backgroundColorType := Default);
        return;
      }
      var userIdInt := ToIntOrNull(userId);
      if userIdInt.None? {
        uiState := currentState.(errorMessage := Some(UserIdNotNumber), participant := Option.None,
                                 backgroundColorType := Default);
        return;
      }
      uiState := currentState.(isLoading := true, errorMessage := Option.None);
      var lookedUp := repository.GetParticipantById(userIdInt.value, fault);
      match lookedUp {
        case Threw(message) =>
          uiState := currentState.(isLoading := false, errorMessage := Some(StoreFailureText(message)),
                                   participant := Option.None, backgroundColorType := Default);
        case Returned(participant) =>
          if participant.None? {
            uiState := currentState.(isLoading := false, participant := Option.None,
                                     errorMessage := Some(NotFoundMessage(userIdInt.value)),
                                     backgroundColorType := NotFound);
          } else {
            var bgType := CategoryFor(participant.value.registrationType);
            uiState := currentState.(isLoading := false, participant := participant,
                                     errorMessage := Option.None, backgroundColorType := bgType);
          }
      }
    }

    method ClearError()
      requires Valid()
      modifies this
      ensures Valid()
      ensures uiState == old(uiState).(errorMessage := Option.None)
    {
      uiState := uiState.(errorMessage := Option.None);
    }
  }
}
