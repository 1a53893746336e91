/**
 * The registration screen's state machine (`RegistrationViewModel`).
 *
 * The view model holds one immutable `RegistrationUiState` and replaces it on
 * every intent. Each coroutine the view model launches runs here as one
 * atomic step, so a step is a function of the state before it, the table and
 * whether each store call throws: `EditUserId` for a user-ID edit with its
 * duplicate check, `Register` for a submit. The lemmas below state what those
 * steps promise, and the class's methods are proved to take exactly those
 * steps.
 */
module Registration {
  import opened Optional
  import opened KotlinText
  import opened Data

  /** The form draft and its status fields. */
  datatype RegistrationUiState = RegistrationUiState(
    userId: string,
    fullName: string,
    title: string,
    registrationType: Int32,
    photoPath: Option<string>,
    isLoading: bool,
    errorMessage: Option<string>,
    successMessage: Option<string>,
    duplicateIdWarning: Option<string>)

  /** `RegistrationUiState()` with every default. */
  const InitialState := RegistrationUiState("", "", "Prof.", 1, None, false, None, None, None)

  const UserIdRequired := "User ID is required"
  const UserIdNotNumber := "User ID must be a valid number"
  const FullNameRequired := "Full Name is required"
  const Registered := "Participant registered successfully!"

  /** The live warning quotes the text as typed. */
  function DuplicateWarning(userId: string): string {
    "Warning: User ID " + userId + " already exists. Please use a different ID."
  }

  /** The submit error quotes the parsed `Int`, so "007" is reported as 7. */
  function AlreadyExists(id: Int32): string {
    "User ID " + IntToString(id) + " already exists. Please use a different ID."
  }

  /** The draft fields of a form, the ones that become a row. */
  predicate SameDraft(a: RegistrationUiState, b: RegistrationUiState) {
    && a.userId == b.userId
    && a.fullName == b.fullName
    && a.title == b.title
    && a.registrationType == b.registrationType
    && a.photoPath == b.photoPath
  }

  /** The row a submit writes for the draft `s` whose user ID parsed as `id`. */
  function NewParticipant(s: RegistrationUiState, id: Int32): Participant {
    Participant(id, s.fullName, s.title, s.registrationType, s.photoPath)
  }

  /**
   * The form after a successful submit: the draft back to its defaults and a
   * success message. It is a copy of the state captured at submit time, so an
   * error message shown then is still shown.
   */
  function ClearedForm(s: RegistrationUiState): RegistrationUiState {
    s.(isLoading := false, successMessage := Some(Registered),
       userId := "", fullName := "", title := "Prof.", registrationType := 1,
       photoPath := None, duplicateIdWarning := None)
  }

  /** What one step leaves behind: the published state, the table and the store calls made. */
  datatype RegistrationStep = RegistrationStep(state: RegistrationUiState, table: Table, calls: seq<StoreCall>)

  /** `checkDuplicateId`: warn when the text parses and the store says the ID exists; store errors are ignored. */
  function DuplicateCheck(s: RegistrationUiState, userId: string, t: Table, fault: Option<string>): (r: RegistrationStep)
    ensures r.table == t && |r.calls| <= 1
    ensures r.state == s || r.state == s.(duplicateIdWarning := Some(DuplicateWarning(userId)))
  {
    match ToIntOrNull(userId)
    case None => RegistrationStep(s, t, [])
    case Some(id) =>
      var warned := fault.None? && UserIdExists(t, id);
      var s' := if warned then s.(duplicateIdWarning := Some(DuplicateWarning(userId))) else s;
      RegistrationStep(s', t, [CountById(id)])
  }

  /** `updateUserId`: take the text, drop the old warning, and check non-blank text for a duplicate. */
  function EditUserId(s: RegistrationUiState, userId: string, t: Table, fault: Option<string>): (r: RegistrationStep)
    ensures r.table == t && |r.calls| <= 1
    ensures r.state.userId == userId && r.state.errorMessage == s.errorMessage
  {
    var edited := s.(userId := userId, duplicateIdWarning := None);
    if IsBlank(userId) then RegistrationStep(edited, t, []) else DuplicateCheck(edited, userId, t, fault)
  }

  /**
   * `registerParticipant`: the three local checks in order, then the
   * existence check against the store, then the insert. `checkFault` and
   * `insertFault` say whether the existence check and the insert throw.
   */
  function Register(s: RegistrationUiState, t: Table, checkFault: Option<string>, insertFault: Option<string>): (r: RegistrationStep)
    ensures |r.calls| <= 2
    ensures r.table != t ==> LocallyValid(s) && r.table == Replace(t, NewParticipant(s, ToIntOrNull(s.userId).value))
    ensures r.state.successMessage == Some(Registered) || r.state.errorMessage.Some?
  {
    if IsBlank(s.userId) then
      RegistrationStep(s.(errorMessage := Some(UserIdRequired)), t, [])
    else match ToIntOrNull(s.userId)
      case None =>
        RegistrationStep(s.(errorMessage := Some(UserIdNotNumber)), t, [])
      case Some(id) =>
        if IsBlank(s.fullName) then
          RegistrationStep(s.(errorMessage := Some(FullNameRequired)), t, [])
        else if checkFault.Some? then
          RegistrationStep(s.(isLoading := false, errorMessage := Some(StoreFailureText(checkFault.value))), t, [CountById(id)])
        else if UserIdExists(t, id) then
          RegistrationStep(s.(errorMessage := Some(AlreadyExists(id))), t, [CountById(id)])
        else
          var p := NewParticipant(s, id);
          if insertFault.Some? then
            RegistrationStep(s.(isLoading := false, errorMessage := Some(StoreFailureText(insertFault.value))), t, [CountById(id), Insert(p)])
          else
            RegistrationStep(ClearedForm(s), Replace(t, p), [CountById(id), Insert(p)])
  }

  /** The draft passes the three checks that need no store: a non-blank Int user ID and a non-blank name. */
  predicate LocallyValid(s: RegistrationUiState) {
    !IsBlank(s.userId) && ToIntOrNull(s.userId).Some? && !IsBlank(s.fullName)
  }

  /** A submit that ends in a new row: locally valid, the ID absent, and no store call throws. */
  predicate Succeeds(s: RegistrationUiState, t: Table, checkFault: Option<string>, insertFault: Option<string>) {
    && LocallyValid(s)
    && checkFault.None?
    && insertFault.None?
    && !UserIdExists(t, ToIntOrNull(s.userId).value)
  }

  // ---------------------------------------------------------------------------
  // Editing the user ID

  /**
   * A user-ID edit stores the text as typed and touches no other draft or
   * status field except the warning, which it clears unless the duplicate check
   * sets it again; the table is never written, and blank text is not checked.
   */
  lemma EditUserIdFrame(s: RegistrationUiState, userId: string, t: Table, fault: Option<string>)
    ensures var r := EditUserId(s, userId, t, fault);
      && r.table == t
      && r.state == s.(userId := userId, duplicateIdWarning := r.state.duplicateIdWarning)
      && (IsBlank(userId) ==> r.calls == [] && r.state.duplicateIdWarning == None)
  {
  }

  /**
   * The duplicate warning appears exactly when the text parses as an Int, the
   * count query completes and finds that ID; it then quotes the text as typed.
   * The store is queried exactly when the text parses.
   */
  lemma {:induction false} DuplicateWarningIffStoredId(s: RegistrationUiState, userId: string, t: Table, fault: Option<string>)
    ensures var r := EditUserId(s, userId, t, fault);
      && (r.state.duplicateIdWarning.Some? <==>
            ToIntOrNull(userId).Some? && fault.None? && UserIdExists(t, ToIntOrNull(userId).value))
      && (r.state.duplicateIdWarning.Some? ==> r.state.duplicateIdWarning.value == DuplicateWarning(userId))
      && (r.calls == if ToIntOrNull(userId).Some? then [CountById(ToIntOrNull(userId).value)] else [])
      && r.state.errorMessage == s.errorMessage
  {
    if IsBlank(userId) {
      BlankNeverParses(userId);
    }
  }

  /**
   * The `isNotBlank` guard before the duplicate check changes nothing that can
   * be observed: blank text never parses, and unparsable text is not checked.
   */
  lemma {:induction false} BlankGuardIsRedundant(s: RegistrationUiState, userId: string, t: Table, fault: Option<string>)
    ensures EditUserId(s, userId, t, fault) == DuplicateCheck(s.(userId := userId, duplicateIdWarning := None), userId, t, fault)
  {
    if IsBlank(userId) {
      BlankNeverParses(userId);
    }
  }

  // ---------------------------------------------------------------------------
  // Submitting

  /**
   * The local checks run in the order blank ID, unparsable ID, blank name, and
   * the first that fails sets its message on an otherwise unchanged state
   * without any store call.
   */
  lemma RegisterValidationOrder(s: RegistrationUiState, t: Table, checkFault: Option<string>, insertFault: Option<string>)
    ensures var r := Register(s, t, checkFault, insertFault);
      && (IsBlank(s.userId) ==>
            r == RegistrationStep(s.(errorMessage := Some(UserIdRequired)), t, []))
      && (!IsBlank(s.userId) && ToIntOrNull(s.userId).None? ==>
            r == RegistrationStep(s.(errorMessage := Some(UserIdNotNumber)), t, []))
      && (ToIntOrNull(s.userId).Some? && IsBlank(s.fullName) ==>
            r == RegistrationStep(s.(errorMessage := Some(FullNameRequired)), t, []))
  {
    if IsBlank(s.userId) {
      BlankNeverParses(s.userId);
    }
  }

  /** The store is reached exactly when the local checks pass, and written to only after the ID was counted. */
  lemma RegisterStoreAccess(s: RegistrationUiState, t: Table, checkFault: Option<string>, insertFault: Option<string>)
    ensures var r := Register(s, t, checkFault, insertFault);
      && (r.calls == [] <==> !LocallyValid(s))
      && (LocallyValid(s) ==> r.calls[0] == CountById(ToIntOrNull(s.userId).value))
      && (|r.calls| == 2 <==> LocallyValid(s) && checkFault.None? && !UserIdExists(t, ToIntOrNull(s.userId).value))
      && (|r.calls| == 2 ==> r.calls[1] == Insert(NewParticipant(s, ToIntOrNull(s.userId).value)))
      && |r.calls| <= 2
  {
  }

  /**
   * A submit for an ID already in the table fails with a message naming the
   * parsed ID; the state is otherwise the one submitted and the table is not
   * written.
   */
  lemma RegisterRejectsExistingId(s: RegistrationUiState, t: Table, insertFault: Option<string>)
    requires LocallyValid(s) && UserIdExists(t, ToIntOrNull(s.userId).value)
    ensures var r := Register(s, t, None, insertFault);
      && r.state == s.(errorMessage := Some(AlreadyExists(ToIntOrNull(s.userId).value)))
      && r.table == t
  {
  }

  /**
   * A successful submit writes the row built from the submitted draft under
   * the parsed ID, keeps every other row, and resets the form: the draft to
   * its defaults, no warning, not loading, the success message set and the
   * error message carried over from the submitted state.
   */
  lemma RegisterSuccess(s: RegistrationUiState, t: Table)
    requires Succeeds(s, t, None, None)
    ensures var id := ToIntOrNull(s.userId).value;
      var r := Register(s, t, None, None);
      && SelectById(r.table, id) == Some(Participant(id, s.fullName, s.title, s.registrationType, s.photoPath))
      && (forall k | k != id :: SelectById(r.table, k) == SelectById(t, k))
      && r.state.userId == "" && r.state.fullName == "" && r.state.title == "Prof."
      && r.state.registrationType == 1 && r.state.photoPath == None
      && r.state.duplicateIdWarning == None && !r.state.isLoading
      && r.state.successMessage == Some(Registered)
      && r.state.errorMessage == s.errorMessage
  {
    var id := ToIntOrNull(s.userId).value;
    var r := Register(s, t, None, None);
    assert r.table == Replace(t, NewParticipant(s, id));
    forall k | k != id ensures SelectById(r.table, k) == SelectById(t, k) {
      ReplaceKeepsOtherRows(t, NewParticipant(s, id), k);
    }
  }

  /**
   * Every submit either succeeds and writes exactly the new row, or fails:
   * then the table is unchanged, an error message is set, and the draft,
   * the warning and the success message are those submitted.
   */
  lemma RegisterSucceedsOrKeepsDraft(s: RegistrationUiState, t: Table, checkFault: Option<string>, insertFault: Option<string>)
    ensures var r := Register(s, t, checkFault, insertFault);
      if Succeeds(s, t, checkFault, insertFault) then
        r.table == Replace(t, NewParticipant(s, ToIntOrNull(s.userId).value)) && r.state == ClearedForm(s)
      else
        && r.table == t
        && SameDraft(r.state, s)
        && r.state.errorMessage.Some?
        && r.state.successMessage == s.successMessage
        && r.state.duplicateIdWarning == s.duplicateIdWarning
  {
    if !Succeeds(s, t, checkFault, insertFault) {
      RegisterFailureKeepsDraft(s, t, checkFault, insertFault);
    }
  }

  /** A failed submit changes only the error and loading flags of the submitted state. */
  lemma RegisterFailureKeepsDraft(s: RegistrationUiState, t: Table, checkFault: Option<string>, insertFault: Option<string>)
    requires !Succeeds(s, t, checkFault, insertFault)
    ensures var r := Register(s, t, checkFault, insertFault);
      && r.table == t
      && r.state.errorMessage.Some?
      && r.state == s.(isLoading := r.state.isLoading, errorMessage := r.state.errorMessage)
  {
    if IsBlank(s.userId) {
      BlankNeverParses(s.userId);
    } else if ToIntOrNull(s.userId).Some? && !IsBlank(s.fullName) {
      var id := ToIntOrNull(s.userId).value;
      var r := Register(s, t, checkFault, insertFault);
      if checkFault.Some? {
        assert r.state == s.(isLoading := false, errorMessage := Some(StoreFailureText(checkFault.value)));
      } else if UserIdExists(t, id) {
        assert r.state == s.(errorMessage := Some(AlreadyExists(id)));
      } else {
        assert r.state == s.(isLoading := false, errorMessage := Some(StoreFailureText(insertFault.value)));
      }
    }
  }

  /**
   * Although the store's insert replaces, a submit never replaces a stored
   * row: every row of the table survives unchanged, and the only key that can
   * be added is the submitted one.
   */
  lemma RegisterNeverOverwrites(s: RegistrationUiState, t: Table, checkFault: Option<string>, insertFault: Option<string>)
    requires KeyedByUserId(t)
    ensures var r := Register(s, t, checkFault, insertFault);
      && (forall k | k in t :: k in r.table && r.table[k] == t[k])
      && (r.table.Keys != t.Keys ==> LocallyValid(s) && r.table.Keys == t.Keys + {ToIntOrNull(s.userId).value})
      && KeyedByUserId(r.table)
  {
    var r := Register(s, t, checkFault, insertFault);
    if Succeeds(s, t, checkFault, insertFault) {
      var id := ToIntOrNull(s.userId).value;
      CountIsZeroOrOne(t, id);
      assert id !in t;
      ReplaceKeepsKeyed(t, NewParticipant(s, id));
    } else {
      RegisterSucceedsOrKeepsDraft(s, t, checkFault, insertFault);
    }
  }

  /** A store exception at either call is shown as "Error: ...", the draft kept and the table unchanged. */
  lemma RegisterStoreFailure(s: RegistrationUiState, t: Table, checkFault: Option<string>, insertFault: Option<string>)
    requires LocallyValid(s)
    requires checkFault.Some? || (!UserIdExists(t, ToIntOrNull(s.userId).value) && insertFault.Some?)
    ensures var r := Register(s, t, checkFault, insertFault);
      var message := if checkFault.Some? then checkFault.value else insertFault.value;
      && r.state == s.(isLoading := false, errorMessage := Some(StoreFailureText(message)))
      && r.table == t
  {
  }

  /** No step leaves the form loading: the loading state exists only inside a step. */
  lemma StepsSettle(s: RegistrationUiState, t: Table, userId: string, checkFault: Option<string>, insertFault: Option<string>)
    requires !s.isLoading
    ensures !Register(s, t, checkFault, insertFault).state.isLoading
    ensures !EditUserId(s, userId, t, checkFault).state.isLoading
  {
  }

  /**
   * `RegistrationViewModel`: the published state and the repository it was
   * built with. Every method is one atomic step.
   */
  class RegistrationViewModel {
    const repository: ParticipantRepository
    var uiState: RegistrationUiState

    ghost predicate Valid()
      reads this, repository
    {
      repository.Valid() && !uiState.isLoading
    }

    constructor (repository: ParticipantRepository)
      requires repository.Valid()
      ensures Valid() && this.repository == repository && uiState == InitialState
    {
      this.repository := repository;
      uiState := InitialState;
    }

    /** `updateUserId`, with its duplicate check run to completion in the same step. */
    method UpdateUserId(userId: string, fault: Option<string>)
      requires Valid()
      modifies this, repository`calls
      ensures Valid()
      ensures var r := EditUserId(old(uiState), userId, old(repository.table), fault);
        uiState == r.state && repository.calls == old(repository.calls) + r.calls
      ensures repository.table == old(repository.table)
    {
      uiState := uiState.(userId := userId, duplicateIdWarning := None);
      if !IsBlank(userId) {
        CheckDuplicateId(userId, fault);
      }
    }

    /** `checkDuplicateId`: a store error is swallowed and leaves the state as it was. */
    method CheckDuplicateId(userId: string, fault: Option<string>)
      requires Valid()
      modifies this, repository`calls
      ensures Valid()
      ensures var r := DuplicateCheck(old(uiState), userId, old(repository.table), fault);
        uiState == r.state && repository.calls == old(repository.calls) + r.calls
      ensures repository.table == old(repository.table)
    {
      var idInt := ToIntOrNull(userId);
      if idInt.Some? {
        var counted := repository.CheckUserIdExists(idInt.value, fault);
        if counted == Returned(true) {
          uiState := uiState.(duplicateIdWarning := Some(DuplicateWarning(userId)));
        }
      }
    }

    method UpdateFullName(fullName: string)
      requires Valid()
      modifies this
      ensures Valid()
      ensures uiState == old(uiState).(fullName := fullName)
    {
      uiState := uiState.(fullName := fullName);
    }

    method UpdateTitle(title: string)
      requires Valid()
      modifies this
      ensures Valid()
      ensures uiState == old(uiState).(title := title)
    {
      uiState := uiState.(title := title);
    }

    method UpdateRegistrationType(registrationType: Int32)
      requires Valid()
      modifies this
      ensures Valid()
      ensures uiState == old(uiState).(registrationType := registrationType)
    {
      uiState := uiState.(registrationType := registrationType);
    }

    /** Only stores the path; a photo is never validated. */
    method UpdatePhotoPath(photoPath: Option<string>)
      requires Valid()
      modifies this
      ensures Valid()
      ensures uiState == old(uiState).(photoPath := photoPath)
    {
      uiState := uiState.(photoPath := photoPath);
    }

    /**
     * `registerParticipant`. Every state it publishes is a copy of the state
     * captured on entry; the loading state it passes through is overwritten
     * before the step ends.
     */
    method RegisterParticipant(checkFault: Option<string>, insertFault: Option<string>)
      requires Valid()
      modifies this, repository
      ensures Valid()
      ensures var r := Register(old(uiState), old(repository.table), checkFault, insertFault);
        && uiState == r.state
        && repository.table == r.table
        && repository.calls == old(repository.calls) + r.calls
    {
      var currentState := uiState;
      if IsBlank(currentState.userId) {
        uiState := currentState.(errorMessage := Some(UserIdRequired));
        return;
      }
      var userIdInt := ToIntOrNull(currentState.userId);
      if userIdInt.None? {
        uiState := currentState.(errorMessage := Some(UserIdNotNumber));
        return;
      }
      if IsBlank(currentState.fullName) {
        uiState := currentState.(errorMessage := Some(FullNameRequired));
        return;
      }
      var id := userIdInt.value;
      var counted := repository.CheckUserIdExists(id, checkFault);
      match counted {
        case Threw(message) =>
          uiState := currentState.(isLoading := false, errorMessage := Some(StoreFailureText(message)));
        case Returned(found) =>
          if found {
            uiState := currentState.(errorMessage := Some(AlreadyExists(id)));
            return;
          }
          uiState := currentState.(isLoading := true, errorMessage := None);
          var participant := Participant(id, currentState.fullName, currentState.title,
                                         currentState.registrationType, currentState.photoPath);
          var inserted := repository.InsertParticipant(participant, insertFault);
          match inserted {
            case Threw(message) =>
              uiState := currentState.(isLoading := false, errorMessage := Some(StoreFailureText(message)));
            case Returned(_) =>
              uiState := currentState.(isLoading := false, successMessage := Some(Registered),
                                       userId := "", fullName := "", title := "Prof.", registrationType := 1,
                                       photoPath := None, duplicateIdWarning := None);
          }
      }
    }

    method ClearError()
      requires Valid()
      modifies this
      ensures Valid()
      ensures uiState == old(uiState).(errorMessage := None)
    {
      uiState := uiState.(errorMessage := None);
    }

    method ClearSuccess()
      requires Valid()
      modifies this
      ensures Valid()
      ensures uiState == old(uiState).(successMessage := None)
    {
      uiState := uiState.(successMessage := None);
    }
  }
}
