/** The request handlers the Electron main process registers with
    `ipcMain.handle`. Each one reads its fields from the payload, checks them,
    makes one call into the data layer or the simulation layer, and turns the
    outcome into a reply envelope: `{ success: true, ... }` with what the call
    returned, or `{ success: false, error }` with the message of whatever was
    thrown inside the handler's `try`.

    The layers behind the handlers are a `Backend`: one function per imported
    operation, from the arguments the handler passes to the way the call
    completes. A handler is a function of its payload and the backend, so a
    reply that does not depend on the backend is one given without calling
    it. */
module IpcHandlers {
  import opened JsValues
  import opened Text

  /** The reply a handler resolves with. `Failed(error)` is
      `{ success: false, error }`; each other variant is a
      `{ success: true, ... }` object with the named fields. */
  datatype Envelope =
    | Failed(error: string)
    | UserRegistered(userId: JsValue)
    | ScenarioList(scenarios: JsValue)
    | ScenarioFound(scenario: JsValue)
    | SessionStarted(sessionId: JsValue, state: JsValue)
    | SessionState(state: JsValue)
    | NoteReply(note: JsValue)   // add-note and delete-note both answer `{ success: true, note }`
    | NoteList(notes: JsValue)
  {
    /** The envelope's `success` field. */
    predicate Success()
    {
      !Failed?
    }
  }

  /** The imported operations, each from its arguments to how the call
      completes. */
  datatype Backend = Backend(
    registerUser: (JsValue, JsValue, JsValue, JsValue) -> Outcome<JsValue>,
    getAllScenarios: () -> Outcome<JsValue>,
    getScenarioById: JsValue -> Outcome<JsValue>,
    startSession: (JsValue, JsValue) -> Outcome<JsValue>,
    getSessionState: JsValue -> Outcome<JsValue>,
    adjustMedication: (JsValue, JsValue, JsValue) -> Outcome<JsValue>,
    pauseSession: JsValue -> Outcome<JsValue>,
    resumeSession: JsValue -> Outcome<JsValue>,
    endSession: (JsValue, JsValue) -> Outcome<JsValue>,
    getSession: JsValue -> Outcome<JsValue>,
    addSessionNote: JsValue -> Outcome<JsValue>,
    getSessionNotes: JsValue -> Outcome<JsValue>,
    deleteSessionNote: JsValue -> Outcome<JsValue>)

  const ScenarioNotFound: string := "Scenario not found"
  const StartFieldsRequired: string := "scenarioId and userId are required"
  const SessionIdRequired: string := "sessionId is required"
  const AdjustFieldsRequired: string := "sessionId, medicationId, and numeric newDose are required"
  const NoteFieldsRequired: string := "sessionId, userId, and content are required"
  const SessionNotFound: string := "Session not found"
  const NoteIdRequired: string := "noteId is required"

  /** The options object end-sim passes to endSession. */
  const UserEndOptions: JsValue := Obj(map["reason" := Str("user_end")])

  /** register-user. The payload is destructured in the handler's parameter
      list, before the `try`: a null or undefined payload makes the handler
      itself reject instead of resolving with an envelope. Otherwise the four
      fields are passed to registerUser as they are, whatever their type. */
  function RegisterUser(payload: JsValue, b: Backend): (r: Outcome<Envelope>)
    ensures r.Threw? <==> Nullish(payload)
    ensures r.Threw? ==> r.message == EngineTypeError
    ensures r.Returned? ==>
              var o := b.registerUser(Field(payload, "first_name"), Field(payload, "last_name"),
                                      Field(payload, "username"), Field(payload, "email"));
              && (r.value.Success() <==> o.Returned?)
              && (o.Returned? ==> r.value == UserRegistered(o.value))
              && (o.Threw? ==> r.value == Failed(o.message))
  {
    if Nullish(payload) then Threw(EngineTypeError)
    else
      var o := b.registerUser(Get(payload, "first_name"), Get(payload, "last_name"),
                              Get(payload, "username"), Get(payload, "email"));
      Returned(match o
               case Returned(userId) => UserRegistered(userId)
               case Threw(m) => Failed(m))
  }

  /** get-all-scenarios: the listing as returned, or the thrown message. */
  function GetAllScenarios(b: Backend): (r: Envelope)
    ensures r.Success() <==> b.getAllScenarios().Returned?
    ensures r.Success() ==> r == ScenarioList(b.getAllScenarios().value)
    ensures !r.Success() ==> r == Failed(b.getAllScenarios().message)
  {
    match b.getAllScenarios()
    case Returned(scenarios) => ScenarioList(scenarios)
    case Threw(m) => Failed(m)
  }

  /** get-scenario: the id is the payload itself and is passed on unchecked;
      a falsy lookup result is reported as not found. */
  function GetScenario(scenarioId: JsValue, b: Backend): (r: Envelope)
    ensures r.Success() <==>
              b.getScenarioById(scenarioId).Returned? && Truthy(b.getScenarioById(scenarioId).value)
    ensures r.Success() ==> r == ScenarioFound(b.getScenarioById(scenarioId).value)
    ensures b.getScenarioById(scenarioId).Returned? && !r.Success() ==> r == Failed(ScenarioNotFound)
    ensures b.getScenarioById(scenarioId).Threw? ==> r == Failed(b.getScenarioById(scenarioId).message)
  {
    match b.getScenarioById(scenarioId)
    case Threw(m) => Failed(m)
    case Returned(scenario) => if !Truthy(scenario) then Failed(ScenarioNotFound) else ScenarioFound(scenario)
  }

  /** start-sim: both ids must be truthy (so 0, "" and a missing payload are
      refused before startSession is called); the reply carries the
      `sessionId` and `state` of what startSession returned, and a null or
      undefined result fails on its destructuring. */
  function StartSim(payload: JsValue, b: Backend): (r: Envelope)
    ensures !Truthy(Field(payload, "scenarioId")) || !Truthy(Field(payload, "userId")) ==>
              r == Failed(StartFieldsRequired)
    ensures Truthy(Field(payload, "scenarioId")) && Truthy(Field(payload, "userId")) ==>
              var o := b.startSession(Field(payload, "scenarioId"), Field(payload, "userId"));
              && (r.Success() <==> o.Returned? && !Nullish(o.value))
              && (r.Success() ==> r == SessionStarted(Get(o.value, "sessionId"), Get(o.value, "state")))
              && (o.Threw? ==> r == Failed(o.message))
              && (o.Returned? && Nullish(o.value) ==> r == Failed(EngineTypeError))
  {
    var scenarioId := Field(payload, "scenarioId");
    var userId := Field(payload, "userId");
    if !Truthy(scenarioId) || !Truthy(userId) then Failed(StartFieldsRequired)
    else
      match b.startSession(scenarioId, userId)
      case Threw(m) => Failed(m)
      case Returned(started) =>
        if Nullish(started) then Failed(EngineTypeError)
        else SessionStarted(Get(started, "sessionId"), Get(started, "state"))
  }

  /** get-sim-state: a truthy sessionId is passed to getSessionState. */
  function GetSimState(payload: JsValue, b: Backend): (r: Envelope)
    ensures !Truthy(Field(payload, "sessionId")) ==> r == Failed(SessionIdRequired)
    ensures Truthy(Field(payload, "sessionId")) ==>
              var o := b.getSessionState(Field(payload, "sessionId"));
              && (r.Success() <==> o.Returned?)
              && (o.Returned? ==> r == SessionState(o.value))
              && (o.Threw? ==> r == Failed(o.message))
  {
    var sessionId := Field(payload, "sessionId");
    if !Truthy(sessionId) then Failed(SessionIdRequired)
    else
      match b.getSessionState(sessionId)
      case Returned(state) => SessionState(state)
      case Threw(m) => Failed(m)
  }

  /** adjust-sim-medication: sessionId and medicationId must be truthy and
      newDose of type number (NaN and the infinities included); the three
      values are forwarded unchanged. */
  function AdjustSimMedication(payload: JsValue, b: Backend): (r: Envelope)
    ensures !Truthy(Field(payload, "sessionId")) || !Truthy(Field(payload, "medicationId"))
            || !Field(payload, "newDose").Num? ==>
              r == Failed(AdjustFieldsRequired)
    ensures Truthy(Field(payload, "sessionId")) && Truthy(Field(payload, "medicationId"))
            && Field(payload, "newDose").Num? ==>
              var o := b.adjustMedication(Field(payload, "sessionId"), Field(payload, "medicationId"),
                                          Field(payload, "newDose"));
              && (r.Success() <==> o.Returned?)
              && (o.Returned? ==> r == SessionState(o.value))
              && (o.Threw? ==> r == Failed(o.message))
  {
    var sessionId := Field(payload, "sessionId");
    var medicationId := Field(payload, "medicationId");
    var newDose := Field(payload, "newDose");
    if !Truthy(sessionId) || !Truthy(medicationId) || !newDose.Num? then Failed(AdjustFieldsRequired)
    else
      match b.adjustMedication(sessionId, medicationId, newDose)
      case Returned(state) => SessionState(state)
      case Threw(m) => Failed(m)
  }

  /** pause-sim: a truthy sessionId is passed to pauseSession. */
  function PauseSim(payload: JsValue, b: Backend): (r: Envelope)
    ensures !Truthy(Field(payload, "sessionId")) ==> r == Failed(SessionIdRequired)
    ensures Truthy(Field(payload, "sessionId")) ==>
              var o := b.pauseSession(Field(payload, "sessionId"));
              && (r.Success() <==> o.Returned?)
              && (o.Returned? ==> r == SessionState(o.value))
              && (o.Threw? ==> r == Failed(o.message))
  {
    var sessionId := Field(payload, "sessionId");
    if !Truthy(sessionId) then Failed(SessionIdRequired)
    else
      match b.pauseSession(sessionId)
      case Returned(state) => SessionState(state)
      case Threw(m) => Failed(m)
  }

  /** resume-sim: a truthy sessionId is passed to resumeSession. */
  function ResumeSim(payload: JsValue, b: Backend): (r: Envelope)
    ensures !Truthy(Field(payload, "sessionId")) ==> r == Failed(SessionIdRequired)
    ensures Truthy(Field(payload, "sessionId")) ==>
              var o := b.resumeSession(Field(payload, "sessionId"));
              && (r.Success() <==> o.Returned?)
              && (o.Returned? ==> r == SessionState(o.value))
              && (o.Threw? ==> r == Failed(o.message))
  {
    var sessionId := Field(payload, "sessionId");
    if !Truthy(sessionId) then Failed(SessionIdRequired)
    else
      match b.resumeSession(sessionId)
      case Returned(state) => SessionState(state)
      case Threw(m) => Failed(m)
  }

  /** end-sim: a truthy sessionId is passed to endSession, always with the
      reason "user_end", whatever else the payload holds. */
  function EndSim(payload: JsValue, b: Backend): (r: Envelope)
    ensures !Truthy(Field(payload, "sessionId")) ==> r == Failed(SessionIdRequired)
    ensures Truthy(Field(payload, "sessionId")) ==>
              var o := b.endSession(Field(payload, "sessionId"), Obj(map["reason" := Str("user_end")]));
              && (r.Success() <==> o.Returned?)
              && (o.Returned? ==> r == SessionState(o.value))
              && (o.Threw? ==> r == Failed(o.message))
  {
    var sessionId := Field(payload, "sessionId");
    if !Truthy(sessionId) then Failed(SessionIdRequired)
    else
      match b.endSession(sessionId, UserEndOptions)
      case Returned(state) => SessionState(state)
      case Threw(m) => Failed(m)
  }

  /** `content?.trim()` read as a condition: null and undefined give a falsy
      undefined, a string is truthy when its trimmed text is non-empty, and
      any other value has no `trim` method to call, so the call throws. */
  function ContentGiven(content: JsValue): (r: Outcome<bool>)
    ensures r.Threw? <==> !Nullish(content) && !content.Str?
    ensures r.Threw? ==> r.message == EngineTypeError
    ensures r == Returned(true) <==> content.Str? && !AllWhitespace(content.s)
  {
    match content
    case Undefined => Returned(false)
    case Null => Returned(false)
    case Str(s) =>
      TrimEmptyIffBlank(s);
      Returned(Trim(s) != "")
    case _ => Threw(EngineTypeError)
  }

  /** The object add-note passes to addSessionNote: the four fields as read,
      with a null or undefined snapshot replaced by null. */
  function NoteRequest(sessionId: JsValue, userId: JsValue, content: JsValue, vitalsSnapshot: JsValue): (v: JsValue)
    ensures v.Obj? && v.props.Keys == {"sessionId", "userId", "content", "vitalsSnapshot"}
    ensures v.props["sessionId"] == sessionId && v.props["userId"] == userId && v.props["content"] == content
    ensures v.props["vitalsSnapshot"] == (if Nullish(vitalsSnapshot) then Null else vitalsSnapshot)
    ensures !v.props["vitalsSnapshot"].Undefined?
  {
    Obj(map["sessionId" := sessionId, "userId" := userId, "content" := content,
            "vitalsSnapshot" := Coalesce(vitalsSnapshot, Null)])
  }

  /** add-note: truthy sessionId and userId and non-blank string content are
      checked in that order (the first falsy one stops the test), then the
      session must exist; only then is addSessionNote called, with the
      snapshot defaulted to null. A saved note therefore always had content
      that is not all whitespace. */
  function AddNote(payload: JsValue, b: Backend): (r: Envelope)
    ensures !Truthy(Field(payload, "sessionId")) || !Truthy(Field(payload, "userId")) ==>
              r == Failed(NoteFieldsRequired)
    ensures Truthy(Field(payload, "sessionId")) && Truthy(Field(payload, "userId")) ==>
              && (ContentGiven(Field(payload, "content")) == Returned(false) ==> r == Failed(NoteFieldsRequired))
              && (ContentGiven(Field(payload, "content")).Threw? ==> r == Failed(EngineTypeError))
    ensures r.Success() ==>
              && Truthy(Field(payload, "sessionId")) && Truthy(Field(payload, "userId"))
              && Field(payload, "content").Str? && !AllWhitespace(Field(payload, "content").s)
              && b.getSession(Field(payload, "sessionId")).Returned?
              && Truthy(b.getSession(Field(payload, "sessionId")).value)
    ensures r.Success() <==>
              && Truthy(Field(payload, "sessionId")) && Truthy(Field(payload, "userId"))
              && ContentGiven(Field(payload, "content")) == Returned(true)
              && b.getSession(Field(payload, "sessionId")).Returned?
              && Truthy(b.getSession(Field(payload, "sessionId")).value)
              && b.addSessionNote(NoteRequest(Field(payload, "sessionId"), Field(payload, "userId"),
                                              Field(payload, "content"), Field(payload, "vitalsSnapshot"))).Returned?
    ensures r.Success() ==>
              r == NoteReply(b.addSessionNote(NoteRequest(Field(payload, "sessionId"), Field(payload, "userId"),
                                                          Field(payload, "content"), Field(payload, "vitalsSnapshot"))).value)
    ensures ContentGiven(Field(payload, "content")) == Returned(true) && Truthy(Field(payload, "sessionId"))
            && Truthy(Field(payload, "userId")) && b.getSession(Field(payload, "sessionId")).Returned?
            && !Truthy(b.getSession(Field(payload, "sessionId")).value) ==>
              r == Failed(SessionNotFound)
    ensures ContentGiven(Field(payload, "content")) == Returned(true) && Truthy(Field(payload, "sessionId"))
            && Truthy(Field(payload, "userId")) && b.getSession(Field(payload, "sessionId")).Threw? ==>
              r == Failed(b.getSession(Field(payload, "sessionId")).message)
    ensures ContentGiven(Field(payload, "content")) == Returned(true) && Truthy(Field(payload, "sessionId"))
            && Truthy(Field(payload, "userId")) && b.getSession(Field(payload, "sessionId")).Returned?
            && Truthy(b.getSession(Field(payload, "sessionId")).value)
            && b.addSessionNote(NoteRequest(Field(payload, "sessionId"), Field(payload, "userId"),
                                            Field(payload, "content"), Field(payload, "vitalsSnapshot"))).Threw? ==>
              r == Failed(b.addSessionNote(NoteRequest(Field(payload, "sessionId"), Field(payload, "userId"),
                                                       Field(payload, "content"), Field(payload, "vitalsSnapshot"))).message)
  {
    var sessionId := Field(payload, "sessionId");
    var userId := Field(payload, "userId");
    var content := Field(payload, "content");
    var vitalsSnapshot := Field(payload, "vitalsSnapshot");
    if !Truthy(sessionId) || !Truthy(userId) then Failed(NoteFieldsRequired)
    else
      match ContentGiven(content)
      case Threw(m) => Failed(m)
      case Returned(given) =>
        if !given then Failed(NoteFieldsRequired)
        else
          match b.getSession(sessionId)
          case Threw(m) => Failed(m)
          case Returned(session) =>
            if !Truthy(session) then Failed(SessionNotFound)
            else
              match b.addSessionNote(NoteRequest(sessionId, userId, content, vitalsSnapshot))
              case Returned(note) => NoteReply(note)
              case Threw(m) => Failed(m)
  }

  /** get-notes: a truthy sessionId is passed to getSessionNotes. */
  function GetNotes(payload: JsValue, b: Backend): (r: Envelope)
    ensures !Truthy(Field(payload, "sessionId")) ==> r == Failed(SessionIdRequired)
    ensures Truthy(Field(payload, "sessionId")) ==>
              var o := b.getSessionNotes(Field(payload, "sessionId"));
              && (r.Success() <==> o.Returned?)
              && (o.Returned? ==> r == NoteList(o.value))
              && (o.Threw? ==> r == Failed(o.message))
  {
    var sessionId := Field(payload, "sessionId");
    if !Truthy(sessionId) then Failed(SessionIdRequired)
    else
      match b.getSessionNotes(sessionId)
      case Returned(notes) => NoteList(notes)
      case Threw(m) => Failed(m)
  }

  /** The object delete-note passes to deleteSessionNote. The userId is
      passed as read, undefined included: the ownership check belongs to
      deleteSessionNote. */
  function DeleteRequest(noteId: JsValue, userId: JsValue): (v: JsValue)
    ensures v.Obj? && v.props.Keys == {"noteId", "userId"}
    ensures v.props["noteId"] == noteId && v.props["userId"] == userId
  {
    Obj(map["noteId" := noteId, "userId" := userId])
  }

  /** delete-note: a truthy noteId is required; the note id and the user id
      are passed on together. */
  function DeleteNote(payload: JsValue, b: Backend): (r: Envelope)
    ensures !Truthy(Field(payload, "noteId")) ==> r == Failed(NoteIdRequired)
    ensures Truthy(Field(payload, "noteId")) ==>
              var o := b.deleteSessionNote(DeleteRequest(Field(payload, "noteId"), Field(payload, "userId")));
              && (r.Success() <==> o.Returned?)
              && (o.Returned? ==> r == NoteReply(o.value))
              && (o.Threw? ==> r == Failed(o.message))
  {
    var noteId := Field(payload, "noteId");
    if !Truthy(noteId) then Failed(NoteIdRequired)
    else
      match b.deleteSessionNote(DeleteRequest(noteId, Field(payload, "userId")))
      case Returned(note) => NoteReply(note)
      case Threw(m) => Failed(m)
  }

  /** A refused request gives the same reply whatever the backend would have
      done: the guards run before any backend call. */
  lemma GuardsPrecedeBackend(payload: JsValue, b1: Backend, b2: Backend)
    ensures !Truthy(Field(payload, "scenarioId")) || !Truthy(Field(payload, "userId")) ==>
              StartSim(payload, b1) == StartSim(payload, b2)
    ensures !Truthy(Field(payload, "sessionId")) ==>
              && GetSimState(payload, b1) == GetSimState(payload, b2)
              && AdjustSimMedication(payload, b1) == AdjustSimMedication(payload, b2)
              && PauseSim(payload, b1) == PauseSim(payload, b2)
              && ResumeSim(payload, b1) == ResumeSim(payload, b2)
              && EndSim(payload, b1) == EndSim(payload, b2)
              && AddNote(payload, b1) == AddNote(payload, b2)
              && GetNotes(payload, b1) == GetNotes(payload, b2)
    ensures !Truthy(Field(payload, "noteId")) ==> DeleteNote(payload, b1) == DeleteNote(payload, b2)
    ensures !ContentGiven(Field(payload, "content")).Returned? || !ContentGiven(Field(payload, "content")).value ==>
              AddNote(payload, b1) == AddNote(payload, b2)
  {
  }

  /** A saved note's content passes the notes store's own check: add-note
      never forwards content that addSessionNote would refuse as empty
      after trimming. */
  lemma SavedNoteContentNotBlank(payload: JsValue, b: Backend)
    requires AddNote(payload, b).Success()
    ensures var content := Field(payload, "content");
            content.Str? && Trim(content.s) != ""
  {
    TrimEmptyIffBlank(Field(payload, "content").s);
  }
}
