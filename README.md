# Simulation lab back end and vitals display, modelled in Dafny

This project models the working core of a nursing-simulation desktop app
built on Electron: the data layer over its SQLite tables, the request
handlers the main process exposes to the renderer over IPC, and the
renderer's vitals summary.

- **Session notes** (`sessions.dfy`, module `Sessions`). A class `NotesTable`
  holds the `notes` table as a sequence of rows in rowid order.
  `AddSessionNote` trims the content, refuses blank content, and appends a
  row. `DeleteSessionNote` refuses an unknown id, and refuses a caller who
  names a user other than the note's owner. `GetSessionNotes` lists one
  session's notes ordered by the second of `createdAt` and then by id.
- **Users and scenarios** (`data_models.dfy`, module `DataModels`).
  `UserTable.RegisterUser` refuses a duplicate username or email.
  `ScenarioTable` creates, updates and deletes scenarios and reports whether
  a row changed. The lookups and listings are pure functions over the rows.
  Lemmas show that a created, updated or deleted scenario reads back as
  expected and that every other lookup is unchanged.
- **IPC handlers** (`ipc_handlers.dfy`, module `IpcHandlers`). Each handler
  is a pure function of its payload and a `Backend`. The `Backend` holds one
  function per imported data-layer or simulation operation, saying how a call
  with given arguments completes. A reply that does not mention the backend
  is one given before any backend call.
- **Vitals summary** (`simulation_formatting.dfy`, module
  `SimulationFormatting`). This module covers the finite-number test and the
  three formatters. `BuildVitalSummary` is a method that pushes one entry per
  present vital, as the source does. It is proved equal to `VitalSummary`, a
  selection over the fixed display order. Lemmas about that selection state
  which vitals appear, in what order, and when the placeholder `--` is shown.

Shared foundations:

- `js_values.dfy` (`JsValues`) models JavaScript values. It covers
  truthiness, `??`, property reads, payload destructuring, and thrown errors
  as `Outcome`.
- `json.dfy` (`Json`) models `JSON.stringify` and `JSON.parse` as an
  encode/decode pair. A value survives the round trip exactly when it is
  plain JSON data.
- `text.dfy` (`Text`) models `String.prototype.trim` and the decimal text of
  an integer.
- `tables.dfy` (`Tables`) models the by-id SQL statements over a row
  sequence.

Row ids follow SQLite's rule for an `INTEGER PRIMARY KEY` table without
`AUTOINCREMENT`: a new row gets one more than the largest id present, or 1 in
an empty table. So an id freed by deleting the last row is reused, which a
plain counter would never do.

`electron/main.js` imports `addSessionNote`, `getSessionNotes` and
`deleteSessionNote` from `./database/dataModels.js`, which neither defines
nor re-exports them. They are defined and exported by
`electron/database/models/sessions.js`. The handlers are modelled against
the functions as defined there.

## Model

| member | source | states |
|---|---|---|
| JsValues.Coalesce | electron/main.js:176 | definition of `v ?? fallback`: null and undefined are replaced, every other value is kept |
| JsValues.Get | electron/main.js:81 | definition of a property read on a non-nullish value: an object's own property, and undefined for a missing key or a non-object |
| JsValues.Field | electron/main.js:77 | `const { k } = payload ?? {}` never throws, and yields undefined for every key of a null, undefined or non-object payload |
| Json.Project | electron/database/dataModels.js:37 | what survives a JSON round trip is always plain JSON data |
| Json.Encode | electron/database/dataModels.js:37 | `JSON.stringify` has no text exactly for undefined, and its text denotes plain JSON data |
| Json.ParseColumn | electron/database/models/sessions.js:54-56 | definition of `column ? JSON.parse(column) : null`: NULL reads as null, any stored text as the document it spells (the round trip is `Json.ColumnRoundTrip`) |
| Json.ProjectJson | electron/database/dataModels.js:37 | plain JSON data passes through the projection unchanged |
| Json.RoundTrip | electron/database/dataModels.js:37-47 | parsing the stringified value gives its projection, and gives the value itself exactly when it is plain JSON data |
| Json.ColumnRoundTrip | electron/database/models/sessions.js:54-56 | a stored JSON column reads back as null for undefined and as the projection otherwise, the value itself for JSON data |
| Text.Trim | electron/database/models/sessions.js:10 | the trimmed text is the slice between the leading and trailing whitespace runs, and neither starts nor ends with whitespace |
| Text.TrimEmptyIffBlank | electron/database/models/sessions.js:10-13 | the trimmed content is empty exactly when the input is all whitespace |
| Text.TrimIdempotent | electron/database/models/sessions.js:10 | trimming twice gives the same text as trimming once |
| Text.NatToString | frontend/src/utils/simulationFormatting.js:18-20 | the decimal text of a natural is digits only, with no leading zero |
| Text.ParseIntToString | frontend/src/utils/simulationFormatting.js:18-20 | the printed text of a rounded reading parses back to the same integer |
| Text.IntToStringChars | frontend/src/utils/simulationFormatting.js:18-20 | an integer's text is non-empty and holds only a sign and digits |
| Tables.NextRowId | electron/database/models/sessions.js:30 | `lastInsertRowid` is positive and above every id in the table |
| Tables.Insert | electron/database/dataModels.js:14-26 | an insert appends exactly one row with the given columns, found under the new id, and keeps rowid order |
| Tables.Find | electron/database/models/sessions.js:62-64 | `WHERE id = ?` with `.get()` finds a row with that id, and finds nothing exactly when no row has it |
| Tables.FirstWhere | electron/database/dataModels.js:7-9 | a conditional `.get()` finds a row meeting the condition, and nothing exactly when no row meets it |
| Tables.Without | electron/database/models/sessions.js:71 | a delete keeps exactly the rows with another id |
| Tables.Replace | electron/database/dataModels.js:65-70 | an update keeps the number of rows and every id |
| Tables.FindOtherAfterInsert | electron/database/dataModels.js:33-38 | an insert leaves every lookup of another id unchanged |
| Tables.FindWithout | electron/database/dataModels.js:76 | after a delete the id is not found, and every other lookup is unchanged |
| Tables.WithoutSize | electron/database/dataModels.js:76-77 | a delete removes one row when the id is present and none otherwise |
| Tables.WithoutAscending | electron/database/models/sessions.js:71 | a delete keeps the table in rowid order |
| Tables.FindReplace | electron/database/dataModels.js:65-71 | after an update the id reads back with the new columns when it existed, and every other lookup is unchanged |
| Tables.ReplaceAscending | electron/database/dataModels.js:65-71 | an update keeps rowid order, and changes nothing when the id is absent |
| Tables.FindUnique | electron/database/dataModels.js:44-45 | in rowid order, each row is the one found under its own id |
| Sessions.StoredSnapshot | electron/database/models/sessions.js:25 | the snapshot column is written exactly when the snapshot is truthy, and then holds JSON data |
| Sessions.SnapshotRoundTrip | electron/database/models/sessions.js:25-56 | a stored snapshot reads back as null when it was falsy, and as itself when it was truthy JSON data |
| Sessions.Second | electron/database/models/sessions.js:47 | `datetime(createdAt)` keeps the whole second of a millisecond timestamp: the second s with s*1000 <= t < s*1000 + 1000 |
| Sessions.ListedBeforeStrictTotal | electron/database/models/sessions.js:47 | `ORDER BY datetime(createdAt) ASC, id ASC` is a strict total order on notes with distinct ids, and timestamps within one second are interchangeable in it |
| Sessions.OfSession | electron/database/models/sessions.js:46 | `WHERE sessionId = ?` keeps exactly the session's rows |
| Sessions.OfSessionAscending | electron/database/models/sessions.js:46 | the session's rows stay in rowid order |
| Sessions.OfSessionAppend | electron/database/models/sessions.js:46 | selecting by session distributes over appended rows |
| Sessions.InsertListed | electron/database/models/sessions.js:47 | placing a row in the listing adds exactly that row |
| Sessions.InsertListedOrder | electron/database/models/sessions.js:47 | placing a row with a fresh id keeps (second, id) order |
| Sessions.SortListed | electron/database/models/sessions.js:47 | the ORDER BY is a permutation of the selected rows |
| Sessions.SortListedOrder | electron/database/models/sessions.js:47 | rows with distinct ids come out in strictly increasing (second of createdAt, id) order |
| Sessions.NotesOf | electron/database/models/sessions.js:52-57 | definition of the row-to-note mapping: each listed row becomes its note, with the snapshot parsed (what that parse yields is `Sessions.SnapshotRoundTrip`) |
| Sessions.GetSessionNotes | electron/database/models/sessions.js:39-58 | exactly the session's notes are listed, each as stored under its id, in strictly increasing (second of createdAt, id) order |
| Sessions.ListedRowsStored | electron/database/models/sessions.js:44-50 | every listed row belongs to the session and is the row stored under its id |
| Sessions.ListedRowsComplete | electron/database/models/sessions.js:44-50 | every row of the session is listed |
| Sessions.ListingAfterInsert | electron/database/models/sessions.js:16-47 | a new note appears in its session's listing, and every other session's listing is unchanged |
| Sessions.ClaimsUserIffTruthy | electron/database/models/sessions.js:68 | the owner check runs exactly when the request's user id is truthy, so undefined and 0 skip it |
| Sessions.NotesTable.AddSessionNote | electron/database/models/sessions.js:3-37 | blank content fails with "Note content is required" and nothing changes; otherwise one row is appended under the next rowid with the trimmed content, the given ids and time, and the snapshot as JSON or NULL, and that note is returned with the snapshot defaulted to null |
| Sessions.NotesTable.DeleteSessionNote | electron/database/models/sessions.js:60-78 | an unknown id fails with "Note not found"; a truthy user id other than the owner's fails with the permission error; both leave the table unchanged; otherwise exactly that row is removed and returned with its snapshot parsed |
| DataModels.Clash | electron/database/dataModels.js:7-9 | `WHERE username = ? OR email = ?` finds a row sharing the username or the email, and nothing exactly when no row shares either |
| DataModels.GetUserById | electron/database/dataModels.js:87-90 | the user with that id, and nothing exactly when no user has it |
| DataModels.GetUserByUsername | electron/database/dataModels.js:92-95 | the user with that username, and nothing exactly when no user has it |
| DataModels.GetUserByEmail | electron/database/dataModels.js:97-100 | the user with that email, and nothing exactly when no user has it |
| DataModels.RegisteredUserFound | electron/database/dataModels.js:14-26 | after registration, usernames and emails stay distinct, and the new user is found by id, username and email |
| DataModels.UserTable.RegisterUser | electron/database/dataModels.js:3-27 | a username or email already taken fails with "Username or email already exists" and inserts nothing; otherwise one row is appended and its new id returned |
| DataModels.GetScenarioById | electron/database/dataModels.js:41-50 | the scenario with that id with its definition parsed and a NULL definition as null, and nothing exactly when no row has the id |
| DataModels.GetAllScenarios | electron/database/dataModels.js:52-61 | every scenario once, in strictly increasing id order, with definitions parsed and NULL kept as null |
| DataModels.ListingMatchesLookup | electron/database/dataModels.js:41-61 | each listed scenario is what the by-id lookup returns, and every scenario found by id is listed |
| DataModels.CreateThenGet | electron/database/dataModels.js:30-50 | a created scenario reads back under its new id with its name and, for JSON data, its definition; other lookups are unchanged |
| DataModels.UpdateThenGet | electron/database/dataModels.js:63-72 | after an update, an existing id reads back with the new name and definition, and every other lookup is unchanged |
| DataModels.DeleteThenGet | electron/database/dataModels.js:74-78 | after a delete the id is not found, and every other lookup is unchanged |
| DataModels.ScenarioTable.CreateScenario | electron/database/dataModels.js:30-39 | one row is appended with the name and the definition's JSON, and its new id is returned |
| DataModels.ScenarioTable.UpdateScenario | electron/database/dataModels.js:63-72 | true exactly when a row had the id; only that row's name and definition change, and nothing changes otherwise |
| DataModels.ScenarioTable.DeleteScenario | electron/database/dataModels.js:74-78 | true exactly when a row had the id; that row alone is removed |
| IpcHandlers.RegisterUser | electron/main.js:30-48 | a null or undefined payload rejects before the try; otherwise the four fields go to registerUser and its id or error message comes back in the envelope |
| IpcHandlers.GetAllScenarios | electron/main.js:51-59 | success with the listing exactly when getAllScenarios returns, otherwise its error message |
| IpcHandlers.GetScenario | electron/main.js:61-72 | success exactly when the lookup returns a truthy scenario; a falsy result gives "Scenario not found"; a throw gives its message |
| IpcHandlers.StartSim | electron/main.js:75-87 | a falsy scenarioId or userId gives "scenarioId and userId are required" whatever the backend; otherwise the reply carries the sessionId and state startSession returned for those two ids |
| IpcHandlers.GetSimState | electron/main.js:89-101 | a falsy sessionId gives "sessionId is required"; otherwise the state getSessionState returns, or its error message |
| IpcHandlers.AdjustSimMedication | electron/main.js:103-117 | refused unless sessionId and medicationId are truthy and newDose is a number; otherwise the three values are forwarded unchanged |
| IpcHandlers.PauseSim | electron/main.js:119-131 | a falsy sessionId gives "sessionId is required"; otherwise the state pauseSession returns, or its error message |
| IpcHandlers.ResumeSim | electron/main.js:133-145 | a falsy sessionId gives "sessionId is required"; otherwise the state resumeSession returns, or its error message |
| IpcHandlers.EndSim | electron/main.js:147-159 | a falsy sessionId gives "sessionId is required"; otherwise endSession always gets the reason "user_end" |
| IpcHandlers.ContentGiven | electron/main.js:165 | `content?.trim()` is truthy exactly for a string that is not all whitespace, and throws for a non-string that is not nullish |
| IpcHandlers.NoteRequest | electron/main.js:172-177 | the object passed to addSessionNote holds the four fields, with a missing snapshot as null |
| IpcHandlers.AddNote | electron/main.js:162-183 | falsy ids or blank content give "sessionId, userId, and content are required"; a falsy session gives "Session not found"; a throw from getSession or addSessionNote gives its message; a saved note means every check passed and addSessionNote got the request |
| IpcHandlers.GetNotes | electron/main.js:185-197 | a falsy sessionId gives "sessionId is required"; otherwise the notes getSessionNotes returns, or its error message |
| IpcHandlers.DeleteRequest | electron/main.js:205 | the object passed to deleteSessionNote holds exactly the note id and the user id |
| IpcHandlers.DeleteNote | electron/main.js:199-211 | a falsy noteId gives "noteId is required"; otherwise the note deleteSessionNote returns, or its error message |
| IpcHandlers.GuardsPrecedeBackend | electron/main.js:77-80 | a request refused by its guard gets the same reply whatever the backend would do |
| IpcHandlers.SavedNoteContentNotBlank | electron/main.js:165-177 | add-note only forwards content whose trimmed text is non-empty |
| SimulationFormatting.IsFiniteNumber | frontend/src/utils/simulationFormatting.js:6-8 | definition of isFiniteNumber: of type number, and neither NaN nor an infinity |
| SimulationFormatting.TemplateText | frontend/src/utils/simulationFormatting.js:28-35 | definition of the text a template literal inserts: a string as itself, any other value as the host's text for it |
| SimulationFormatting.Round | frontend/src/utils/simulationFormatting.js:18-20 | `Math.round` gives the nearest integer, with ties rounded up |
| SimulationFormatting.FormatBloodPressure | frontend/src/utils/simulationFormatting.js:10-21 | "--" exactly when the reading is falsy or either value is not a finite number |
| SimulationFormatting.SlashSeparates | frontend/src/utils/simulationFormatting.js:18-20 | the slash of "<systolic>/<diastolic>" is the first one in the text |
| SimulationFormatting.BloodPressureRoundTrip | frontend/src/utils/simulationFormatting.js:18-20 | a formatted blood pressure parses back to the two rounded readings |
| SimulationFormatting.FormatValue | frontend/src/utils/simulationFormatting.js:23-29 | "--" for a non-finite value; otherwise the formatted number, with a space and the suffix only when the suffix is truthy |
| SimulationFormatting.FormatTemperature | frontend/src/utils/simulationFormatting.js:31-36 | "--" for a non-finite value; otherwise the formatted number, " deg" and the unit's template text, the unit being "F" only when omitted (so a null unit prints "null") |
| SimulationFormatting.LabelRank | frontend/src/utils/simulationFormatting.js:40-81 | a summary label names the vital at that place in the display order |
| SimulationFormatting.LabelRankOfLabel | frontend/src/utils/simulationFormatting.js:40-81 | each vital's label maps back to its place in the display order, so labels are distinct |
| SimulationFormatting.EntryFor | frontend/src/utils/simulationFormatting.js:40-81 | each vital's entry carries that vital's label |
| SimulationFormatting.Select | frontend/src/utils/simulationFormatting.js:38-83 | the selection keeps exactly the chosen vitals |
| SimulationFormatting.SelectOrdered | frontend/src/utils/simulationFormatting.js:38-83 | the selection keeps the order it is given |
| SimulationFormatting.DisplayOrderRanked | frontend/src/utils/simulationFormatting.js:38-83 | the display order is Blood Pressure, Heart Rate, Respirations, Temperature, O2 Saturation, Pain, Blood Glucose |
| SimulationFormatting.ListedVitals | frontend/src/utils/simulationFormatting.js:40-81 | exactly the present vitals, in display order, each once |
| SimulationFormatting.Summary | frontend/src/utils/simulationFormatting.js:38-83 | one entry per present vital, in display order, labelled with that vital |
| SimulationFormatting.VitalSummary | frontend/src/utils/simulationFormatting.js:38-40 | the summary throws exactly for null vitals; an omitted object counts as empty |
| SimulationFormatting.ReadsAgree | frontend/src/utils/simulationFormatting.js:38-40 | a property of the defaulted vitals object reads the same as the field the summary selects on |
| SimulationFormatting.SummaryPrefix | frontend/src/utils/simulationFormatting.js:39-82 | the entries pushed for the first n vitals in display order number at most n |
| SimulationFormatting.PushExtendsSummary | frontend/src/utils/simulationFormatting.js:39-82 | pushing the next vital's contribution turns the summary of the vitals before it into the summary including it |
| SimulationFormatting.PrefixSelects | frontend/src/utils/simulationFormatting.js:39-82 | the entries pushed for the first n vitals are the entries of the present vitals among them, in order |
| SimulationFormatting.PrefixIsSummary | frontend/src/utils/simulationFormatting.js:39-82 | pushing all seven contributions gives the selection-based summary |
| SimulationFormatting.PushBloodPressure | frontend/src/utils/simulationFormatting.js:40-45 | the blood-pressure push adds the "Blood Pressure" entry exactly when the reading is truthy |
| SimulationFormatting.PushHeartRate | frontend/src/utils/simulationFormatting.js:46-51 | the heart-rate push adds "Heart Rate" with the formatted value and " bpm" exactly when the reading is a finite number |
| SimulationFormatting.PushRespirations | frontend/src/utils/simulationFormatting.js:52-57 | the respiratory-rate push adds "Respirations" with " / min" exactly when the reading is a finite number |
| SimulationFormatting.PushTemperature | frontend/src/utils/simulationFormatting.js:58-63 | the temperature push adds "Temperature" with the formatted temperature and its unit exactly when the reading is a finite number |
| SimulationFormatting.PushOxygenSaturation | frontend/src/utils/simulationFormatting.js:64-69 | the oxygen-saturation push adds "O2 Saturation" with " %" exactly when the reading is a finite number |
| SimulationFormatting.PushPain | frontend/src/utils/simulationFormatting.js:70-75 | the pain-level push adds "Pain" with "/10" exactly when the reading is a finite number |
| SimulationFormatting.PushBloodGlucose | frontend/src/utils/simulationFormatting.js:76-81 | the blood-glucose push adds "Blood Glucose" with " mg/dL" exactly when the reading is a finite number |
| SimulationFormatting.BuildVitalSummary | frontend/src/utils/simulationFormatting.js:38-83 | the pushed summary equals the entries of the present vitals in display order |
| SimulationFormatting.SummaryInDisplayOrder | frontend/src/utils/simulationFormatting.js:38-83 | at most seven entries, with strictly increasing display-order labels, so no label repeats |
| SimulationFormatting.EntryPresentIffListed | frontend/src/utils/simulationFormatting.js:40-81 | a vital has an entry exactly when blood pressure is truthy or another vital is a finite number |
| SimulationFormatting.BloodPressureFirst | frontend/src/utils/simulationFormatting.js:40-45 | a truthy blood pressure always comes first, and shows "--" when either value is not finite |
| SimulationFormatting.EmptyVitalsEmptySummary | frontend/src/utils/simulationFormatting.js:38-82 | an omitted or empty vitals object gives an empty summary |

## Left out

- The simulation engine (`electron/database/simulation.js`) is not part of this model. It does not compile: it declares `endSession` twice and uses names it never defines. The handlers see its operations, and the `getSession` that add-note calls, only as functions of the `Backend`.
- Database setup, schema checks and file I/O (`electron/database/database.js`), `electron/database/dataStore.js`, import/export, the example scenarios, the preload bridge, window and app lifecycle, console logging and all React code are not part of this model.
- SQL parameter binding: ids and the user columns are typed (`int`, `string`) in the data layer. Binding undefined, or comparing a string id with a numeric one, is not modelled.
- Sessions.NotesTable.AddSessionNote: the content is a string or missing. A non-string content, on which `trim` would throw, is not modelled.
- Sessions.NotesTable.AddSessionNote: `createdAt` is a millisecond timestamp passed in, not the ISO text of `new Date()`. The listing order depends only on its whole second, as `datetime()` keeps it.
- DataModels.ScenarioTable.CreateScenario: an undefined definition, for which `JSON.stringify` returns undefined, is stored as NULL.
- getAllUsers (electron/database/dataModels.js:102-105) is not part of this model: it returns the rows unchanged.
- JSON text is abstracted to the document it denotes. Character escaping and number spelling are not modelled, and neither are `toJSON` and cyclic values.
- Numbers are modelled as reals plus NaN and the infinities. Double rounding of arithmetic is not modelled. `Math.round` is exact by its definition, and so is the text of an integer below 10^21; exponent notation for larger values is not modelled.
- SimulationFormatting.FormatValue and SimulationFormatting.FormatTemperature: the locale-dependent text of `Intl.NumberFormat` and the template-literal text of a non-string suffix or unit are parameters (`Display`). The contracts say where that text goes, not what it spells.
- The wording of TypeErrors raised by the engine itself (destructuring null, reading a property of null, calling a missing `trim`) is not modelled. Only the fact that one is thrown is, under one placeholder message.
- Error objects: every throw is modelled as an `Error` with a string message. Throwing a non-Error value, whose `message` would be undefined, is not modelled.
- The schema's FOREIGN KEY clauses (electron/database/database.js:41-42, 51, 60-61, 71-72) are not modelled. Where the driver enforces them, adding a note for an unknown session or user, or deleting a scenario that a session references, would throw; the model accepts both.
- The order of backend effects across several handler calls is not modelled: each backend function gives its outcome for its arguments.
