# Watch-together rooms, modelled in Dafny

This project models the core of a "watch together" web application. One user
creates a room identified by an 8-character code. Others join it with a display
name. Everyone in the room watches the same video, kept in step over a socket
connection, and chats. The first joiner is the room's admin. If the admin leaves,
the earliest-joined remaining participant takes over. The admin can kick others
but cannot be kicked. A room that empties becomes inactive and can no longer be
joined.

The model covers the following parts, one Dafny module each:

- The server's database tables:
  - `RoomModel`: the `Room` rows and their instance methods, in a `RoomTable` class;
  - `ParticipantModel`: the `Participant` queries, as pure functions over a sequence of rows.
- `RoomServiceModel`: the room service that combines them. This is the `RoomService` class.
- `SocketServiceModel`: the socket event handlers of the server. This is the `SocketServer` class. The server's output is a log of `(event, recipient set)` emissions.
- `VideoParser` and `ClientVideoParser`: the two copies of the video URL classifier, one on the server and one in the client. The pattern scans they share are in `VideoPatterns`.
- `RoomCodeGenerator`: the room-code generator.
- Validation:
  - `Validators`: the client's validators;
  - `RequestValidator`: the server's request-validation middleware.
- The client's state:
  - `RoomStoreModel`: the client's room store, as the `RoomStore` class;
  - `VideoSyncModel`: the client's playback-sync hook, as the `VideoSync` class.
- Shared helpers:
  - `JsStrings`: JavaScript's `trim`, UTF-16 `length` and `toUpperCase` on ASCII;
  - `Wrappers`: `Option` and `Result`.

The main invariant is kept by every socket handler (`SocketServer.Valid`). It
says, for every room:

- a room with at least one participant has exactly one admin;
- an empty room has no admin.

It also says that:

- socket ids are unique among participants, so each connection has at most one participant;
- every participant belongs to a connected socket.

`SocketServer.Run` executes any sequence of socket events in order. It ends in a
state where the invariant still holds. `ParticipantModel` proves the three steps
that could break the invariant:

- a join, in `JoinKeepsAdminInvariant`;
- a leave with hand-over, in `LeaveKeepsAdminInvariant`;
- a kick, in `KickKeepsAdminInvariant`.

Behaviour is modelled as the code is written, including these points:

- The server checks admin rights only for kick (and for the room-deletion endpoint). Play, pause, seek, change-video and sync requests from any socket are obeyed. The admin gate for playback exists only on the client (`VideoSync.HandlePlay` and its siblings).
- Kick does not check that the target participant is in the room named in the request.
- A bare disconnect looks the room up with the room id (a 36-character UUID) where a room code is expected. No code has 36 characters, so the lookup always fails. The participant row is removed, but no `user-left` is broadcast. `HandleUserDisconnect` with `roomCode == None` states this outcome: the log is unchanged.
- `leave-room` removes the participant but does not take the socket out of the room's channel.
- The code generator's alphabet contains `L`, although the comment beside it says `L` is excluded. `RoomCodeGenerator.AlphabetContainsL` states the alphabet as written.
- Changing the video stores the room's new url before writing the history entry. If the history entry is then rejected (title over 200 or `addedBy` over 50 characters), the handler reports an error, but the room has already changed (`RoomService.ChangeVideo`).
- A url that is only whitespace trims to the empty string, and `new URL("")` always throws, so such a url gives 'Invalid URL format' whatever `urlParses` says of the empty string (`VideoParser.ParseVideoUrl`).
- The client's echo-suppression timers are never cancelled. An older timer can therefore clear `isSyncing` before a newer 1000 ms window ends (`VideoSync.Tick`).

Several things become explicit inputs:

- The clock is a `now` (milliseconds) parameter.
- `Math.random` is an oracle `random: nat -> CharIndex` read at a draw counter.
- URL well-formedness is an abstract predicate `urlParses`. This covers `new URL(...)` as defined in section 4.4 ("URL parsing") of the WHATWG URL Standard, Joi's `.uri()` and zod's `.url()`.
- A client timer is an entry in a pending list that fires at an explicit `Tick`.

## Model

| member | source | states |
|---|---|---|
| JsStrings.Trim | backend/src/services/socketService.js:189-206 | The result has no leading or trailing whitespace; it is empty exactly when the input is all whitespace |
| JsStrings.TrimIsSlice | backend/src/utils/videoParser.js:92 | The trim is the input with a whitespace-only prefix and a whitespace-only suffix cut off; with the end conditions of `Trim` this fixes the result |
| JsStrings.TrimIdempotent | backend/src/utils/videoParser.js:92 | Trimming twice is trimming once |
| JsStrings.TrimOfUnpadded | backend/src/utils/videoParser.js:92 | A string without surrounding whitespace is its own trim |
| JsStrings.TrimOfPadded | backend/src/utils/videoParser.js:92 | Whitespace around a string that neither starts nor ends with whitespace is exactly what the trim removes |
| JsStrings.Utf16Length | backend/src/services/socketService.js:194 | JavaScript's `length` lies between the number of code points and twice that |
| JsStrings.Utf16CodeUnits | frontend/src/utils/validators.js:98-101 | The UTF-16 code units of a string, as many as its `length`, each below 0x10000 |
| JsStrings.ToUpper | frontend/src/utils/validators.js:77 | ASCII lower-case letters become upper case, one character at a time; every other character is kept |
| VideoPatterns.CaptureAt | backend/src/utils/videoParser.js:13-17 | An id capture is 11 id characters; a digit capture is a maximal non-empty digit run |
| VideoPatterns.ExtensionFromMeans | backend/src/utils/videoParser.js:66 | The direct-file scan succeeds exactly when some listed extension matches at some position |
| VideoPatterns.NoYouTubeWithoutY | backend/src/utils/videoParser.js:13-17 | A string without the letter `y` matches no YouTube pattern |
| VideoPatterns.NoneMatchWithout | backend/src/utils/videoParser.js:19-29 | Patterns whose alternatives all start with a character absent from the url find nothing |
| VideoPatterns.FirstMatchMeans | backend/src/utils/videoParser.js:19-29 | The pattern loop yields `id` exactly when some pattern k has an alternative literally followed by the capture `id` at a position i, with no earlier alternative there, no match of pattern k before i, and no match anywhere of an earlier pattern; it yields nothing exactly when no pattern matches anywhere |
| VideoPatterns.FirstMatchWitnessUnique | backend/src/utils/videoParser.js:19-29 | Two such leftmost first-pattern matches are the same match with the same capture |
| VideoParser.ParseYouTube | backend/src/utils/videoParser.js:11-32 | Succeeds exactly when one of the YouTube patterns matches; the id is the first pattern's capture `match[1]`, 11 id characters; url and embedUrl are rebuilt from it |
| VideoParser.ParseVimeo | backend/src/utils/videoParser.js:39-58 | Succeeds exactly when a Vimeo pattern matches; the id is the first pattern's capture `match[1]`, a digit run; url and embedUrl are rebuilt from it |
| VideoParser.ParseDirectVideo | backend/src/utils/videoParser.js:65-78 | Succeeds exactly when the url carries a video extension; id, url and embedUrl are the url itself |
| VideoParser.ParseVideoUrl | backend/src/utils/videoParser.js:86-120 | 'Invalid URL provided' exactly for a missing or empty input; 'Invalid URL format' exactly when the trimmed url is empty or does not parse; 'Unsupported video URL' exactly when it parses but matches no YouTube pattern, no Vimeo pattern and no video extension; a direct result is the trimmed input |
| VideoParser.IsValidVideoUrl | backend/src/utils/videoParser.js:127-134 | True exactly when parsing succeeds |
| VideoParser.YouTubeFirst | backend/src/utils/videoParser.js:102-105 | A url matching a YouTube pattern is classified YouTube, with the first pattern's capture as id, whatever else it matches |
| VideoParser.VimeoSecond | backend/src/utils/videoParser.js:102-111 | A parsable url with no YouTube match and a Vimeo match is classified Vimeo, with the first Vimeo capture as id |
| VideoParser.DirectOnlyWithoutPlatform | backend/src/utils/videoParser.js:102-117 | A result is direct exactly when neither YouTube nor Vimeo patterns match |
| VideoParser.YouTubeWatchUrlMatches | backend/src/utils/videoParser.js:13-27 | The canonical watch url of an id yields that id again |
| VideoParser.VimeoUrlMatches | backend/src/utils/videoParser.js:40-53 | The canonical Vimeo url of an id matches no YouTube pattern and yields that id again |
| VideoParser.ReparseYouTube | backend/src/utils/videoParser.js:22-27 | Parsing a YouTube result's canonical url gives back the same result |
| VideoParser.ReparseVimeo | backend/src/utils/videoParser.js:47-53 | Parsing a Vimeo result's canonical url gives back the same result |
| VideoParser.ReparseDirect | backend/src/utils/videoParser.js:68-75 | Parsing a direct result's url gives back the same result |
| VideoParser.ParseCanonicalUrl | backend/src/utils/videoParser.js:102-117 | Any successful result re-parses from its canonical url to itself |
| ClientVideoParser.ParseYouTube | frontend/src/utils/videoParser.js:9-28 | As on the server, without embedUrl: the first YouTube capture and the rebuilt watch url |
| ClientVideoParser.ParseVimeo | frontend/src/utils/videoParser.js:33-51 | As on the server, without embedUrl: the first Vimeo capture and the rebuilt url |
| ClientVideoParser.ParseDirectVideo | frontend/src/utils/videoParser.js:56-68 | Succeeds exactly when the url carries a video extension; id and url are the url |
| ClientVideoParser.ParseVideoUrl | frontend/src/utils/videoParser.js:73-96 | The same check order and the same three error conditions, each as an if-and-only-if, as the server parser |
| ClientVideoParser.IsValidVideoUrl | frontend/src/utils/videoParser.js:101-108 | True exactly when parsing succeeds |
| ClientVideoParser.ParsersAgree | frontend/src/utils/videoParser.js:9-95 | For every input the two parsers agree on success, on the error, and on type, id and url |
| ClientVideoParser.ValidityAgrees | frontend/src/utils/videoParser.js:101-108 | The two validity checks agree on every input |
| ClientVideoParser.ClientCanonicalReparses | frontend/src/utils/videoParser.js:19-27 | A client result re-parses from its url to itself |
| RoomCodeGenerator.DrawnCode | backend/src/utils/roomCodeGenerator.js:5-16 | Exactly 8 characters, character i being the alphabet entry at draw i |
| RoomCodeGenerator.GenerateRoomCode | backend/src/utils/roomCodeGenerator.js:8-15 | The loop builds the drawn code and consumes 8 draws |
| RoomCodeGenerator.FirstUntaken | backend/src/utils/roomCodeGenerator.js:24-35 | The attempt found is below the bound and its code is not taken |
| RoomCodeGenerator.FirstUntakenMeans | backend/src/utils/roomCodeGenerator.js:24-35 | The attempt found is the least free one, and none is found exactly when every attempt's code is taken |
| RoomCodeGenerator.GenerateUniqueRoomCode | backend/src/utils/roomCodeGenerator.js:24-35 | Checks at most maxAttempts codes; succeeds exactly when some attempt's code is free, returning the first free one after checking every earlier (taken) one; otherwise fails with the exhaustion message after all attempts were taken |
| RoomCodeGenerator.AlphabetChars | backend/src/utils/roomCodeGenerator.js:7 | The alphabet has 32 characters, all upper-case letters or digits 2-9, without I or O |
| RoomCodeGenerator.DrawnCodeChars | backend/src/utils/roomCodeGenerator.js:10-13 | Every character of a generated code is from the alphabet |
| RoomCodeGenerator.AlphabetContainsL | backend/src/utils/roomCodeGenerator.js:6-7 | `L` is in the alphabet, contrary to the comment beside it |
| Validators.LetterOrDigitSurvivesTrim | frontend/src/utils/validators.js:18-21 | Trimming neither adds nor removes a letter or digit |
| Validators.NameLengthIsCharCount | frontend/src/utils/validators.js:6 | For names made of allowed characters, JavaScript length equals the character count |
| Validators.ValidateRoomCode | frontend/src/utils/validators.js:67-70 | Only a present 8-character code can pass |
| Validators.ValidateRoomCodeIsJoinRule | frontend/src/utils/validators.js:34-38 | validateRoomCode accepts exactly the codes the join schema accepts |
| Validators.FormatRoomCode | frontend/src/utils/validators.js:75-78 | Missing or empty input gives the empty string |
| Validators.FormatRoomCodeRoundTrip | frontend/src/utils/validators.js:75-78 | Removing the spaces from a formatted code gives the upper-cased code |
| Validators.FormatEightCharCode | frontend/src/utils/validators.js:75-78 | An 8-character code formats as two upper-case groups of four with one space |
| Validators.RemoveSpacesOfTrim | frontend/src/utils/validators.js:77 | Trimming removes only spaces that space-removal would remove anyway |
| Validators.ToInt32 | frontend/src/utils/validators.js:100 | The ECMAScript ToInt32 that `hash << 5` applies to its operand: a signed 32-bit value congruent to the input modulo 2^32 |
| Validators.SafeName | frontend/src/utils/validators.js:95-96 | The name hashed is never empty |
| Validators.UserColor | frontend/src/utils/validators.js:83-104 | The colour is always one of the eight listed |
| Validators.GetUserColor | frontend/src/utils/validators.js:83-104 | The hash loop returns the colour `UserColor` defines |
| Validators.MissingNameIsAnonymous | frontend/src/utils/validators.js:96 | A missing or empty name gets the colour of 'Anonymous' |
| Validators.HashExact | frontend/src/utils/validators.js:98-101 | The hash stays below 2^53, so JavaScript's double arithmetic on it is exact |
| Validators.FormatVideoDuration | frontend/src/utils/validators.js:137-149 | A missing or zero duration formats as '0:00' |
| Validators.DurationUnderAnHour | frontend/src/utils/validators.js:137-149 | Under an hour: floored minutes, a colon and two-digit seconds |
| Validators.DurationFromAnHour | frontend/src/utils/validators.js:137-149 | From an hour on: hours, two-digit minutes and two-digit seconds |
| Validators.DurationRecombines | frontend/src/utils/validators.js:140-142 | The three floored components recombine to the floored duration, minutes and seconds below 60 |
| Validators.DigitStringValue | frontend/src/utils/validators.js:146-148 | The decimal rendering of a number reads back as that number |
| Validators.TwoDigits | frontend/src/utils/validators.js:146-148 | Two decimal digits whose value is the number |
| Validators.PadOfSmall | frontend/src/utils/validators.js:146-148 | `padStart(2, '0')` of a number under 100 is its two-digit form |
| RequestValidator.NameClassesAgree | backend/src/middleware/validator.js:6 | The server's allowed name characters and letter-or-digit class equal the client's |
| RequestValidator.ServerNameRuleIsClientRule | backend/src/middleware/validator.js:50-79 | A name passes the server's rule exactly when it passes the client's |
| RequestValidator.Violations | backend/src/middleware/validator.js:23-44 | With `abortEarly: false`: every reported violation is a failed rule of a schema field, and every failed rule of every field is reported |
| RequestValidator.Collect | backend/src/middleware/validator.js:25-28 | The field-by-field collection reports exactly the codes of each field under its key, and nothing else |
| RequestValidator.FieldCodesEmptyIffValid | backend/src/middleware/validator.js:50-114 | A field reports no error exactly when it satisfies its rule |
| RequestValidator.NoViolationsIffValid | backend/src/middleware/validator.js:25-28 | Collecting all errors (no early abort) finds none exactly when every field is valid |
| RequestValidator.EmptyNameReportsOnlyEmpty | backend/src/middleware/validator.js:51-58 | An empty name reports only the empty-string message |
| RequestValidator.Details | backend/src/middleware/validator.js:32-35 | One detail message per violation; for a schema with distinct keys the k-th detail is the message of the k-th violation's rule, key and code |
| RequestValidator.CollectMessagesMatch | backend/src/middleware/validator.js:32-35 | The messages collected field by field are the messages of the collected violations, in order |
| RequestValidator.Sanitized | backend/src/middleware/validator.js:25-41 | The validated body keeps exactly the keys of the input that the schema knows |
| RequestValidator.SanitizedKeepsStrings | backend/src/middleware/validator.js:40-41 | A known string field survives validation unchanged |
| RequestValidator.Request.Validate | backend/src/middleware/validator.js:23-44 | Fails exactly when there are violations, with a 400 validation error listing them and the body untouched; otherwise the body becomes the stripped, converted value |
| ParticipantModel.UserNameValidationErrors | backend/src/models/Participant.js:23-30 | No error exactly when the name is not blank and 1 to 50 characters long |
| ParticipantModel.InRoom | backend/src/models/Participant.js:82-87 | Only rows of that room, taken from the table |
| ParticipantModel.InRoomHasAll | backend/src/models/Participant.js:82-87 | Every row of that room is included |
| ParticipantModel.SortByJoinedAt | backend/src/models/Participant.js:85 | A permutation of its input, sorted by join time |
| ParticipantModel.InsertKeepsSorted | backend/src/models/Participant.js:85 | Inserting by join time keeps a sorted list sorted |
| ParticipantModel.GetByRoomId | backend/src/models/Participant.js:82-87 | Sorted by join time and a permutation of the room's rows |
| ParticipantModel.GetByRoomIdMembers | backend/src/models/Participant.js:82-87 | A row is listed exactly when it belongs to the room |
| ParticipantModel.FindBySocketId | backend/src/models/Participant.js:75-80 | A found row has that socket; none is found exactly when no row has it |
| ParticipantModel.FindBySocketIdUnique | backend/src/models/Participant.js:31-35 | With unique socket ids, the lookup returns that socket's one row |
| ParticipantModel.FindById | backend/src/services/roomService.js:227-233 | A found row has that id; none is found exactly when no row has it |
| ParticipantModel.Without | backend/src/services/roomService.js:187 | After `destroy`, the other rows only |
| ParticipantModel.WithoutKeepsOthers | backend/src/services/roomService.js:187 | Destroying a row keeps every other row |
| ParticipantModel.PromoteChangesOnlyFlag | backend/src/services/roomService.js:193-197 | Promotion changes only the chosen row's admin flag |
| ParticipantModel.CountsOfWithout | backend/src/services/roomService.js:187 | Removing a row lowers its room's size and admin count by its own share |
| ParticipantModel.CountsOfPromote | backend/src/services/roomService.js:194-196 | Promoting a non-admin adds one admin to its room and changes no size |
| ParticipantModel.JoinKeepsAdminInvariant | backend/src/services/socketService.js:31-35 | A joiner who is admin exactly when the room was empty keeps one admin per non-empty room |
| ParticipantModel.LeaveKeepsAdminInvariant | backend/src/services/roomService.js:187-197 | Leaving, with the earliest remaining participant promoted when the admin leaves, keeps one admin per non-empty room |
| ParticipantModel.KickKeepsAdminInvariant | backend/src/services/roomService.js:240-245 | Removing a non-admin keeps one admin per non-empty room |
| ParticipantModel.WithoutKeepsUniqueSockets | backend/src/models/Participant.js:55-58 | Removing a row keeps socket ids unique |
| ParticipantModel.SocketsOfAfterLeave | backend/src/services/roomService.js:175-197 | After a leave the socket has no row left |
| RoomModel.FindActive | backend/src/models/Room.js:83-87 | Finds a row with that code that is active; fails only when no active row has the code |
| RoomModel.FindActiveFindsIt | backend/src/models/Room.js:67-71 | With unique codes, the active row with the code is the one found |
| RoomModel.FindActiveNeedsEightChars | backend/src/models/Room.js:13-21 | No code other than 8 characters long finds a room |
| RoomModel.SweepChangesOnlyStale | backend/src/services/roomService.js:403-416 | The sweep turns off exactly the active rows idle since before the cutoff and changes nothing else |
| RoomModel.NoStaleLeft | backend/src/services/roomService.js:403-416 | After the sweep no stale active row remains |
| RoomModel.RoomTable.FindByCode | backend/src/models/Room.js:83-87 | The active row with the code, or none when no active row has it |
| RoomModel.RoomTable.UpdateActivity | backend/src/models/Room.js:90-93 | Only lastActivity of the row changes |
| RoomModel.RoomTable.UpdateVideoState | backend/src/models/Room.js:95-100 | Saves state, time and activity when the time is not negative; otherwise the save fails and nothing changes |
| RoomModel.RoomTable.ChangeVideo | backend/src/models/Room.js:102-108 | The url is set, the room paused at 0, activity refreshed, and nothing else changes |
| RoomModel.RoomTable.Create | backend/src/models/Room.js:13-71 | A new row with no video, paused at 0 and active, unless a field constraint fails or the code is already used |
| RoomModel.RoomTable.DeactivateStale | backend/src/services/roomService.js:403-416 | Every row is swept, and the count is the number of stale active rows |
| RoomServiceModel.HistoryTitle | backend/src/services/roomService.js:356-361 | The title, or the canonical url when the title is missing or empty |
| RoomServiceModel.HistoryAddedBy | backend/src/services/roomService.js:356-361 | `addedBy`, or 'Unknown' when it is missing or empty |
| RoomServiceModel.AddFailure | backend/src/models/Participant.js:23-35 | An insert fails exactly when the name breaks its constraints or a column is too long |
| RoomServiceModel.DrawnCodesValidate | backend/src/utils/roomCodeGenerator.js:7-15 | Every generated code is a valid room code for the client check and passes the Room row's code constraint |
| RoomServiceModel.RoomService.CreateRoom | backend/src/services/roomService.js:20-50 | Succeeds exactly when the generator finds a free code within 10 attempts, the name and creator pass their constraints and column widths, and no row holds the code; the code is the first free drawn code and the draws consumed are 8 per check; on success a new active room paused at 0; every failure is 'Failed to create room' and changes no row |
| RoomServiceModel.RoomService.DrawFreeCode | backend/src/services/roomService.js:23-26 | The generator call with the active-room check: a code exactly when some attempt is free, the first free drawn code, with nothing but the draw counter changed |
| RoomServiceModel.RoomService.GetRoomByCode | backend/src/services/roomService.js:57-93 | 'Room not found' for a missing or inactive room; otherwise the room with its participants, activity refreshed |
| RoomServiceModel.RoomService.DeleteRoom | backend/src/services/roomService.js:101-126 | Only the room's admin may delete; deleting only deactivates the room and keeps participants |
| RoomServiceModel.RoomService.AddParticipant | backend/src/services/roomService.js:136-168 | 'Room not found' for a missing room; an existing row for the socket is returned unchanged; otherwise one new row is appended and the room's activity refreshed |
| RoomServiceModel.RoomService.RemoveParticipant | backend/src/services/roomService.js:175-218 | No row for the socket: nothing changes; otherwise the row goes, the earliest remaining becomes admin if the admin left, an emptied room is deactivated |
| RoomServiceModel.RoomService.RemoveParticipantById | backend/src/services/roomService.js:225-270 | 'Participant not found' or 'Cannot kick the room admin' with no change; otherwise the row goes and an emptied room is deactivated |
| RoomServiceModel.RoomService.GetParticipants | backend/src/services/roomService.js:277-290 | 'Room not found' exactly when no active room has the code; otherwise a list sorted by join time |
| RoomServiceModel.RoomService.GetParticipantBySocketId | backend/src/services/roomService.js:297-305 | The row with that socket, or none when no row has it |
| RoomServiceModel.RoomService.UpdateVideoState | backend/src/services/roomService.js:314-332 | 'Room not found' for a missing room; otherwise state and time stored, the url untouched |
| RoomServiceModel.RoomService.ChangeVideo | backend/src/services/roomService.js:342-374 | Parses the url first; on success stores the canonical url, paused at 0, and appends one history entry with defaulted title and addedBy |
| RoomServiceModel.RoomService.CleanupInactiveRooms | backend/src/services/roomService.js:401-421 | Deactivates exactly the active rooms idle for more than 24 hours and returns their number |
| RoomServiceModel.LeaveRows | backend/src/services/roomService.js:187-197 | The table after a leave, and the remaining roster, keep unique ids and sockets |
| SocketServiceModel.Roster | backend/src/services/socketService.js:54-59 | The broadcast roster lists every participant, in order, with its id, name, flag and join time |
| SocketServiceModel.RoomIdText | backend/src/services/socketService.js:329 | A room id as text is 36 characters long, so it never matches an 8-character code |
| SocketServiceModel.Deactivated | backend/src/services/roomService.js:199-205 | Only the emptied room's row changes, and only its active flag, which becomes false |
| SocketServiceModel.SocketServer.Connect | backend/src/services/socketService.js:15 | A connection adds the socket and emits nothing |
| SocketServiceModel.SocketServer.JoinRoom | backend/src/services/socketService.js:19-79 | Missing code or name, or a missing room: a private error and nothing else; otherwise the joiner is admin exactly when the room was empty, gets 'room-update', and the others get 'user-joined' |
| SocketServiceModel.SocketServer.AdmitToRoom | backend/src/services/socketService.js:31-72 | The join after the room lookup: an insert failure is reported privately; otherwise channel join and both emissions |
| SocketServiceModel.SocketServer.AddMember | backend/src/services/socketService.js:32-35 | The participant insert with the admin flag set exactly when the room was empty |
| SocketServiceModel.SocketServer.AnnounceJoin | backend/src/services/socketService.js:38-72 | 'room-update' only to the joiner, 'user-joined' to every other member, with the join-ordered roster |
| SocketServiceModel.SocketServer.LeaveRoom | backend/src/services/socketService.js:82-89 | No row: nothing changes; otherwise the socket's row is removed as in removeParticipant, an emptied room is deactivated and no other row changes; with a room code, 'user-left' goes to the channel |
| SocketServiceModel.SocketServer.HandleUserDisconnect | backend/src/services/socketService.js:317-352 | No row: nothing happens; otherwise the row goes as in removeParticipant, and 'user-left' is emitted only when a room code was given |
| SocketServiceModel.SocketServer.RemoveSocket | backend/src/services/roomService.js:175-218 | The leave with its hand-over and deactivation, keeping the one-admin invariant |
| SocketServiceModel.SocketServer.PlayVideo | backend/src/services/socketService.js:92-110 | Stores playing at the time and broadcasts to all members except the sender; otherwise a private error |
| SocketServiceModel.SocketServer.PauseVideo | backend/src/services/socketService.js:113-131 | Stores paused at the time and broadcasts to all members except the sender; otherwise a private error |
| SocketServiceModel.SocketServer.SeekVideo | backend/src/services/socketService.js:134-153 | Stores the time with the room's current flag and broadcasts to all but the sender; otherwise a private error |
| SocketServiceModel.SocketServer.StoreAndBroadcast | backend/src/services/socketService.js:97-103 | Store the state and time, then broadcast to everyone but the sender, or report the failure privately |
| SocketServiceModel.SocketServer.ChangeVideo | backend/src/services/socketService.js:156-182 | Exactly one emission: 'video-changed' to every member including the sender on success; otherwise the service's error message to the sender alone. A bad url or a missing room changes no row and no history; otherwise the room shows the new url paused at 0, and history gains the entry exactly when title and addedBy fit |
| SocketServiceModel.SocketServer.ChatMessage | backend/src/services/socketService.js:185-215 | Blank messages are dropped; over 500 UTF-16 units gives a private error; otherwise the trimmed text goes to everyone under the sender's name or 'Anonymous' |
| SocketServiceModel.SocketServer.SyncRequest | backend/src/services/socketService.js:218-238 | The room's url, state and time go only to the requester; otherwise a private error |
| SocketServiceModel.SocketServer.KickUser | backend/src/services/socketService.js:241-300 | Missing fields or room: a private error and no change; otherwise the room's activity is refreshed, then the requester checks and the kick, stated on the whole rooms table |
| SocketServiceModel.SocketServer.KickAsRequester | backend/src/services/socketService.js:254-265 | A requester not in the room or not admin gets a private error and no row, channel or room changes; otherwise the kick |
| SocketServiceModel.SocketServer.KickParticipant | backend/src/services/socketService.js:268-293 | A removal refusal is reported privately and changes nothing; otherwise the row goes, an emptied room is deactivated and no other room changes, the target gets 'user-kicked' and leaves the channel, and the room gets 'user-left' with kicked set and the remaining roster |
| SocketServiceModel.SocketServer.RemoveById | backend/src/services/roomService.js:225-270 | The kick's removal: unknown ids and the admin are refused with no change; otherwise the row goes, an emptied room is deactivated and nothing else changes, keeping the one-admin invariant |
| SocketServiceModel.SocketServer.JoinChannel | backend/src/services/socketService.js:38 | The socket is added to the room's channel |
| SocketServiceModel.SocketServer.LeaveChannel | backend/src/services/socketService.js:280 | The socket is taken out of the room's channel |
| SocketServiceModel.SocketServer.Disconnect | backend/src/services/socketService.js:303-306 | The row is removed as in removeParticipant, an emptied room is deactivated and no other row changes, nothing is emitted, and the socket leaves every channel and is no longer connected |
| SocketServiceModel.SocketServer.Run | backend/src/services/socketService.js:15-306 | Any sequence of socket events, handled in order, ends with one admin in every non-empty room |
| RoomStoreModel.WithMember | frontend/src/stores/roomStore.js:97-103 | The id is present afterwards; the list is unchanged or has the participant appended |
| RoomStoreModel.WithoutId | frontend/src/stores/roomStore.js:108-112 | No entry with the id remains, and every other entry is kept |
| RoomStoreModel.WithMemberKeepsUniqueIds | frontend/src/stores/roomStore.js:97-103 | Adding keeps ids unique, and adding the same participant again changes nothing |
| RoomStoreModel.WithoutIdAppend | frontend/src/stores/roomStore.js:108-112 | The filter keeps surviving entries in order |
| RoomStoreModel.RemoveUndoesAdd | frontend/src/stores/roomStore.js:97-112 | Removing a participant just added restores the list |
| RoomStoreModel.WithMessage | frontend/src/stores/roomStore.js:117-121 | One message appended after the old list, a null list being empty |
| RoomStoreModel.RoomStore.constructor | frontend/src/stores/roomStore.js:8-33 | The initial state |
| RoomStoreModel.RoomStore.SetRoomInfo | frontend/src/stores/roomStore.js:38-40 | Only roomInfo changes |
| RoomStoreModel.RoomStore.UpdateVideoState | frontend/src/stores/roomStore.js:45-49 | Only the keys given change |
| RoomStoreModel.RoomStore.SetVideoUrl | frontend/src/stores/roomStore.js:54-58 | The url is set and the time reset to 0; playing and duration are kept |
| RoomStoreModel.RoomStore.SetPlaying | frontend/src/stores/roomStore.js:63-67 | Only the playing flag changes |
| RoomStoreModel.RoomStore.SetCurrentTime | frontend/src/stores/roomStore.js:72-76 | Only the time changes |
| RoomStoreModel.RoomStore.SetDuration | frontend/src/stores/roomStore.js:81-85 | Only the duration changes |
| RoomStoreModel.RoomStore.SetParticipants | frontend/src/stores/roomStore.js:90-92 | Only the participant list changes |
| RoomStoreModel.RoomStore.AddParticipant | frontend/src/stores/roomStore.js:97-103 | A no-op when the id is present, otherwise an append |
| RoomStoreModel.RoomStore.RemoveParticipant | frontend/src/stores/roomStore.js:108-112 | Every entry with the id is removed |
| RoomStoreModel.RoomStore.AddMessage | frontend/src/stores/roomStore.js:117-121 | Exactly one message appended |
| RoomStoreModel.RoomStore.ClearMessages | frontend/src/stores/roomStore.js:126-128 | The message list is emptied |
| RoomStoreModel.RoomStore.SetCurrentUser | frontend/src/stores/roomStore.js:133-135 | Only the current user changes |
| RoomStoreModel.RoomStore.SetLoading | frontend/src/stores/roomStore.js:140-142 | Only the loading flag changes |
| RoomStoreModel.RoomStore.SetError | frontend/src/stores/roomStore.js:147-149 | Only the error changes |
| RoomStoreModel.RoomStore.ClearError | frontend/src/stores/roomStore.js:154-156 | The error is cleared |
| RoomStoreModel.RoomStore.Reset | frontend/src/stores/roomStore.js:161-179 | Exactly the initial state again |
| VideoSyncModel.Drifted | frontend/src/hooks/useVideoSync.js:25 | Drift means the local time lies outside target plus or minus 1.5 s |
| VideoSyncModel.ToleranceIsStrict | frontend/src/hooks/useVideoSync.js:108-111 | A difference of exactly 1.5 s is not drift; 2 s is |
| VideoSyncModel.Pending | frontend/src/hooks/useVideoSync.js:116-118 | The timers still pending are exactly those due after now |
| VideoSyncModel.NothingPending | frontend/src/hooks/useVideoSync.js:116-118 | When every timer is due, none stays pending and one fires |
| VideoSyncModel.SpacedAppend | frontend/src/hooks/useVideoSync.js:66-69 | An accepted seek at least 500 ms after the last keeps accepted seeks 500 ms apart |
| VideoSyncModel.VideoSync.constructor | frontend/src/hooks/useVideoSync.js:20-22 | Not syncing, no seek yet, no timers |
| VideoSyncModel.VideoSync.Mount | frontend/src/hooks/useVideoSync.js:125-209 | With a room code, subscribes and requests a sync |
| VideoSyncModel.VideoSync.Unmount | frontend/src/hooks/useVideoSync.js:212-218 | Unsubscribes and changes nothing else |
| VideoSyncModel.VideoSync.Tick | frontend/src/hooks/useVideoSync.js:116-118 | Due timers fire and clear isSyncing; when all are due, isSyncing is off and no timer remains |
| VideoSyncModel.VideoSync.HandlePlay | frontend/src/hooks/useVideoSync.js:30-41 | Not admin or syncing: nothing happens; otherwise playing and the player's time (or 0) are stored and play is emitted |
| VideoSyncModel.VideoSync.HandlePause | frontend/src/hooks/useVideoSync.js:46-57 | Not admin or syncing: nothing happens; otherwise paused and the player's time are stored and pause is emitted |
| VideoSyncModel.VideoSync.HandleSeek | frontend/src/hooks/useVideoSync.js:62-83 | Blocked or within 500 ms of the last accepted seek: nothing happens; otherwise the seek is recorded, the player sought, the time stored and emitted |
| VideoSyncModel.VideoSync.HandleVideoChange | frontend/src/hooks/useVideoSync.js:88-99 | A non-admin gets an error toast and nothing is emitted; an admin emits the change and gets a success toast |
| VideoSyncModel.VideoSync.SyncToTime | frontend/src/hooks/useVideoSync.js:104-120 | Re-seeks only on drift, then sets isSyncing with a 1000 ms timer; otherwise nothing changes |
| VideoSyncModel.VideoSync.OnPlayOrPause | frontend/src/hooks/useVideoSync.js:129-172 | Sets the flag and time unconditionally, seeks only on drift, and suppresses local handlers for 1000 ms |
| VideoSyncModel.VideoSync.OnSeek | frontend/src/hooks/useVideoSync.js:175-189 | Always seeks, stores the time, and suppresses local handlers for 1000 ms |
| VideoSyncModel.VideoSync.OnVideoChanged | frontend/src/hooks/useVideoSync.js:192-197 | Sets the url, paused at 0, and shows who changed it |
| VideoSyncModel.VideoSync.OnSyncState | frontend/src/hooks/useVideoSync.js:200-206 | Ignored without a url; otherwise adopts url and flag and syncs to the time |

## Left out

- The video history query (`getVideoHistory`) and the controllers, routes and error handler around the service are not modelled. They only read rows or map errors to HTTP status codes.
- Sequelize and Postgres are not modelled. Tables are in-memory sequences held by `RoomTable` and `RoomService`. UUID ids are counters, so table order is id order and commit order.
- Concurrency is not modelled. Handlers run one at a time to completion. This excludes the interleaving of `await`s, such as the check-then-insert race in join.
- The Socket.IO transport is reduced to a set of connected sockets, a map of channels and a log of emissions.
- Floating point is not modelled: times are `real`. NaN inputs, the `|| 0` fallbacks for NaN player positions, and IEEE rounding are not modelled. `formatVideoDuration`'s NaN case is not modelled.
- `new URL(...)`, Joi `.uri()` and zod `.url()` are the abstract predicate `urlParses`. Joi's number conversion is the parameter `toNumber`.
- Non-string request values (numbers or objects where a string is expected) are `None` ("missing") in the handlers. Only in `RequestValidator` are they a separate `Other` case.
- `Date.now`, `setTimeout`, `formatTime` and `debounce` are not modelled. The clock is a parameter, and timers are pending entries fired by `Tick`.
- React components, pages, toasts' rendering, `copyToClipboard` and `navigator.share` are not modelled. Toasts are kept as a log of messages.
- The player is reduced to an optional position. `seekTo(x, 'seconds')` and `seekTo(x)` are both recorded as seek calls, with ReactPlayer's reading of fractional arguments not modelled.
- RoomStoreModel.RoomStore.UpdateVideoState: an update key whose value is `undefined` is treated as absent, where JavaScript's spread would store `undefined`.
- The zod and Joi schema engines are not modelled generally. Each schema is its field rules as predicates.
- Sequelize's `len` validator counts code points and skips the variation selectors U+FE0E and U+FE0F (`ParticipantModel.ValidatorLength`). Postgres column lengths are taken as code-point counts. No other Unicode rule is modelled.
- JsStrings.ToUpper: only ASCII letters are upper-cased. JavaScript's `toUpperCase` maps all of Unicode ('ç' to 'Ç', 'ß' to "SS"), so for non-ASCII input the JavaScript result can differ, and can be longer.
- Validators.FormatRoomCode: inherits the ASCII-only upper-casing of `ToUpper`, and groups by four characters (code points) where `/(.{4})/g` groups four UTF-16 units; the two differ only for codes with non-ASCII or astral characters.
- Validators.GroupFours: groups code points, not UTF-16 units, for the reason given for `FormatRoomCode`.
- Validators.ToInt32: the 32-bit wrap is modelled, but the double-precision steps before it are taken as exact, which `HashExact` shows holds for names under 2^21 characters.
