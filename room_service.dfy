/** The room business logic of the server (backend/src/services/roomService.js).
    The database is the state of one `RoomService` object: the rooms table, the
    participants table (in insertion order), the video-history table, the next
    participant id, and the position in the stream of random draws that room
    codes consume. Database failures other than the constraint checks modelled in
    `RoomModel` and `ParticipantModel` are not modelled. */
module RoomServiceModel {
  import opened Wrappers
  import opened JsStrings
  import opened ParticipantModel
  import opened RoomModel
  import VideoParser
  import RoomCodeGenerator
  import Validators

  /** 24 hours in milliseconds, the idle time after which a room is swept. */
  const DayMillis: int := 24 * 60 * 60 * 1000

  datatype HistoryEntry = HistoryEntry(roomId: nat, videoUrl: string, videoTitle: string, addedBy: string, addedAt: int)

  /** What `createRoom` returns. */
  datatype CreatedRoom = CreatedRoom(id: nat, roomCode: string, name: string, createdBy: string,
                                     currentVideoUrl: Option<string>, videoState: VideoState, currentTime: real)

  /** What `getRoomByCode` returns: the room (after its activity was refreshed) and
      its participants. */
  datatype RoomView = RoomView(id: nat, row: RoomRow, participants: seq<Participant>)

  /** What `removeParticipant` and `removeParticipantById` return. */
  datatype Removal = Removal(roomId: nat, userName: string, socketId: string, isAdmin: bool,
                             remaining: seq<Participant>)

  datatype VideoStateResult = VideoStateResult(roomCode: string, videoState: VideoState, currentTime: real)

  datatype ChangeResult = ChangeResult(roomCode: string, currentVideoUrl: string, videoState: VideoState,
                                       currentTime: real, videoInfo: VideoParser.VideoInfo)

  /** The roster `removeParticipant` returns: the room's rows in join order once `x`
      is gone, with the first one flagged admin when it was promoted. */
  function RemainingAfterLeave(ps: seq<Participant>, x: Participant): seq<Participant> {
    var remaining := GetByRoomId(Without(ps, x.id), x.roomId);
    if x.isAdmin && |remaining| > 0 then remaining[0 := remaining[0].(isAdmin := true)] else remaining
  }

  /** `videoTitle || parsedVideo.url`. */
  function HistoryTitle(videoTitle: Option<string>, url: string): (t: string)
    ensures videoTitle.Some? && videoTitle.value != "" ==> t == videoTitle.value
    ensures videoTitle.None? || videoTitle == Some("") ==> t == url
  {
    if videoTitle.None? || videoTitle.value == "" then url else videoTitle.value
  }

  /** `addedBy || 'Unknown'`. */
  function HistoryAddedBy(addedBy: Option<string>): (a: string)
    ensures addedBy.Some? && addedBy.value != "" ==> a == addedBy.value
    ensures addedBy.None? || addedBy == Some("") ==> a == "Unknown"
  {
    if addedBy.None? || addedBy.value == "" then "Unknown" else addedBy.value
  }

  /** The error `addParticipant` raises when creating the row: the model's
      validators first, then the `VARCHAR(50)` columns. */
  function AddFailure(userName: string, socketId: string): (e: Option<string>)
    ensures e.None? <==> UserNameValidationErrors(userName) == [] && |userName| <= 50 && |socketId| <= 50
  {
    var errs := UserNameValidationErrors(userName);
    if errs != [] then Some(ValidationMessage(errs))
    else if |userName| > 50 || |socketId| > 50 then Some(TooLongMessage(50))
    else None
  }

  /** Whether `changeVideo` succeeds: the URL parses, the room is active, and the
      history row fits its columns. */
  predicate ChangeSucceeds(rows: seq<RoomRow>, roomCode: string, videoUrl: Option<string>, videoTitle: Option<string>,
                           addedBy: Option<string>, urlParses: string -> bool)
  {
    var parsed := VideoParser.ParseVideoUrl(videoUrl, urlParses);
    parsed.Ok? && FindActive(rows, roomCode).Some?
    && |HistoryTitle(videoTitle, parsed.value.url)| <= 200 && |HistoryAddedBy(addedBy)| <= 50
  }

  /** The `checkExistsFn` that `createRoom` hands the generator: some active room uses the code. */
  function TakenIn(rows: seq<RoomRow>): string -> bool {
    (code: string) => FindActive(rows, code).Some?
  }

  /** The attempt whose code `createRoom` keeps: the first of ten whose code no
      active room of `rows` uses. */
  function FreeAttempt(rows: seq<RoomRow>, random: nat -> RoomCodeGenerator.CharIndex, draw: nat): Option<nat> {
    RoomCodeGenerator.FirstUntaken(TakenIn(rows), random, draw, RoomCodeGenerator.DefaultMaxAttempts)
  }

  /** Whether `createRoom` succeeds: a free code is drawn, the row passes the model's
      validators and fits its columns, and no row, active or not, already holds the
      code (the `UNIQUE` constraint on `room_code`). */
  predicate CreateSucceeds(rows: seq<RoomRow>, name: string, createdBy: string,
                           random: nat -> RoomCodeGenerator.CharIndex, draw: nat)
  {
    var a := FreeAttempt(rows, random, draw);
    a.Some?
    && var code := RoomCodeGenerator.AttemptCode(random, draw, a.value);
       CreateValidationErrors(code, name, createdBy) == [] && |name| <= 100 && |createdBy| <= 50
       && forall j :: 0 <= j < |rows| ==> rows[j].roomCode != code
  }

  /** Whether some admin row of room `roomId` belongs to `socketId`. */
  predicate IsAdminOf(ps: seq<Participant>, roomId: nat, socketId: string) {
    exists k :: 0 <= k < |ps| && ps[k].roomId == roomId && ps[k].socketId == socketId && ps[k].isAdmin
  }

  class RoomService {
    const rooms: RoomTable
    var participants: seq<Participant>
    var history: seq<HistoryEntry>
    var nextId: nat
    var draw: nat

    ghost predicate Valid()
      reads this`participants, this`nextId, rooms
    {
      rooms.Valid()
      && UniqueIds(participants) && UniqueSocketIds(participants) && IdsBelow(participants, nextId)
      && (forall k :: 0 <= k < |participants| ==> participants[k].roomId < |rooms.rows|)
    }

    constructor ()
      ensures Valid() && fresh(rooms)
      ensures rooms.rows == [] && participants == [] && history == [] && nextId == 0 && draw == 0
    {
      rooms := new RoomTable();
      participants := [];
      history := [];
      nextId := 0;
      draw := 0;
    }

    /** The `generateUniqueRoomCode` call of `createRoom`: draws codes until one no
        active room uses, and advances the draw position by the draws it spent. */
    method DrawFreeCode(random: nat -> RoomCodeGenerator.CharIndex) returns (code: Option<string>)
      modifies this
      ensures participants == old(participants) && history == old(history) && nextId == old(nextId)
      ensures draw == old(draw) + RoomCodeGenerator.CodeLength *
                (if FreeAttempt(rooms.rows, random, old(draw)).Some?
                 then FreeAttempt(rooms.rows, random, old(draw)).value + 1
                 else RoomCodeGenerator.DefaultMaxAttempts)
      ensures code.Some? <==> FreeAttempt(rooms.rows, random, old(draw)).Some?
      ensures code.Some? ==> code.value == RoomCodeGenerator.AttemptCode(random, old(draw),
                                             FreeAttempt(rooms.rows, random, old(draw)).value)
                             && FindActive(rooms.rows, code.value).None?
    {
      var gen, next, checks := RoomCodeGenerator.GenerateUniqueRoomCode(TakenIn(rooms.rows), random, draw);
      draw := next;
      code := if gen.Ok? then Some(gen.value) else None;
    }

    /** `createRoom(name, createdBy)`: a code no active room uses, then the insert.
        Every failure is reported as 'Failed to create room'. */
    method CreateRoom(name: string, createdBy: string, random: nat -> RoomCodeGenerator.CharIndex, now: int)
      returns (r: Result<CreatedRoom, string>)
      requires Valid()
      modifies this, rooms
      ensures Valid()
      ensures participants == old(participants) && history == old(history) && nextId == old(nextId)
      ensures draw == old(draw) + RoomCodeGenerator.CodeLength *
                (if FreeAttempt(old(rooms.rows), random, old(draw)).Some?
                 then FreeAttempt(old(rooms.rows), random, old(draw)).value + 1
                 else RoomCodeGenerator.DefaultMaxAttempts)
      ensures r.Ok? <==> CreateSucceeds(old(rooms.rows), name, createdBy, random, old(draw))
      ensures r.Err? ==> r.error == "Failed to create room" && rooms.rows == old(rooms.rows)
      ensures r.Ok? ==> r.value.roomCode == RoomCodeGenerator.AttemptCode(random, old(draw),
                                              FreeAttempt(old(rooms.rows), random, old(draw)).value)
      ensures r.Ok? ==> r.value.id == |old(rooms.rows)|
                        && FindActive(old(rooms.rows), r.value.roomCode).None?
                        && r.value == CreatedRoom(r.value.id, r.value.roomCode, name, createdBy, None, Paused, 0.0)
                        && rooms.rows == old(rooms.rows) + [RoomRow(r.value.roomCode, name, createdBy, None, Paused, 0.0, now, true)]
    {
      var code := DrawFreeCode(random);
      if code.None? {
        return Err("Failed to create room");
      }
      var created := rooms.Create(code.value, name, createdBy, now);
      if created.Err? {
        return Err("Failed to create room");
      }
      r := Ok(CreatedRoom(created.value, code.value, name, createdBy, None, Paused, 0.0));
    }

    /** `getRoomByCode(roomCode)`: the active room with its participants; its
        `lastActivity` is refreshed first. */
    method GetRoomByCode(roomCode: string, now: int) returns (r: Result<RoomView, string>)
      requires Valid()
      modifies rooms
      ensures Valid()
      ensures SameKeys(old(rooms.rows), rooms.rows)
      ensures FindActive(old(rooms.rows), roomCode).None? ==> r == Err("Room not found") && rooms.rows == old(rooms.rows)
      ensures FindActive(old(rooms.rows), roomCode).Some? ==>
                var i := FindActive(old(rooms.rows), roomCode).value;
                rooms.rows == old(rooms.rows)[i := old(rooms.rows)[i].(lastActivity := now)]
                && r == Ok(RoomView(i, rooms.rows[i], InRoom(participants, i)))
    {
      var found := rooms.FindByCode(roomCode);
      if found.None? {
        return Err("Room not found");
      }
      var i := found.value;
      rooms.UpdateActivity(i, now);
      r := Ok(RoomView(i, rooms.rows[i], InRoom(participants, i)));
    }

    /** `deleteRoom(roomCode, socketId)`: only an admin of the room may delete it, and
        deleting only deactivates it; participants stay. */
    method DeleteRoom(roomCode: string, socketId: string) returns (r: Result<bool, string>)
      requires Valid()
      modifies rooms
      ensures Valid()
      ensures FindActive(old(rooms.rows), roomCode).None? ==> r == Err("Room not found") && rooms.rows == old(rooms.rows)
      ensures FindActive(old(rooms.rows), roomCode).Some? ==>
                var i := FindActive(old(rooms.rows), roomCode).value;
                if IsAdminOf(participants, i, socketId) then
                  r == Ok(true) && rooms.rows == old(rooms.rows)[i := old(rooms.rows)[i].(isActive := false)]
                else
                  r == Err("Only room admin can delete the room") && rooms.rows == old(rooms.rows)
    {
      var found := rooms.FindByCode(roomCode);
      if found.None? {
        return Err("Room not found");
      }
      var i := found.value;
      if !IsAdminOf(participants, i, socketId) {
        return Err("Only room admin can delete the room");
      }
      rooms.Deactivate(i);
      r := Ok(true);
    }

    /** `addParticipant(roomCode, userName, socketId, isAdmin)`. A socket that already
        has a row, in any room, gets that row back and nothing is created. */
    method AddParticipant(roomCode: string, userName: string, socketId: string, isAdmin: bool, now: int)
      returns (r: Result<Participant, string>)
      requires Valid()
      modifies this, rooms
      ensures Valid()
      ensures history == old(history) && draw == old(draw)
      ensures SameKeys(old(rooms.rows), rooms.rows)
      ensures FindActive(old(rooms.rows), roomCode).None? ==>
                r == Err("Room not found") && participants == old(participants) && nextId == old(nextId)
                && rooms.rows == old(rooms.rows)
      ensures FindActive(old(rooms.rows), roomCode).Some? && FindBySocketId(old(participants), socketId).Some? ==>
                r == Ok(FindBySocketId(old(participants), socketId).value)
                && participants == old(participants) && nextId == old(nextId) && rooms.rows == old(rooms.rows)
      ensures FindActive(old(rooms.rows), roomCode).Some? && FindBySocketId(old(participants), socketId).None?
              && AddFailure(userName, socketId).Some? ==>
                r == Err(AddFailure(userName, socketId).value)
                && participants == old(participants) && nextId == old(nextId) && rooms.rows == old(rooms.rows)
      ensures FindActive(old(rooms.rows), roomCode).Some? && FindBySocketId(old(participants), socketId).None?
              && AddFailure(userName, socketId).None? ==>
                var i := FindActive(old(rooms.rows), roomCode).value;
                var p := Participant(old(nextId), i, userName, socketId, isAdmin, now);
                r == Ok(p) && participants == old(participants) + [p] && nextId == old(nextId) + 1
                && rooms.rows == old(rooms.rows)[i := old(rooms.rows)[i].(lastActivity := now)]
    {
      var found := rooms.FindByCode(roomCode);
      if found.None? {
        return Err("Room not found");
      }
      var i := found.value;
      var existing := FindBySocketId(participants, socketId);
      if existing.Some? {
        return Ok(existing.value);
      }
      var failure := AddFailure(userName, socketId);
      if failure.Some? {
        return Err(failure.value);
      }
      var p := Participant(nextId, i, userName, socketId, isAdmin, now);
      participants := participants + [p];
      nextId := nextId + 1;
      rooms.UpdateActivity(i, now);
      r := Ok(p);
    }

    /** `removeParticipant(socketId)`: null when the socket has no row; otherwise the
        row goes, a departing admin hands over to the earliest joiner left, and a
        room left empty is deactivated. */
    method RemoveParticipant(socketId: string) returns (r: Option<Removal>)
      requires Valid()
      modifies this, rooms
      ensures Valid()
      ensures history == old(history) && nextId == old(nextId) && draw == old(draw)
      ensures FindBySocketId(old(participants), socketId).None? ==>
                r.None? && participants == old(participants) && rooms.rows == old(rooms.rows)
      ensures FindBySocketId(old(participants), socketId).Some? ==>
                var x := FindBySocketId(old(participants), socketId).value;
                var remaining := RemainingAfterLeave(old(participants), x);
                r == Some(Removal(x.roomId, x.userName, x.socketId, x.isAdmin, remaining))
                && participants == AfterLeave(old(participants), x)
                && rooms.rows == if remaining == [] then old(rooms.rows)[x.roomId := old(rooms.rows)[x.roomId].(isActive := false)]
                                 else old(rooms.rows)
    {
      var found := FindBySocketId(participants, socketId);
      if found.None? {
        return None;
      }
      var x := found.value;
      assert x.roomId < |rooms.rows| by {
        var k :| 0 <= k < |participants| && participants[k] == x;
      }
      var remaining;
      participants, remaining := LeaveRows(participants, x, nextId, |rooms.rows|);
      if |remaining| == 0 {
        rooms.Deactivate(x.roomId);
      }
      r := Some(Removal(x.roomId, x.userName, x.socketId, x.isAdmin, remaining));
    }

    /** `removeParticipantById(participantId)`, the kick: unknown ids and admins are
        refused and nothing is deleted. The target's room is not checked. */
    method RemoveParticipantById(participantId: nat) returns (r: Result<Removal, string>)
      requires Valid()
      modifies this, rooms
      ensures Valid()
      ensures history == old(history) && nextId == old(nextId) && draw == old(draw)
      ensures FindById(old(participants), participantId).None? ==>
                r == Err("Participant not found") && participants == old(participants) && rooms.rows == old(rooms.rows)
      ensures FindById(old(participants), participantId).Some? && FindById(old(participants), participantId).value.isAdmin ==>
                r == Err("Cannot kick the room admin") && participants == old(participants) && rooms.rows == old(rooms.rows)
      ensures FindById(old(participants), participantId).Some? && !FindById(old(participants), participantId).value.isAdmin ==>
                var x := FindById(old(participants), participantId).value;
                var remaining := GetByRoomId(Without(old(participants), x.id), x.roomId);
                r == Ok(Removal(x.roomId, x.userName, x.socketId, false, remaining))
                && participants == Without(old(participants), x.id)
                && rooms.rows == if remaining == [] then old(rooms.rows)[x.roomId := old(rooms.rows)[x.roomId].(isActive := false)]
                                 else old(rooms.rows)
    {
      var found := FindById(participants, participantId);
      if found.None? {
        return Err("Participant not found");
      }
      var x := found.value;
      if x.isAdmin {
        return Err("Cannot kick the room admin");
      }
      ghost var before := participants;
      participants := Without(participants, x.id);
      var remaining := GetByRoomId(participants, x.roomId);
      if |remaining| == 0 {
        rooms.Deactivate(x.roomId);
      }
      WithoutKeepsTable(before, x.id, nextId, |rooms.rows|);
      r := Ok(Removal(x.roomId, x.userName, x.socketId, false, remaining));
    }

    /** `getParticipants(roomCode)`: the active room's participants in join order. */
    function GetParticipants(roomCode: string): (r: Result<seq<Participant>, string>)
      reads this, rooms
      ensures FindActive(rooms.rows, roomCode).None? <==> r == Err("Room not found")
      ensures r.Ok? ==> SortedByJoinedAt(r.value)
                        && multiset(r.value) == multiset(InRoom(participants, FindActive(rooms.rows, roomCode).value))
    {
      var found := FindActive(rooms.rows, roomCode);
      if found.None? then Err("Room not found") else Ok(GetByRoomId(participants, found.value))
    }

    /** `getParticipantBySocketId(socketId)`. */
    function GetParticipantBySocketId(socketId: string): (r: Option<Participant>)
      reads this
      ensures r.Some? ==> r.value in participants && r.value.socketId == socketId
      ensures r.None? <==> forall k :: 0 <= k < |participants| ==> participants[k].socketId != socketId
    {
      FindBySocketId(participants, socketId)
    }

    /** `updateVideoState(roomCode, state, currentTime)`. */
    method UpdateVideoState(roomCode: string, state: VideoState, currentTime: real, now: int)
      returns (r: Result<VideoStateResult, string>)
      requires Valid()
      modifies rooms
      ensures Valid()
      ensures SameKeys(old(rooms.rows), rooms.rows)
      ensures FindActive(old(rooms.rows), roomCode).None? ==> r == Err("Room not found") && rooms.rows == old(rooms.rows)
      ensures FindActive(old(rooms.rows), roomCode).Some? ==>
                var i := FindActive(old(rooms.rows), roomCode).value;
                if currentTime >= 0.0 then
                  r == Ok(VideoStateResult(roomCode, state, currentTime))
                  && rooms.rows == old(rooms.rows)[i := old(rooms.rows)[i].(videoState := state, currentTime := currentTime, lastActivity := now)]
                else
                  r == Err(ValidationMessage(["Validation min on currentTime failed"])) && rooms.rows == old(rooms.rows)
    {
      var found := rooms.FindByCode(roomCode);
      if found.None? {
        return Err("Room not found");
      }
      var i := found.value;
      var saved := rooms.UpdateVideoState(i, state, currentTime, now);
      if !saved {
        return Err(ValidationMessage(["Validation min on currentTime failed"]));
      }
      r := Ok(VideoStateResult(rooms.rows[i].roomCode, state, currentTime));
    }

    /** `changeVideo(roomCode, videoUrl, videoTitle, addedBy)`: the URL is parsed before
        the room is touched; on success the room holds the canonical URL, paused at 0,
        and one history row is added. A title or name too long for its column fails
        the history insert after the room was already saved. */
    method ChangeVideo(roomCode: string, videoUrl: Option<string>, videoTitle: Option<string>,
                       addedBy: Option<string>, urlParses: string -> bool, now: int)
      returns (r: Result<ChangeResult, string>)
      requires Valid()
      modifies this, rooms
      ensures Valid()
      ensures participants == old(participants) && nextId == old(nextId) && draw == old(draw)
      ensures SameKeys(old(rooms.rows), rooms.rows)
      ensures r.Ok? <==> ChangeSucceeds(old(rooms.rows), roomCode, videoUrl, videoTitle, addedBy, urlParses)
      ensures r.Ok? ==> r.value.currentVideoUrl == r.value.videoInfo.url
                        && r.value.videoInfo == VideoParser.ParseVideoUrl(videoUrl, urlParses).value
      ensures VideoParser.ParseVideoUrl(videoUrl, urlParses).Err? ==>
                r == Err(VideoParser.ErrorMessage(VideoParser.ParseVideoUrl(videoUrl, urlParses).error))
                && rooms.rows == old(rooms.rows) && history == old(history)
      ensures VideoParser.ParseVideoUrl(videoUrl, urlParses).Ok? && FindActive(old(rooms.rows), roomCode).None? ==>
                r == Err("Room not found") && rooms.rows == old(rooms.rows) && history == old(history)
      ensures VideoParser.ParseVideoUrl(videoUrl, urlParses).Ok? && FindActive(old(rooms.rows), roomCode).Some? ==>
                var info := VideoParser.ParseVideoUrl(videoUrl, urlParses).value;
                var i := FindActive(old(rooms.rows), roomCode).value;
                var title := HistoryTitle(videoTitle, info.url);
                var adder := HistoryAddedBy(addedBy);
                rooms.rows == old(rooms.rows)[i := old(rooms.rows)[i].(currentVideoUrl := Some(info.url), currentTime := 0.0,
                                                                    videoState := Paused, lastActivity := now)]
                && (if |title| > 200 then r == Err(TooLongMessage(200)) && history == old(history)
                    else if |adder| > 50 then r == Err(TooLongMessage(50)) && history == old(history)
                    else r == Ok(ChangeResult(roomCode, info.url, Paused, 0.0, info))
                         && history == old(history) + [HistoryEntry(i, info.url, title, adder, now)])
    {
      var parsed := VideoParser.ParseVideoUrl(videoUrl, urlParses);
      if parsed.Err? {
        return Err(VideoParser.ErrorMessage(parsed.error));
      }
      var info := parsed.value;
      var found := rooms.FindByCode(roomCode);
      if found.None? {
        return Err("Room not found");
      }
      var i := found.value;
      rooms.ChangeVideo(i, info.url, now);
      var title := HistoryTitle(videoTitle, info.url);
      var adder := HistoryAddedBy(addedBy);
      if |title| > 200 {
        return Err(TooLongMessage(200));
      }
      if |adder| > 50 {
        return Err(TooLongMessage(50));
      }
      history := history + [HistoryEntry(i, info.url, title, adder, now)];
      r := Ok(ChangeResult(rooms.rows[i].roomCode, info.url, Paused, 0.0, info));
    }

    /** `cleanupInactiveRooms()`: deactivates the active rooms idle for more than 24
        hours and returns how many there were. */
    method CleanupInactiveRooms(now: int) returns (count: nat)
      requires Valid()
      modifies rooms
      ensures Valid()
      ensures |rooms.rows| == |old(rooms.rows)|
      ensures forall i :: 0 <= i < |rooms.rows| ==> rooms.rows[i] == SweepRow(old(rooms.rows)[i], now - DayMillis)
      ensures count == CountStale(old(rooms.rows), now - DayMillis)
    {
      count := rooms.DeactivateStale(now - DayMillis);
    }
  }

  /** The participant rows once `x` has left, and the roster `removeParticipant`
      returns: destroy the row, then hand the admin flag to the earliest joiner left
      when `x` was the admin. */
  method LeaveRows(ps: seq<Participant>, x: Participant, bound: nat, roomCount: nat)
    returns (after: seq<Participant>, remaining: seq<Participant>)
    requires UniqueIds(ps) && UniqueSocketIds(ps) && IdsBelow(ps, bound)
    requires forall k :: 0 <= k < |ps| ==> ps[k].roomId < roomCount
    ensures after == AfterLeave(ps, x) && remaining == RemainingAfterLeave(ps, x)
    ensures UniqueIds(after) && UniqueSocketIds(after) && IdsBelow(after, bound)
    ensures forall k :: 0 <= k < |after| ==> after[k].roomId < roomCount
  {
    var rest := Without(ps, x.id);
    remaining := GetByRoomId(rest, x.roomId);
    WithoutKeepsTable(ps, x.id, bound, roomCount);
    if x.isAdmin && |remaining| > 0 {
      var newAdmin := remaining[0];
      PromoteKeepsTable(rest, newAdmin.id, bound, roomCount);
      after := Promote(rest, newAdmin.id);
      remaining := remaining[0 := newAdmin.(isAdmin := true)];
    } else {
      after := rest;
    }
  }

  /** Every code the generator draws passes the column validators of the rooms
      table (length 8, alphanumeric) and `validateRoomCode`, so a room creation never
      fails on its code. */
  lemma DrawnCodesValidate(random: nat -> RoomCodeGenerator.CharIndex, draw: nat, name: string, createdBy: string)
    ensures var code := RoomCodeGenerator.DrawnCode(random, draw);
            IsRoomCode(code) && Validators.ValidateRoomCode(Some(code))
            && CreateValidationErrors(code, name, createdBy) == NameValidationErrors(name, createdBy)
  {
    var code := RoomCodeGenerator.DrawnCode(random, draw);
    RoomCodeGenerator.DrawnCodeChars(random, draw);
    assert forall k :: 0 <= k < |code| ==> IsAsciiUpper(code[k]) || IsAsciiDigit(code[k]);
    NoSelectorsLength(code);
  }

  /** The validators of a new room that concern its name and creator. */
  function NameValidationErrors(name: string, createdBy: string): seq<string> {
    (if !AllWhitespace(name) then [] else ["Validation notEmpty on name failed"])
    + (if 1 <= ValidatorLength(name) <= 100 then [] else ["Validation len on name failed"])
    + (if !AllWhitespace(createdBy) then [] else ["Validation notEmpty on createdBy failed"])
    + (if 1 <= ValidatorLength(createdBy) <= 50 then [] else ["Validation len on createdBy failed"])
  }

  /** A string without the variation selectors has one validator.js length unit per
      character. */
  lemma {:induction false} NoSelectorsLength(s: string)
    requires forall k :: 0 <= k < |s| ==> s[k] != '\U{FE0E}' && s[k] != '\U{FE0F}'
    ensures ValidatorLength(s) == |s|
  {
    if s != [] {
      NoSelectorsLength(s[1..]);
    }
  }

  // ---------------------------------------------------------------------------
  // Table invariants kept by the removals

  lemma WithoutKeepsTable(ps: seq<Participant>, id: nat, bound: nat, roomCount: nat)
    requires UniqueIds(ps) && UniqueSocketIds(ps) && IdsBelow(ps, bound)
    requires forall k :: 0 <= k < |ps| ==> ps[k].roomId < roomCount
    ensures UniqueIds(Without(ps, id)) && UniqueSocketIds(Without(ps, id)) && IdsBelow(Without(ps, id), bound)
    ensures forall k :: 0 <= k < |Without(ps, id)| ==> Without(ps, id)[k].roomId < roomCount
  {
    WithoutKeepsUniqueIds(ps, id);
    WithoutKeepsUniqueSockets(ps, id);
  }

  lemma PromoteKeepsTable(ps: seq<Participant>, id: nat, bound: nat, roomCount: nat)
    requires UniqueIds(ps) && UniqueSocketIds(ps) && IdsBelow(ps, bound)
    requires forall k :: 0 <= k < |ps| ==> ps[k].roomId < roomCount
    ensures UniqueIds(Promote(ps, id)) && UniqueSocketIds(Promote(ps, id)) && IdsBelow(Promote(ps, id), bound)
    ensures forall k :: 0 <= k < |Promote(ps, id)| ==> Promote(ps, id)[k].roomId < roomCount
  {
    PromoteChangesOnlyFlag(ps, id);
  }
}
