/** The Socket.IO event handlers of the server (backend/src/services/socketService.js).
    A `SocketServer` holds the room service, the Socket.IO channels (room code to the
    sockets that joined it), the connected sockets, and the log of every emission as
    (event, recipient sockets). `socket.emit` reaches the sender only,
    `socket.to(code)` the channel without the sender, and `io.to(code)` the whole
    channel. Handlers run one at a time, to completion. */
module SocketServiceModel {
  import opened Wrappers
  import opened JsStrings
  import opened ParticipantModel
  import opened RoomModel
  import opened RoomServiceModel
  import VideoParser
  import RoomCodeGenerator

  /** A participant as it appears in a broadcast roster. */
  datatype ParticipantInfo = ParticipantInfo(id: nat, userName: string, isAdmin: bool, joinedAt: int)

  /** A room as it appears in `room-update`. */
  datatype RoomInfo = RoomInfo(id: nat, roomCode: string, name: string, createdBy: string,
                               currentVideoUrl: Option<string>, videoState: VideoState, currentTime: real)

  /** The events the server emits. A `user-left` sent on a plain leave carries no
      `kicked` field; it is `kicked == false` here. */
  datatype Event =
    | RoomUpdate(room: RoomInfo, participants: seq<ParticipantInfo>, isAdmin: bool)
    | UserJoined(userName: string, participants: seq<ParticipantInfo>)
    | UserLeft(userName: string, kicked: bool, participants: seq<ParticipantInfo>)
    | VideoPlay(currentTime: real, timestamp: int)
    | VideoPause(currentTime: real, timestamp: int)
    | VideoSeek(currentTime: real, timestamp: int)
    | VideoChanged(videoUrl: string, videoTitle: Option<string>, addedBy: Option<string>,
                   videoInfo: VideoParser.VideoInfo, timestamp: int)
    | ChatMessage(userName: string, message: string, timestamp: int)
    | SyncState(currentVideoUrl: Option<string>, videoState: VideoState, currentTime: real, timestamp: int)
    | UserKicked(message: string, roomCode: string)
    | Error(message: string)

  datatype Emission = Emission(event: Event, to: set<string>)

  const KickedMessage := "You have been removed from the room by the admin"
  const MaxChatLength := 500

  function Info(p: Participant): ParticipantInfo {
    ParticipantInfo(p.id, p.userName, p.isAdmin, p.joinedAt)
  }

  /** `participants.map((p) => ({ id, userName, isAdmin, joinedAt }))`. */
  function Roster(ps: seq<Participant>): (r: seq<ParticipantInfo>)
    ensures |r| == |ps| && forall k :: 0 <= k < |ps| ==> r[k] == Info(ps[k])
  {
    seq(|ps|, k requires 0 <= k < |ps| => Info(ps[k]))
  }

  function RoomInfoOf(id: nat, row: RoomRow): RoomInfo {
    RoomInfo(id, row.roomCode, row.name, row.createdBy, row.currentVideoUrl, row.videoState, row.currentTime)
  }

  /** The text a room id (a UUID) takes when it is passed where a room code is
      expected: 36 characters. */
  function RoomIdText(id: nat): (t: string)
    ensures |t| == 36
  {
    "00000000-0000-4000-8000-" + FixedDigits(id, 12)
  }

  function FixedDigits(n: nat, width: nat): (s: string)
    ensures |s| == width
  {
    if width == 0 then "" else FixedDigits(n / 10, width - 1) + [(('0' as int) + n % 10) as char]
  }

  /** The rows and log after `updateVideoState` was asked to store `state` at
      `currentTime` in the room with `roomCode`, with `ok` sent on success and
      `failure` otherwise. */
  predicate Stored(rows: seq<RoomRow>, rows': seq<RoomRow>, roomCode: string, state: VideoState, currentTime: real,
                   now: int, log0: seq<Emission>, log': seq<Emission>, ok: Emission, failure: Emission)
  {
    if FindActive(rows, roomCode).Some? && currentTime >= 0.0 then
      var i := FindActive(rows, roomCode).value;
      rows' == rows[i := rows[i].(videoState := state, currentTime := currentTime, lastActivity := now)]
      && log' == log0 + [ok]
    else
      rows' == rows && log' == log0 + [failure]
  }

  /** One event a socket sends, as the server receives it. */
  datatype Action =
    | Connected(socket: string)
    | JoinRoomEvent(socket: string, roomCode: string, userName: string)
    | LeaveRoomEvent(socket: string, roomCode: string)
    | PlayEvent(socket: string, roomCode: string, currentTime: real)
    | PauseEvent(socket: string, roomCode: string, currentTime: real)
    | SeekEvent(socket: string, roomCode: string, currentTime: real)
    | ChangeVideoEvent(socket: string, roomCode: string, videoUrl: Option<string>, videoTitle: Option<string>,
                       addedBy: Option<string>)
    | ChatEvent(socket: string, roomCode: string, message: Option<string>)
    | SyncEvent(socket: string, roomCode: string)
    | KickEvent(socket: string, roomCode: string, participantId: Option<nat>)
    | Disconnected(socket: string)

  /** An event and the clock when its handler runs. */
  datatype Step = Step(action: Action, now: int)

  /** Row `i` now shows `url`, paused at 0, and nothing else of the table changed. */
  predicate VideoReset(rows: seq<RoomRow>, rows': seq<RoomRow>, i: nat, url: string, now: int)
    requires i < |rows|
  {
    rows' == rows[i := rows[i].(currentVideoUrl := Some(url), currentTime := 0.0, videoState := Paused, lastActivity := now)]
  }

  /** The table with room `id` marked inactive, as a removal that empties the room
      leaves it. */
  function Deactivated(rows: seq<RoomRow>, id: nat): (rows': seq<RoomRow>)
    ensures |rows'| == |rows|
    ensures forall k :: 0 <= k < |rows| && k != id ==> rows'[k] == rows[k]
    ensures id < |rows| ==> !rows'[id].isActive && rows'[id] == rows[id].(isActive := false)
  {
    if id < |rows| then rows[id := rows[id].(isActive := false)] else rows
  }

  class SocketServer {
    const svc: RoomService
    var channels: map<string, set<string>>
    var connected: set<string>
    var log: seq<Emission>

    /** The service invariants, the one-admin rule, and: channels hold connected
        sockets only, and every participant row belongs to a connected socket. */
    ghost predicate Valid()
      reads this`channels, this`connected, svc, svc.rooms
    {
      StoreValid() && ConnectionsValid()
    }

    ghost predicate StoreValid()
      reads svc, svc.rooms
    {
      svc.Valid() && AdminInvariant(svc.participants)
    }

    ghost predicate ConnectionsValid()
      reads this`channels, this`connected, svc
    {
      (forall code :: code in channels ==> channels[code] <= connected)
      && SocketsOf(svc.participants) <= connected
    }

    /** The sockets in channel `code`. */
    function Members(code: string): set<string>
      reads this`channels
    {
      if code in channels then channels[code] else {}
    }

    constructor ()
      ensures Valid() && fresh(svc) && fresh(svc.rooms)
      ensures svc.rooms.rows == [] && svc.participants == [] && channels == map[] && connected == {} && log == []
    {
      svc := new RoomService();
      channels := map[];
      connected := {};
      log := [];
    }

    /** A new connection. */
    method Connect(socket: string)
      requires Valid()
      modifies this
      ensures Valid()
      ensures connected == old(connected) + {socket} && channels == old(channels) && log == old(log)
    {
      connected := connected + {socket};
    }

    /** `join-room`: look the room up, add the participant (admin iff the room had no
        participants), join the channel, send the roster to the joiner and announce
        the join to the others. */
    method JoinRoom(socket: string, roomCode: string, userName: string, now: int)
      requires Valid() && socket in connected
      modifies this, svc, svc.rooms
      ensures Valid()
      ensures connected == old(connected) && svc.history == old(svc.history)
      ensures roomCode == "" || userName == "" ==>
                log == old(log) + [Emission(Error("Room code and username are required"), {socket})]
                && svc.participants == old(svc.participants) && svc.rooms.rows == old(svc.rooms.rows)
                && channels == old(channels)
      ensures roomCode != "" && userName != "" && FindActive(old(svc.rooms.rows), roomCode).None? ==>
                log == old(log) + [Emission(Error("Room not found"), {socket})]
                && svc.participants == old(svc.participants) && svc.rooms.rows == old(svc.rooms.rows)
                && channels == old(channels)
      ensures roomCode != "" && userName != "" && FindActive(old(svc.rooms.rows), roomCode).Some? ==>
                var i := FindActive(old(svc.rooms.rows), roomCode).value;
                var isAdmin := RoomSize(old(svc.participants), i) == 0;
                var existing := FindBySocketId(old(svc.participants), socket);
                svc.rooms.rows == old(svc.rooms.rows)[i := old(svc.rooms.rows)[i].(lastActivity := now)]
                && (if existing.None? && AddFailure(userName, socket).Some? then
                      log == old(log) + [Emission(Error(AddFailure(userName, socket).value), {socket})]
                      && svc.participants == old(svc.participants) && channels == old(channels)
                    else
                      svc.participants == (if existing.Some? then old(svc.participants)
                                           else old(svc.participants) + [Participant(old(svc.nextId), i, userName, socket, isAdmin, now)])
                      && channels == old(channels)[roomCode := old(Members(roomCode)) + {socket}]
                      && log == old(log) + [Emission(RoomUpdate(RoomInfoOf(i, old(svc.rooms.rows)[i]), Roster(GetByRoomId(svc.participants, i)), isAdmin), {socket}),
                                            Emission(UserJoined(userName, Roster(GetByRoomId(svc.participants, i))), Members(roomCode) - {socket})])
    {
      if roomCode == "" || userName == "" {
        log := log + [Emission(Error("Room code and username are required"), {socket})];
        return;
      }
      var got := svc.GetRoomByCode(roomCode, now);
      if got.Err? {
        log := log + [Emission(Error(got.error), {socket})];
        return;
      }
      FindActiveSeesKeys(old(svc.rooms.rows), svc.rooms.rows, roomCode, 0);
      AdmitToRoom(socket, roomCode, userName, got.value, now);
    }

    /** The rest of `join-room` once the room was found: `room` is what
        `getRoomByCode` returned. */
    method AdmitToRoom(socket: string, roomCode: string, userName: string, room: RoomView, now: int)
      requires Valid() && socket in connected
      requires FindActive(svc.rooms.rows, roomCode) == Some(room.id)
      requires room.participants == InRoom(svc.participants, room.id)
      modifies this, svc, svc.rooms
      ensures Valid()
      ensures connected == old(connected) && svc.history == old(svc.history)
      ensures FindBySocketId(old(svc.participants), socket).None? && AddFailure(userName, socket).Some? ==>
                log == old(log) + [Emission(Error(AddFailure(userName, socket).value), {socket})]
                && svc.participants == old(svc.participants) && channels == old(channels)
                && svc.rooms.rows == old(svc.rooms.rows)
      ensures FindBySocketId(old(svc.participants), socket).Some? ==>
                svc.participants == old(svc.participants) && svc.rooms.rows == old(svc.rooms.rows)
      ensures FindBySocketId(old(svc.participants), socket).None? && AddFailure(userName, socket).None? ==>
                svc.participants == old(svc.participants) + [Participant(old(svc.nextId), room.id, userName, socket,
                                                                          RoomSize(old(svc.participants), room.id) == 0, now)]
                && svc.rooms.rows == old(svc.rooms.rows)[room.id := old(svc.rooms.rows)[room.id].(lastActivity := now)]
      ensures FindBySocketId(old(svc.participants), socket).Some? || AddFailure(userName, socket).None? ==>
                var isAdmin := RoomSize(old(svc.participants), room.id) == 0;
                var roster := Roster(GetByRoomId(svc.participants, room.id));
                channels == old(channels)[roomCode := old(Members(roomCode)) + {socket}]
                && log == old(log) + [Emission(RoomUpdate(RoomInfoOf(room.id, room.row), roster, isAdmin), {socket}),
                                      Emission(UserJoined(userName, roster), Members(roomCode) - {socket})]
    {
      var added := AddMember(socket, roomCode, userName, room, now);
      if added.Err? {
        log := log + [Emission(Error(added.error), {socket})];
        return;
      }
      SizeIsInRoomLength(old(svc.participants), room.id);
      AnnounceJoin(socket, roomCode, userName, room, |room.participants| == 0);
    }

    /** `socket.join(roomCode)`, then `room-update` to the joiner and `user-joined` to
        the rest of the channel, both with the room's roster in join order. */
    method AnnounceJoin(socket: string, roomCode: string, userName: string, room: RoomView, isAdmin: bool)
      requires ConnectionsValid() && socket in connected
      requires FindActive(svc.rooms.rows, roomCode) == Some(room.id)
      modifies this`channels, this`log
      ensures ConnectionsValid()
      ensures channels == old(channels)[roomCode := old(Members(roomCode)) + {socket}]
      ensures var roster := Roster(GetByRoomId(svc.participants, room.id));
              log == old(log) + [Emission(RoomUpdate(RoomInfoOf(room.id, room.row), roster, isAdmin), {socket}),
                                 Emission(UserJoined(userName, roster), Members(roomCode) - {socket})]
    {
      JoinChannel(socket, roomCode);
      var participants := svc.GetParticipants(roomCode).value;
      var roster := Roster(participants);
      log := log + [Emission(RoomUpdate(RoomInfoOf(room.id, room.row), roster, isAdmin), {socket}),
                    Emission(UserJoined(userName, roster), Members(roomCode) - {socket})];
    }

    /** `socket.join(roomCode)`. */
    method JoinChannel(socket: string, roomCode: string)
      requires ConnectionsValid() && socket in connected
      modifies this`channels
      ensures ConnectionsValid()
      ensures channels == old(channels)[roomCode := old(Members(roomCode)) + {socket}]
    {
      var members := Members(roomCode) + {socket};
      channels := channels[roomCode := members];
      forall code | code in channels ensures channels[code] <= connected {
        if code != roomCode {
          assert channels[code] == old(channels)[code];
        }
      }
    }

    /** `addParticipant` as `join-room` calls it, with the admin flag set iff the room
        had no participants: the one-admin rule survives. */
    method AddMember(socket: string, roomCode: string, userName: string, room: RoomView, now: int)
      returns (added: Result<Participant, string>)
      requires Valid() && socket in connected
      requires FindActive(svc.rooms.rows, roomCode) == Some(room.id)
      requires room.participants == InRoom(svc.participants, room.id)
      modifies svc, svc.rooms
      ensures Valid()
      ensures svc.history == old(svc.history)
      ensures FindActive(svc.rooms.rows, roomCode) == Some(room.id)
      ensures added.Err? <==> FindBySocketId(old(svc.participants), socket).None? && AddFailure(userName, socket).Some?
      ensures added.Err? ==>
                added.error == AddFailure(userName, socket).value
                && svc.participants == old(svc.participants) && svc.rooms.rows == old(svc.rooms.rows)
      ensures FindBySocketId(old(svc.participants), socket).Some? ==>
                svc.participants == old(svc.participants) && svc.rooms.rows == old(svc.rooms.rows)
      ensures FindBySocketId(old(svc.participants), socket).None? && AddFailure(userName, socket).None? ==>
                svc.participants == old(svc.participants) + [Participant(old(svc.nextId), room.id, userName, socket,
                                                                          RoomSize(old(svc.participants), room.id) == 0, now)]
                && svc.rooms.rows == old(svc.rooms.rows)[room.id := old(svc.rooms.rows)[room.id].(lastActivity := now)]
    {
      var isAdmin := |room.participants| == 0;
      SizeIsInRoomLength(svc.participants, room.id);
      ghost var before := svc.participants;
      ghost var rows := svc.rooms.rows;
      added := svc.AddParticipant(roomCode, userName, socket, isAdmin, now);
      FindActiveSeesKeys(rows, svc.rooms.rows, roomCode, 0);
      if added.Ok? && FindBySocketId(before, socket).None? {
        var p := Participant(old(svc.nextId), room.id, userName, socket, isAdmin, now);
        JoinKeepsAdminInvariant(before, p);
        SocketsOfAppend(before, p);
      }
    }

    /** `handleUserDisconnect(socketId, roomCode)`: remove the socket's row; when a
        room code is known, tell the channel, the leaver included. Without a code the
        room is looked up by its id, which never matches a room code, so nothing is
        sent. */
    method HandleUserDisconnect(socket: string, roomCode: Option<string>, now: int)
      requires Valid()
      modifies this`log, svc, svc.rooms
      ensures Valid()
      ensures svc.history == old(svc.history)
      ensures socket !in SocketsOf(svc.participants)
      ensures FindBySocketId(old(svc.participants), socket).None? ==>
                log == old(log) && svc.participants == old(svc.participants) && svc.rooms.rows == old(svc.rooms.rows)
      ensures FindBySocketId(old(svc.participants), socket).Some? ==>
                var x := FindBySocketId(old(svc.participants), socket).value;
                var remaining := RemainingAfterLeave(old(svc.participants), x);
                svc.participants == AfterLeave(old(svc.participants), x)
                && svc.rooms.rows == (if remaining == [] then Deactivated(old(svc.rooms.rows), x.roomId) else old(svc.rooms.rows))
                && log == old(log) + (if roomCode.Some? then [Emission(UserLeft(x.userName, false, Roster(remaining)), Members(roomCode.value))]
                                      else [])
    {
      var removed := RemoveSocket(socket);
      if removed.None? {
        return;
      }
      var code := roomCode;
      if code.None? {
        FindActiveNeedsEightChars(svc.rooms.rows, RoomIdText(removed.value.roomId));
        var got := svc.GetRoomByCode(RoomIdText(removed.value.roomId), now);
        code := match got
          case Ok(view) => Some(view.row.roomCode)
          case Err(_) => None;
      }
      if code.Some? {
        log := log + [Emission(UserLeft(removed.value.userName, false, Roster(removed.value.remaining)), Members(code.value))];
      }
    }

    /** `roomService.removeParticipant(socketId)` under the one-admin rule. */
    method RemoveSocket(socket: string) returns (removed: Option<Removal>)
      requires Valid()
      modifies svc, svc.rooms
      ensures Valid()
      ensures svc.history == old(svc.history)
      ensures socket !in SocketsOf(svc.participants)
      ensures FindBySocketId(old(svc.participants), socket).None? ==>
                removed.None? && svc.participants == old(svc.participants) && svc.rooms.rows == old(svc.rooms.rows)
      ensures FindBySocketId(old(svc.participants), socket).Some? ==>
                var x := FindBySocketId(old(svc.participants), socket).value;
                var remaining := RemainingAfterLeave(old(svc.participants), x);
                removed == Some(Removal(x.roomId, x.userName, x.socketId, x.isAdmin, remaining))
                && svc.participants == AfterLeave(old(svc.participants), x)
                && svc.rooms.rows == (if remaining == [] then Deactivated(old(svc.rooms.rows), x.roomId) else old(svc.rooms.rows))
    {
      ghost var before := svc.participants;
      removed := svc.RemoveParticipant(socket);
      if removed.Some? {
        var x := FindBySocketId(before, socket).value;
        LeaveKeepsAdminInvariant(before, x);
        SocketsOfAfterLeave(before, x);
      }
    }

    /** `leave-room`. The socket stays in the channel. */
    method LeaveRoom(socket: string, roomCode: string, now: int)
      requires Valid()
      modifies this`log, svc, svc.rooms
      ensures Valid()
      ensures socket !in SocketsOf(svc.participants)
      ensures svc.history == old(svc.history)
      ensures FindBySocketId(old(svc.participants), socket).None? ==>
                log == old(log) && svc.participants == old(svc.participants) && svc.rooms.rows == old(svc.rooms.rows)
      ensures FindBySocketId(old(svc.participants), socket).Some? ==>
                var x := FindBySocketId(old(svc.participants), socket).value;
                var remaining := RemainingAfterLeave(old(svc.participants), x);
                svc.participants == AfterLeave(old(svc.participants), x)
                && svc.rooms.rows == (if remaining == [] then Deactivated(old(svc.rooms.rows), x.roomId) else old(svc.rooms.rows))
                && log == old(log) + (if roomCode != "" then [Emission(UserLeft(x.userName, false, Roster(RemainingAfterLeave(old(svc.participants), x))), Members(roomCode))]
                                      else [])
    {
      HandleUserDisconnect(socket, if roomCode == "" then None else Some(roomCode), now);
    }

    /** `play-video`: store `playing` at the given time, then tell the others. No
        membership or admin check. */
    method PlayVideo(socket: string, roomCode: string, currentTime: real, now: int)
      requires Valid()
      modifies this`log, svc.rooms
      ensures Valid()
      ensures FindActive(old(svc.rooms.rows), roomCode).Some? && currentTime >= 0.0 ==>
                var i := FindActive(old(svc.rooms.rows), roomCode).value;
                svc.rooms.rows == old(svc.rooms.rows)[i := old(svc.rooms.rows)[i].(videoState := Playing, currentTime := currentTime, lastActivity := now)]
                && log == old(log) + [Emission(VideoPlay(currentTime, now), Members(roomCode) - {socket})]
      ensures !(FindActive(old(svc.rooms.rows), roomCode).Some? && currentTime >= 0.0) ==>
                svc.rooms.rows == old(svc.rooms.rows) && log == old(log) + [Emission(Error("Failed to play video"), {socket})]
    {
      StoreAndBroadcast(socket, roomCode, Playing, currentTime, VideoPlay(currentTime, now), "Failed to play video", now);
    }

    /** `pause-video`: store `paused` at the given time, then tell the others. */
    method PauseVideo(socket: string, roomCode: string, currentTime: real, now: int)
      requires Valid()
      modifies this`log, svc.rooms
      ensures Valid()
      ensures FindActive(old(svc.rooms.rows), roomCode).Some? && currentTime >= 0.0 ==>
                var i := FindActive(old(svc.rooms.rows), roomCode).value;
                svc.rooms.rows == old(svc.rooms.rows)[i := old(svc.rooms.rows)[i].(videoState := Paused, currentTime := currentTime, lastActivity := now)]
                && log == old(log) + [Emission(VideoPause(currentTime, now), Members(roomCode) - {socket})]
      ensures !(FindActive(old(svc.rooms.rows), roomCode).Some? && currentTime >= 0.0) ==>
                svc.rooms.rows == old(svc.rooms.rows) && log == old(log) + [Emission(Error("Failed to pause video"), {socket})]
    {
      StoreAndBroadcast(socket, roomCode, Paused, currentTime, VideoPause(currentTime, now), "Failed to pause video", now);
    }

    /** `seek-video`: store the new time under the room's current flag, then tell
        the others. A negative time fails after the lookup refreshed the room. */
    method SeekVideo(socket: string, roomCode: string, currentTime: real, now: int)
      requires Valid()
      modifies this`log, svc.rooms
      ensures Valid()
      ensures FindActive(old(svc.rooms.rows), roomCode).None? ==>
                svc.rooms.rows == old(svc.rooms.rows) && log == old(log) + [Emission(Error("Failed to seek video"), {socket})]
      ensures FindActive(old(svc.rooms.rows), roomCode).Some? ==>
                var i := FindActive(old(svc.rooms.rows), roomCode).value;
                if currentTime >= 0.0 then
                  svc.rooms.rows == old(svc.rooms.rows)[i := old(svc.rooms.rows)[i].(currentTime := currentTime, lastActivity := now)]
                  && log == old(log) + [Emission(VideoSeek(currentTime, now), Members(roomCode) - {socket})]
                else
                  svc.rooms.rows == old(svc.rooms.rows)[i := old(svc.rooms.rows)[i].(lastActivity := now)]
                  && log == old(log) + [Emission(Error("Failed to seek video"), {socket})]
    {
      var got := svc.GetRoomByCode(roomCode, now);
      if got.Err? {
        log := log + [Emission(Error("Failed to seek video"), {socket})];
        return;
      }
      FindActiveSeesKeys(old(svc.rooms.rows), svc.rooms.rows, roomCode, 0);
      StoreAndBroadcast(socket, roomCode, got.value.row.videoState, currentTime, VideoSeek(currentTime, now), "Failed to seek video", now);
    }

    /** `roomService.updateVideoState(...)`, then `event` to the channel without the
        sender, or `failure` to the sender alone. */
    method StoreAndBroadcast(socket: string, roomCode: string, state: VideoState, currentTime: real,
                             event: Event, failure: string, now: int)
      requires Valid()
      modifies this`log, svc.rooms
      ensures Valid()
      ensures Stored(old(svc.rooms.rows), svc.rooms.rows, roomCode, state, currentTime, now, old(log), log,
                     Emission(event, Members(roomCode) - {socket}), Emission(Error(failure), {socket}))
    {
      var r := svc.UpdateVideoState(roomCode, state, currentTime, now);
      if r.Err? {
        log := log + [Emission(Error(failure), {socket})];
        return;
      }
      log := log + [Emission(event, Members(roomCode) - {socket})];
    }

    /** `change-video`: on success `video-changed` goes to the whole channel; on any
        failure only the sender hears of it. */
    method ChangeVideo(socket: string, roomCode: string, videoUrl: Option<string>, videoTitle: Option<string>,
                       addedBy: Option<string>, urlParses: string -> bool, now: int)
      requires Valid()
      modifies this`log, svc, svc.rooms
      ensures Valid()
      ensures svc.participants == old(svc.participants)
      ensures |log| == |old(log)| + 1 && log[..|old(log)|] == old(log)
      ensures ChangeSucceeds(old(svc.rooms.rows), roomCode, videoUrl, videoTitle, addedBy, urlParses) ==>
                var info := VideoParser.ParseVideoUrl(videoUrl, urlParses).value;
                log[|old(log)|] == Emission(VideoChanged(info.url, videoTitle, addedBy, info, now), Members(roomCode))
      ensures !ChangeSucceeds(old(svc.rooms.rows), roomCode, videoUrl, videoTitle, addedBy, urlParses) ==>
                log[|old(log)|].event.Error? && log[|old(log)|].to == {socket}
      ensures VideoParser.ParseVideoUrl(videoUrl, urlParses).Err? ==>
                log[|old(log)|] == Emission(Error(VideoParser.ErrorMessage(VideoParser.ParseVideoUrl(videoUrl, urlParses).error)), {socket})
                && svc.rooms.rows == old(svc.rooms.rows) && svc.history == old(svc.history)
      ensures VideoParser.ParseVideoUrl(videoUrl, urlParses).Ok? && FindActive(old(svc.rooms.rows), roomCode).None? ==>
                log[|old(log)|] == Emission(Error("Room not found"), {socket})
                && svc.rooms.rows == old(svc.rooms.rows) && svc.history == old(svc.history)
      ensures VideoParser.ParseVideoUrl(videoUrl, urlParses).Ok? && FindActive(old(svc.rooms.rows), roomCode).Some? ==>
                var info := VideoParser.ParseVideoUrl(videoUrl, urlParses).value;
                var i := FindActive(old(svc.rooms.rows), roomCode).value;
                var title := HistoryTitle(videoTitle, info.url);
                var adder := HistoryAddedBy(addedBy);
                VideoReset(old(svc.rooms.rows), svc.rooms.rows, i, info.url, now)
                && (if |title| > 200 then log[|old(log)|] == Emission(Error(TooLongMessage(200)), {socket}) && svc.history == old(svc.history)
                    else if |adder| > 50 then log[|old(log)|] == Emission(Error(TooLongMessage(50)), {socket})
                                              && svc.history == old(svc.history)
                    else svc.history == old(svc.history) + [HistoryEntry(i, info.url, title, adder, now)])
    {
      var r := svc.ChangeVideo(roomCode, videoUrl, videoTitle, addedBy, urlParses, now);
      if r.Err? {
        log := log + [Emission(Error(r.error), {socket})];
        return;
      }
      log := log + [Emission(VideoChanged(r.value.currentVideoUrl, videoTitle, addedBy, r.value.videoInfo, now), Members(roomCode))];
    }

    /** `chat-message`: blank messages are dropped, over-long ones refused, and the
        trimmed text goes to the whole channel under the sender's participant name. */
    method ChatMessage(socket: string, roomCode: string, message: Option<string>, now: int)
      requires Valid()
      modifies this
      ensures Valid()
      ensures connected == old(connected) && channels == old(channels)
      ensures message.None? || Trim(message.value) == "" ==> log == old(log)
      ensures message.Some? && Trim(message.value) != "" && Utf16Length(message.value) > MaxChatLength ==>
                log == old(log) + [Emission(Error("Message too long (max 500 characters)"), {socket})]
      ensures message.Some? && Trim(message.value) != "" && Utf16Length(message.value) <= MaxChatLength ==>
                var p := FindBySocketId(svc.participants, socket);
                var name := if p.Some? && p.value.userName != "" then p.value.userName else "Anonymous";
                log == old(log) + [Emission(Event.ChatMessage(name, Trim(message.value), now), Members(roomCode))]
    {
      if message.None? || message.value == "" || Trim(message.value) == "" {
        return;
      }
      if Utf16Length(message.value) > MaxChatLength {
        log := log + [Emission(Error("Message too long (max 500 characters)"), {socket})];
        return;
      }
      var participant := svc.GetParticipantBySocketId(socket);
      var name := if participant.Some? && participant.value.userName != "" then participant.value.userName else "Anonymous";
      log := log + [Emission(Event.ChatMessage(name, Trim(message.value), now), Members(roomCode))];
    }

    /** `sync-request`: the room's playback state, to the requester only. */
    method SyncRequest(socket: string, roomCode: string, now: int)
      requires Valid()
      modifies this, svc.rooms
      ensures Valid()
      ensures connected == old(connected) && channels == old(channels)
      ensures FindActive(old(svc.rooms.rows), roomCode).None? ==>
                svc.rooms.rows == old(svc.rooms.rows) && log == old(log) + [Emission(Error("Failed to sync"), {socket})]
      ensures FindActive(old(svc.rooms.rows), roomCode).Some? ==>
                var i := FindActive(old(svc.rooms.rows), roomCode).value;
                var row := old(svc.rooms.rows)[i];
                svc.rooms.rows == old(svc.rooms.rows)[i := row.(lastActivity := now)]
                && log == old(log) + [Emission(SyncState(row.currentVideoUrl, row.videoState, row.currentTime, now), {socket})]
    {
      var got := svc.GetRoomByCode(roomCode, now);
      if got.Err? {
        log := log + [Emission(Error("Failed to sync"), {socket})];
        return;
      }
      var row := got.value.row;
      log := log + [Emission(SyncState(row.currentVideoUrl, row.videoState, row.currentTime, now), {socket})];
    }

    /** `kick-user`: the requester must be the admin of the room named; the target's
        own room is not checked. */
    method KickUser(socket: string, roomCode: string, participantId: Option<nat>, now: int)
      requires Valid()
      modifies this`channels, this`log, svc, svc.rooms
      ensures Valid()
      ensures svc.history == old(svc.history)
      ensures roomCode == "" || participantId.None? ==>
                log == old(log) + [Emission(Error("Room code and participant ID are required"), {socket})]
                && svc.participants == old(svc.participants) && svc.rooms.rows == old(svc.rooms.rows)
                && channels == old(channels)
      ensures roomCode != "" && participantId.Some? && FindActive(old(svc.rooms.rows), roomCode).None? ==>
                log == old(log) + [Emission(Error("Room not found"), {socket})]
                && svc.participants == old(svc.participants) && svc.rooms.rows == old(svc.rooms.rows)
                && channels == old(channels)
      ensures roomCode != "" && participantId.Some? && FindActive(old(svc.rooms.rows), roomCode).Some? ==>
                var i := FindActive(old(svc.rooms.rows), roomCode).value;
                KickByRequester(old(svc.participants), old(svc.rooms.rows)[i := old(svc.rooms.rows)[i].(lastActivity := now)],
                                old(channels), old(connected), old(log), i, participantId.value, roomCode, socket,
                                svc.participants, channels, log, svc.rooms.rows)
    {
      if roomCode == "" || participantId.None? {
        log := log + [Emission(Error("Room code and participant ID are required"), {socket})];
        return;
      }
      var got := svc.GetRoomByCode(roomCode, now);
      if got.Err? {
        log := log + [Emission(Error(got.error), {socket})];
        return;
      }
      KickAsRequester(socket, roomCode, participantId.value, got.value);
    }

    /** The requester checks of `kick-user`, against the participants of the room
        `getRoomByCode` returned. */
    ghost predicate KickByRequester(ps: seq<Participant>, rows: seq<RoomRow>, chans: map<string, set<string>>, conn: set<string>,
                                    log0: seq<Emission>, roomId: nat, participantId: nat, roomCode: string, socket: string,
                                    ps': seq<Participant>, chans': map<string, set<string>>, log': seq<Emission>, rows': seq<RoomRow>)
    {
      var requester := FindBySocketId(InRoom(ps, roomId), socket);
      if requester.None? then
        log' == log0 + [Emission(Error("You are not in this room"), {socket})] && ps' == ps && chans' == chans && rows' == rows
      else if !requester.value.isAdmin then
        log' == log0 + [Emission(Error("Only the room admin can kick users"), {socket})] && ps' == ps && chans' == chans
        && rows' == rows
      else
        KickOutcome(ps, rows, chans, conn, log0, participantId, roomCode, socket, ps', chans', log', rows')
    }

    method KickAsRequester(socket: string, roomCode: string, participantId: nat, room: RoomView)
      requires Valid()
      requires room.participants == InRoom(svc.participants, room.id)
      modifies this`channels, this`log, svc, svc.rooms
      ensures Valid()
      ensures svc.history == old(svc.history)
      ensures KickByRequester(old(svc.participants), old(svc.rooms.rows), old(channels), old(connected), old(log), room.id,
                              participantId, roomCode, socket, svc.participants, channels, log, svc.rooms.rows)
    {
      var requester := FindBySocketId(room.participants, socket);
      if requester.None? {
        log := log + [Emission(Error("You are not in this room"), {socket})];
        return;
      }
      if !requester.value.isAdmin {
        log := log + [Emission(Error("Only the room admin can kick users"), {socket})];
        return;
      }
      KickParticipant(socket, roomCode, participantId);
    }

    /** What a kick by the room's admin leaves behind: unknown ids and admins are
        refused with an error to the requester; otherwise the row is gone, a
        connected target is told and leaves the channel, and the channel hears
        `user-left` with `kicked` set and the roster of the target's room. */
    ghost predicate KickOutcome(ps: seq<Participant>, rows: seq<RoomRow>, chans: map<string, set<string>>, conn: set<string>,
                                log0: seq<Emission>, participantId: nat, roomCode: string, socket: string,
                                ps': seq<Participant>, chans': map<string, set<string>>, log': seq<Emission>, rows': seq<RoomRow>)
    {
      var target := FindById(ps, participantId);
      if target.None? then
        log' == log0 + [Emission(Error("Participant not found"), {socket})] && ps' == ps && chans' == chans && rows' == rows
      else if target.value.isAdmin then
        log' == log0 + [Emission(Error("Cannot kick the room admin"), {socket})] && ps' == ps && chans' == chans
        && rows' == rows
      else
        var x := target.value;
        ps' == Without(ps, x.id)
        && rows' == (if GetByRoomId(ps', x.roomId) == [] then Deactivated(rows, x.roomId) else rows)
        && KickNotified(chans, conn, log0, roomCode, x.socketId,
                        Emission(UserLeft(x.userName, true, Roster(GetByRoomId(ps', x.roomId))),
                                 if roomCode in chans' then chans'[roomCode] else {}),
                        chans', log')
    }

    /** The notifications of a kick: a connected target is told and leaves the
        channel, then `left` is emitted. */
    ghost predicate KickNotified(chans: map<string, set<string>>, conn: set<string>, log0: seq<Emission>,
                                 roomCode: string, target: string, left: Emission,
                                 chans': map<string, set<string>>, log': seq<Emission>)
    {
      (target in conn ==>
         chans' == (if roomCode in chans then chans[roomCode := chans[roomCode] - {target}] else chans)
         && log' == log0 + [Emission(UserKicked(KickedMessage, roomCode), {target}), left])
      && (target !in conn ==> chans' == chans && log' == log0 + [left])
    }

    /** `removeParticipantById` and the notifications that follow it. */
    method KickParticipant(socket: string, roomCode: string, participantId: nat)
      requires Valid()
      modifies this`channels, this`log, svc, svc.rooms
      ensures Valid()
      ensures svc.history == old(svc.history)
      ensures KickOutcome(old(svc.participants), old(svc.rooms.rows), old(channels), old(connected), old(log), participantId,
                          roomCode, socket, svc.participants, channels, log, svc.rooms.rows)
    {
      ghost var ps, rows, chans, log0 := svc.participants, svc.rooms.rows, channels, log;
      var removed := RemoveById(participantId);
      if removed.Err? {
        log := log + [Emission(Error(removed.error), {socket})];
        RefusedOutcome(ps, rows, chans, connected, log0, participantId, roomCode, socket, svc.participants, channels, log,
                       svc.rooms.rows, removed.error);
        return;
      }
      AnnounceKick(roomCode, removed.value);
      KickedOutcome(ps, rows, chans, connected, log0, participantId, roomCode, socket, svc.participants, channels, log,
                    svc.rooms.rows, removed.value);
    }

    /** A refused removal, reported to the requester, is the refusal a kick promises. */
    lemma RefusedOutcome(ps: seq<Participant>, rows: seq<RoomRow>, chans: map<string, set<string>>, conn: set<string>,
                         log0: seq<Emission>,
                         participantId: nat, roomCode: string, socket: string,
                         ps': seq<Participant>, chans': map<string, set<string>>, log': seq<Emission>, rows': seq<RoomRow>,
                         error: string)
      requires FindById(ps, participantId).None? ==> error == "Participant not found"
      requires FindById(ps, participantId).Some? ==>
                 FindById(ps, participantId).value.isAdmin && error == "Cannot kick the room admin"
      requires ps' == ps && rows' == rows && chans' == chans && log' == log0 + [Emission(Error(error), {socket})]
      ensures KickOutcome(ps, rows, chans, conn, log0, participantId, roomCode, socket, ps', chans', log', rows')
    {
    }

    /** A removal of a non-admin, followed by the kick notifications, is the outcome a
        kick promises. */
    lemma KickedOutcome(ps: seq<Participant>, rows: seq<RoomRow>, chans: map<string, set<string>>, conn: set<string>,
                        log0: seq<Emission>,
                        participantId: nat, roomCode: string, socket: string,
                        ps': seq<Participant>, chans': map<string, set<string>>, log': seq<Emission>, rows': seq<RoomRow>,
                        result: Removal)
      requires FindById(ps, participantId).Some? && !FindById(ps, participantId).value.isAdmin
      requires var x := FindById(ps, participantId).value;
               result == Removal(x.roomId, x.userName, x.socketId, false, GetByRoomId(Without(ps, x.id), x.roomId))
               && ps' == Without(ps, x.id)
               && rows' == (if result.remaining == [] then Deactivated(rows, x.roomId) else rows)
      requires KickNotified(chans, conn, log0, roomCode, result.socketId,
                            Emission(UserLeft(result.userName, true, Roster(result.remaining)),
                                     if roomCode in chans' then chans'[roomCode] else {}),
                            chans', log')
      ensures KickOutcome(ps, rows, chans, conn, log0, participantId, roomCode, socket, ps', chans', log', rows')
    {
    }

    /** `user-kicked` to a connected target, which then leaves the channel, and
        `user-left` to the channel. */
    method AnnounceKick(roomCode: string, result: Removal)
      requires ConnectionsValid()
      modifies this`channels, this`log
      ensures ConnectionsValid()
      ensures KickNotified(old(channels), connected, old(log), roomCode, result.socketId,
                           Emission(UserLeft(result.userName, true, Roster(result.remaining)), Members(roomCode)),
                           channels, log)
    {
      if result.socketId in connected {
        log := log + [Emission(UserKicked(KickedMessage, roomCode), {result.socketId})];
        LeaveChannel(result.socketId, roomCode);
      }
      log := log + [Emission(UserLeft(result.userName, true, Roster(result.remaining)), Members(roomCode))];
    }

    /** `roomService.removeParticipantById` under the one-admin rule. */
    method RemoveById(participantId: nat) returns (r: Result<Removal, string>)
      requires Valid()
      modifies svc, svc.rooms
      ensures Valid()
      ensures svc.history == old(svc.history)
      ensures FindById(old(svc.participants), participantId).None? ==>
                r == Err("Participant not found") && svc.participants == old(svc.participants)
                && svc.rooms.rows == old(svc.rooms.rows)
      ensures FindById(old(svc.participants), participantId).Some? && FindById(old(svc.participants), participantId).value.isAdmin ==>
                r == Err("Cannot kick the room admin") && svc.participants == old(svc.participants)
                && svc.rooms.rows == old(svc.rooms.rows)
      ensures FindById(old(svc.participants), participantId).Some? && !FindById(old(svc.participants), participantId).value.isAdmin ==>
                var x := FindById(old(svc.participants), participantId).value;
                var remaining := GetByRoomId(Without(old(svc.participants), x.id), x.roomId);
                r == Ok(Removal(x.roomId, x.userName, x.socketId, false, remaining))
                && svc.participants == Without(old(svc.participants), x.id)
                && svc.rooms.rows == (if remaining == [] then Deactivated(old(svc.rooms.rows), x.roomId) else old(svc.rooms.rows))
    {
      ghost var before := svc.participants;
      r := svc.RemoveParticipantById(participantId);
      if r.Ok? {
        var x := FindById(before, participantId).value;
        KickKeepsAdminInvariant(before, x);
        SocketsOfWithout(before, x);
      }
    }

    /** `kickedSocket.leave(roomCode)`. */
    method LeaveChannel(socket: string, roomCode: string)
      requires ConnectionsValid()
      modifies this`channels
      ensures ConnectionsValid()
      ensures channels == if roomCode in old(channels) then old(channels)[roomCode := old(channels)[roomCode] - {socket}]
                          else old(channels)
    {
      if roomCode in channels {
        channels := channels[roomCode := channels[roomCode] - {socket}];
        forall code | code in channels ensures channels[code] <= connected {
          if code != roomCode {
            assert channels[code] == old(channels)[code];
          }
        }
      }
    }

    /** A sequential run of handlers, one per event, each run to completion.
        Every room with participants has exactly one admin after every step (and
        an empty room none). A `join-room` from a socket that is not connected is
        not delivered, since only a connected socket can enter a channel; every
        other event is handled whatever the socket. */
    method Run(steps: seq<Step>, urlParses: string -> bool)
      requires Valid()
      modifies this, svc, svc.rooms
      ensures Valid()
      ensures AdminInvariant(svc.participants)
    {
      var i := 0;
      while i < |steps|
        invariant 0 <= i <= |steps|
        invariant Valid()
      {
        var now := steps[i].now;
        match steps[i].action {
          case Connected(s) => Connect(s);
          case JoinRoomEvent(s, code, name) =>
            if s in connected {
              JoinRoom(s, code, name, now);
            }
          case LeaveRoomEvent(s, code) => LeaveRoom(s, code, now);
          case PlayEvent(s, code, t) => PlayVideo(s, code, t, now);
          case PauseEvent(s, code, t) => PauseVideo(s, code, t, now);
          case SeekEvent(s, code, t) => SeekVideo(s, code, t, now);
          case ChangeVideoEvent(s, code, url, title, adder) => ChangeVideo(s, code, url, title, adder, urlParses, now);
          case ChatEvent(s, code, m) => ChatMessage(s, code, m, now);
          case SyncEvent(s, code) => SyncRequest(s, code, now);
          case KickEvent(s, code, id) => KickUser(s, code, id, now);
          case Disconnected(s) => Disconnect(s, now);
        }
        i := i + 1;
      }
    }

    /** `disconnect`: Socket.IO drops the socket from every channel, and the handler
        removes its row without telling anyone. */
    method Disconnect(socket: string, now: int)
      requires Valid()
      modifies this, svc, svc.rooms
      ensures Valid()
      ensures log == old(log)
      ensures connected == old(connected) - {socket}
      ensures channels.Keys == old(channels).Keys && forall code :: code in channels ==> channels[code] == old(channels)[code] - {socket}
      ensures svc.history == old(svc.history)
      ensures FindBySocketId(old(svc.participants), socket).None? ==>
                svc.participants == old(svc.participants) && svc.rooms.rows == old(svc.rooms.rows)
      ensures FindBySocketId(old(svc.participants), socket).Some? ==>
                var x := FindBySocketId(old(svc.participants), socket).value;
                var remaining := RemainingAfterLeave(old(svc.participants), x);
                svc.participants == AfterLeave(old(svc.participants), x)
                && svc.rooms.rows == (if remaining == [] then Deactivated(old(svc.rooms.rows), x.roomId) else old(svc.rooms.rows))
    {
      HandleUserDisconnect(socket, None, now);
      channels := map code | code in channels :: channels[code] - {socket};
      connected := connected - {socket};
    }
  }
}
