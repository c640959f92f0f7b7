/** The client's room store (frontend/src/stores/roomStore.js). The store is one
    object whose fields each `set(...)` action replaces; here it is a class whose
    methods assign those fields. Participants and the room are the shapes the
    server broadcasts. */
module RoomStoreModel {
  import opened Wrappers
  import SocketServiceModel

  type Member = SocketServiceModel.ParticipantInfo
  type RoomInfo = SocketServiceModel.RoomInfo

  /** `videoState` as the client keeps it. */
  datatype PlayerState = PlayerState(url: Option<string>, playing: bool, currentTime: real, duration: real)

  /** The argument of `updateVideoState`: a key that is present carries its new
      value (for `url`, the new value may itself be `null`). */
  datatype PlayerUpdate = PlayerUpdate(url: Option<Option<string>>, playing: Option<bool>,
                                       currentTime: Option<real>, duration: Option<real>)

  /** A chat line as the client stores it. */
  datatype Message = Message(userName: string, message: string, timestamp: int)

  datatype CurrentUser = CurrentUser(userName: Option<string>, isAdmin: bool)

  /** A snapshot of every field of the store. `messages` is nullable in the
      source's eyes: `addMessage` treats `null` as the empty list. */
  datatype StoreState = StoreState(roomInfo: Option<RoomInfo>, videoState: PlayerState,
                                   participants: seq<Member>, messages: Option<seq<Message>>,
                                   currentUser: CurrentUser, isLoading: bool, error: Option<string>)

  const InitialPlayer := PlayerState(None, false, 0.0, 0.0)

  /** The state the store is created with. */
  const Initial := StoreState(None, InitialPlayer, [], Some([]), CurrentUser(None, false), false, None)

  // ---------------------------------------------------------------------------
  // The pure parts of the actions

  /** `{ ...videoState, ...updates }`. */
  function Merge(v: PlayerState, u: PlayerUpdate): PlayerState {
    PlayerState(u.url.GetOr(v.url), u.playing.GetOr(v.playing), u.currentTime.GetOr(v.currentTime),
                u.duration.GetOr(v.duration))
  }

  /** An update that gives no key. */
  const NoUpdate := PlayerUpdate(None, None, None, None)

  /** The update whose keys are those of `u2`, and those of `u1` that `u2` does not give. */
  function Then(u1: PlayerUpdate, u2: PlayerUpdate): PlayerUpdate {
    PlayerUpdate(if u2.url.Some? then u2.url else u1.url,
                 if u2.playing.Some? then u2.playing else u1.playing,
                 if u2.currentTime.Some? then u2.currentTime else u1.currentTime,
                 if u2.duration.Some? then u2.duration else u1.duration)
  }

  /** Merging changes exactly the keys the update gives. */
  lemma MergeChangesOnlyGivenKeys(v: PlayerState, u: PlayerUpdate)
    ensures Merge(v, u).url == (if u.url.Some? then u.url.value else v.url)
    ensures Merge(v, u).playing == (if u.playing.Some? then u.playing.value else v.playing)
    ensures Merge(v, u).currentTime == (if u.currentTime.Some? then u.currentTime.value else v.currentTime)
    ensures Merge(v, u).duration == (if u.duration.Some? then u.duration.value else v.duration)
    ensures Merge(v, NoUpdate) == v
  {
  }

  /** Two merges in a row are one merge of the combined update, and merging the
      same update twice is merging it once. */
  lemma MergeComposes(v: PlayerState, u1: PlayerUpdate, u2: PlayerUpdate)
    ensures Merge(Merge(v, u1), u2) == Merge(v, Then(u1, u2))
    ensures Merge(Merge(v, u1), u1) == Merge(v, u1)
  {
  }

  predicate HasId(ps: seq<Member>, id: nat) {
    exists k :: 0 <= k < |ps| && ps[k].id == id
  }

  /** `addParticipant`: unchanged when some entry already has the id, otherwise
      `[...participants, participant]`. */
  function WithMember(ps: seq<Member>, p: Member): (r: seq<Member>)
    ensures HasId(r, p.id)
    ensures r == ps || r == ps + [p]
  {
    if HasId(ps, p.id) then ps
    else
      var r := ps + [p];
      assert r[|ps|] == p;
      r
  }

  /** `participants.filter((p) => p.id !== participantId)`. */
  function WithoutId(ps: seq<Member>, id: nat): (r: seq<Member>)
    ensures |r| <= |ps|
    ensures !HasId(r, id)
    ensures forall q :: q in r <==> q in ps && q.id != id
  {
    if ps == [] then []
    else if ps[0].id == id then WithoutId(ps[1..], id)
    else [ps[0]] + WithoutId(ps[1..], id)
  }

  predicate UniqueIds(ps: seq<Member>) {
    forall i, j :: 0 <= i < j < |ps| ==> ps[i].id != ps[j].id
  }

  /** Adding a participant keeps ids unique, and adding it again changes nothing. */
  lemma WithMemberKeepsUniqueIds(ps: seq<Member>, p: Member)
    requires UniqueIds(ps)
    ensures UniqueIds(WithMember(ps, p))
    ensures WithMember(WithMember(ps, p), p) == WithMember(ps, p)
  {
    if !HasId(ps, p.id) {
      var r := ps + [p];
      forall i, j | 0 <= i < j < |r| ensures r[i].id != r[j].id {
        if j == |ps| {
          assert r[i] == ps[i];
        } else {
          assert r[i] == ps[i] && r[j] == ps[j];
        }
      }
    }
  }

  /** The filter works piece by piece, so the surviving entries keep their order. */
  lemma {:induction false} WithoutIdAppend(a: seq<Member>, b: seq<Member>, id: nat)
    ensures WithoutId(a + b, id) == WithoutId(a, id) + WithoutId(b, id)
  {
    if a == [] {
      assert a + b == b;
    } else {
      assert (a + b)[1..] == a[1..] + b;
      WithoutIdAppend(a[1..], b, id);
    }
  }

  /** Removing an id nobody has changes nothing. */
  lemma {:induction false} WithoutAbsentId(ps: seq<Member>, id: nat)
    requires !HasId(ps, id)
    ensures WithoutId(ps, id) == ps
  {
    if ps != [] {
      assert !HasId(ps[1..], id) by {
        forall k | 0 <= k < |ps[1..]| ensures ps[1..][k].id != id {
          assert ps[1..][k] == ps[k + 1];
        }
      }
      WithoutAbsentId(ps[1..], id);
      assert ps == [ps[0]] + ps[1..];
    }
  }

  /** Removing a participant that was just added undoes the add. */
  lemma RemoveUndoesAdd(ps: seq<Member>, p: Member)
    requires !HasId(ps, p.id)
    ensures WithoutId(WithMember(ps, p), p.id) == ps
  {
    WithoutIdAppend(ps, [p], p.id);
    WithoutAbsentId(ps, p.id);
    assert [p][1..] == [];
  }

  /** `[...(messages || []), message]`. */
  function WithMessage(messages: Option<seq<Message>>, m: Message): (r: seq<Message>)
    ensures |r| == |messages.GetOr([])| + 1 && r[|r| - 1] == m
    ensures r[..|r| - 1] == messages.GetOr([])
  {
    messages.GetOr([]) + [m]
  }

  // ---------------------------------------------------------------------------
  // The store

  class RoomStore {
    var roomInfo: Option<RoomInfo>
    var videoState: PlayerState
    var participants: seq<Member>
    var messages: Option<seq<Message>>
    var currentUser: CurrentUser
    var isLoading: bool
    var error: Option<string>

    ghost function State(): StoreState
      reads this
    {
      StoreState(roomInfo, videoState, participants, messages, currentUser, isLoading, error)
    }

    /** `create(...)`: the initial field values. */
    constructor ()
      ensures State() == Initial
    {
      roomInfo := None;
      videoState := InitialPlayer;
      participants := [];
      messages := Some([]);
      currentUser := CurrentUser(None, false);
      isLoading := false;
      error := None;
    }

    method SetRoomInfo(info: Option<RoomInfo>)
      modifies this
      ensures State() == old(State()).(roomInfo := info)
    {
      roomInfo := info;
    }

    method UpdateVideoState(updates: PlayerUpdate)
      modifies this
      ensures State() == old(State()).(videoState := Merge(old(videoState), updates))
    {
      videoState := Merge(videoState, updates);
    }

    /** A new url starts at time 0; `playing` and `duration` are kept. */
    method SetVideoUrl(url: Option<string>)
      modifies this
      ensures State() == old(State()).(videoState := old(videoState).(url := url, currentTime := 0.0))
    {
      videoState := videoState.(url := url, currentTime := 0.0);
    }

    method SetPlaying(playing: bool)
      modifies this
      ensures State() == old(State()).(videoState := old(videoState).(playing := playing))
    {
      videoState := videoState.(playing := playing);
    }

    method SetCurrentTime(currentTime: real)
      modifies this
      ensures State() == old(State()).(videoState := old(videoState).(currentTime := currentTime))
    {
      videoState := videoState.(currentTime := currentTime);
    }

    method SetDuration(duration: real)
      modifies this
      ensures State() == old(State()).(videoState := old(videoState).(duration := duration))
    {
      videoState := videoState.(duration := duration);
    }

    method SetParticipants(ps: seq<Member>)
      modifies this
      ensures State() == old(State()).(participants := ps)
    {
      participants := ps;
    }

    method AddParticipant(p: Member)
      modifies this
      ensures State() == old(State()).(participants := WithMember(old(participants), p))
    {
      if !HasId(participants, p.id) {
        participants := participants + [p];
      }
    }

    method RemoveParticipant(id: nat)
      modifies this
      ensures State() == old(State()).(participants := WithoutId(old(participants), id))
    {
      participants := WithoutId(participants, id);
    }

    method AddMessage(m: Message)
      modifies this
      ensures State() == old(State()).(messages := Some(WithMessage(old(messages), m)))
    {
      messages := Some(WithMessage(messages, m));
    }

    method ClearMessages()
      modifies this
      ensures State() == old(State()).(messages := Some([]))
    {
      messages := Some([]);
    }

    method SetCurrentUser(userName: Option<string>, isAdmin: bool)
      modifies this
      ensures State() == old(State()).(currentUser := CurrentUser(userName, isAdmin))
    {
      currentUser := CurrentUser(userName, isAdmin);
    }

    method SetLoading(loading: bool)
      modifies this
      ensures State() == old(State()).(isLoading := loading)
    {
      isLoading := loading;
    }

    method SetError(e: Option<string>)
      modifies this
      ensures State() == old(State()).(error := e)
    {
      error := e;
    }

    method ClearError()
      modifies this
      ensures State() == old(State()).(error := None)
    {
      error := None;
    }

    /** `reset`: back to exactly the state the store was created with. */
    method Reset()
      modifies this
      ensures State() == Initial
    {
      roomInfo := None;
      videoState := InitialPlayer;
      participants := [];
      messages := Some([]);
      currentUser := CurrentUser(None, false);
      isLoading := false;
      error := None;
    }
  }
}
