/** The client's playback synchronisation (frontend/src/hooks/useVideoSync.js).
    A `VideoSync` is one mounted hook: the two refs (`isSyncing`, `lastSeekTime`),
    the timers it scheduled, whether its socket listeners are subscribed, and logs
    of what it did to the outside world: the events it emitted, the `seekTo` calls
    on the player and the toasts. The player's position (`getCurrentTime()`, or
    `None` when `playerRef.current` is null) and the clock are parameters. */
module VideoSyncModel {
  import opened Wrappers
  import opened RoomStoreModel
  import RoomModel

  /** Seconds of drift a client tolerates before it re-seeks. */
  const SyncTolerance: real := 1.5
  /** Milliseconds within which a second local seek is dropped. */
  const SeekDebounceMs: int := 500
  /** Milliseconds `isSyncing` stays set after a remote event. */
  const SyncWindowMs: int := 1000

  /** The events the hook emits (`socketEmit.*`). */
  datatype Outgoing =
    | PlayVideo(roomCode: string, currentTime: real)
    | PauseVideo(roomCode: string, currentTime: real)
    | SeekVideo(roomCode: string, currentTime: real)
    | ChangeVideo(roomCode: string, videoUrl: string, videoTitle: Option<string>, userName: Option<string>)
    | RequestSync(roomCode: string)

  /** A `seekTo(amount, type)` call on the player; `inSeconds` is whether the
      `'seconds'` type was passed. */
  datatype SeekCall = SeekCall(amount: real, inSeconds: bool)

  datatype Toast = Success(text: string) | Failure(text: string)

  function Abs(x: real): (r: real)
    ensures r >= 0.0 && (r == x || r == -x)
  {
    if x < 0.0 then -x else x
  }

  /** `Math.abs(local - target) > SYNC_TOLERANCE`: the local player is strictly more
      than 1.5 s away from the target, on either side. */
  predicate Drifted(local: real, target: real)
    ensures Drifted(local, target) <==> !(target - SyncTolerance <= local <= target + SyncTolerance)
  {
    Abs(local - target) > SyncTolerance
  }

  /** A drift of exactly the tolerance is tolerated. */
  lemma ToleranceIsStrict(target: real)
    ensures !Drifted(target + SyncTolerance, target) && !Drifted(target - SyncTolerance, target)
    ensures Drifted(target + 2.0, target) && Drifted(target - 2.0, target)
  {
  }

  /** `now - lastSeekTime < 500`. */
  predicate Debounced(now: int, lastSeekTime: int) {
    now - lastSeekTime < SeekDebounceMs
  }

  /** The local handlers act only for the admin, and not while a remote event is
      being applied. */
  predicate LocalAllowed(isAdmin: bool, isSyncing: bool) {
    isAdmin && !isSyncing
  }

  /** `playerRef.current?.getCurrentTime() || 0`. */
  function PositionOr0(player: Option<real>): real {
    player.GetOr(0.0)
  }

  /** The timers still pending once the clock reaches `now`. */
  function Pending(timers: seq<int>, now: int): (r: seq<int>)
    ensures |r| <= |timers|
    ensures forall t :: t in r <==> t in timers && t > now
  {
    if timers == [] then []
    else if timers[0] <= now then Pending(timers[1..], now)
    else [timers[0]] + Pending(timers[1..], now)
  }

  /** Whether some timer is due at `now`. */
  predicate AnyDue(timers: seq<int>, now: int) {
    exists k :: 0 <= k < |timers| && timers[k] <= now
  }

  lemma {:induction false} PendingWhenNoneDue(timers: seq<int>, now: int)
    requires !AnyDue(timers, now)
    ensures Pending(timers, now) == timers
  {
    if timers != [] {
      assert timers[0] > now;
      assert !AnyDue(timers[1..], now) by {
        forall k | 0 <= k < |timers[1..]| ensures timers[1..][k] > now {
          assert timers[1..][k] == timers[k + 1];
        }
      }
      PendingWhenNoneDue(timers[1..], now);
      assert timers == [timers[0]] + timers[1..];
    }
  }

  lemma {:induction false} NothingPending(timers: seq<int>, now: int)
    requires forall k :: 0 <= k < |timers| ==> timers[k] <= now
    ensures Pending(timers, now) == [] && (timers != [] ==> AnyDue(timers, now))
  {
    if timers != [] {
      NothingPending(timers[1..], now);
    }
  }

  /** Accepted seeks are at least the debounce apart, the first one included
      (the ref starts at 0). */
  ghost predicate Spaced(times: seq<int>) {
    forall k :: 0 <= k < |times| ==> times[k] >= (if k == 0 then 0 else times[k - 1]) + SeekDebounceMs
  }

  ghost function LastOr0(times: seq<int>): int {
    if times == [] then 0 else times[|times| - 1]
  }

  lemma SpacedAppend(times: seq<int>, t: int)
    requires Spaced(times) && t >= LastOr0(times) + SeekDebounceMs
    ensures Spaced(times + [t]) && LastOr0(times + [t]) == t
  {
    var r := times + [t];
    forall k | 0 <= k < |r| ensures r[k] >= (if k == 0 then 0 else r[k - 1]) + SeekDebounceMs {
      if k < |times| {
        assert r[k] == times[k];
        assert times[k] >= (if k == 0 then 0 else times[k - 1]) + SeekDebounceMs;
        if k > 0 {
          assert r[k - 1] == times[k - 1];
        }
      } else if k > 0 {
        assert r[k - 1] == times[|times| - 1];
      }
    }
    assert Spaced(r);
  }

  class VideoSync {
    const roomCode: string
    const store: RoomStore
    var isSyncing: bool
    var lastSeekTime: int
    var timers: seq<int>
    var subscribed: bool
    var sent: seq<Outgoing>
    var seeks: seq<SeekCall>
    var toasts: seq<Toast>
    /** The times of the local seeks that got through the debounce. */
    ghost var acceptedSeeks: seq<int>

    /** `isSyncing` is only ever set together with a timer that will clear it, and
        `lastSeekTime` is the time of the last accepted seek. */
    ghost predicate Valid()
      reads this
    {
      (isSyncing ==> timers != [])
      && Spaced(acceptedSeeks) && lastSeekTime == LastOr0(acceptedSeeks)
    }

    constructor (roomCode: string, store: RoomStore)
      ensures Valid()
      ensures this.roomCode == roomCode && this.store == store
      ensures !isSyncing && lastSeekTime == 0 && timers == [] && !subscribed
      ensures sent == [] && seeks == [] && toasts == [] && acceptedSeeks == []
    {
      this.roomCode := roomCode;
      this.store := store;
      isSyncing := false;
      lastSeekTime := 0;
      timers := [];
      subscribed := false;
      sent := [];
      seeks := [];
      toasts := [];
      acceptedSeeks := [];
    }

    /** The effect on `[roomCode]`: with a room code it subscribes to the five
        remote events and asks for the room's state. */
    method Mount()
      requires Valid()
      modifies this
      ensures Valid()
      ensures roomCode == "" ==> subscribed == old(subscribed) && sent == old(sent)
      ensures roomCode != "" ==> subscribed && sent == old(sent) + [RequestSync(roomCode)]
      ensures isSyncing == old(isSyncing) && lastSeekTime == old(lastSeekTime) && timers == old(timers)
      ensures seeks == old(seeks) && toasts == old(toasts) && acceptedSeeks == old(acceptedSeeks)
    {
      if roomCode == "" {
        return;
      }
      subscribed := true;
      sent := sent + [RequestSync(roomCode)];
    }

    /** The effect's cleanup: the listeners go; timers already scheduled still fire. */
    method Unmount()
      requires Valid()
      modifies this
      ensures Valid()
      ensures !subscribed
      ensures isSyncing == old(isSyncing) && lastSeekTime == old(lastSeekTime) && timers == old(timers)
      ensures sent == old(sent) && seeks == old(seeks) && toasts == old(toasts) && acceptedSeeks == old(acceptedSeeks)
    {
      subscribed := false;
    }

    /** The clock reaches `now`: every due timer fires and clears `isSyncing`. Once
        the clock passes every pending timer, `isSyncing` is clear. */
    method Tick(now: int)
      requires Valid()
      modifies this
      ensures Valid()
      ensures timers == Pending(old(timers), now)
      ensures isSyncing == (old(isSyncing) && !AnyDue(old(timers), now))
      ensures (forall k :: 0 <= k < |old(timers)| ==> old(timers)[k] <= now) ==> !isSyncing && timers == []
      ensures lastSeekTime == old(lastSeekTime) && subscribed == old(subscribed)
      ensures sent == old(sent) && seeks == old(seeks) && toasts == old(toasts) && acceptedSeeks == old(acceptedSeeks)
    {
      ghost var before := timers;
      if AnyDue(timers, now) {
        isSyncing := false;
      } else {
        PendingWhenNoneDue(timers, now);
      }
      timers := Pending(timers, now);
      if forall k :: 0 <= k < |before| ==> before[k] <= now {
        NothingPending(before, now);
      }
    }

    // -------------------------------------------------------------------------
    // Local handlers (the admin's own player)

    /** `handlePlay`. */
    method HandlePlay(player: Option<real>)
      requires Valid()
      modifies this, store
      ensures Valid()
      ensures !LocalAllowed(old(store.currentUser.isAdmin), old(isSyncing)) ==>
                store.State() == old(store.State()) && sent == old(sent)
      ensures LocalAllowed(old(store.currentUser.isAdmin), old(isSyncing)) ==>
                store.State() == old(store.State()).(videoState := old(store.videoState).(playing := true, currentTime := PositionOr0(player)))
                && sent == old(sent) + [PlayVideo(roomCode, PositionOr0(player))]
      ensures isSyncing == old(isSyncing) && lastSeekTime == old(lastSeekTime) && timers == old(timers)
      ensures subscribed == old(subscribed) && seeks == old(seeks) && toasts == old(toasts) && acceptedSeeks == old(acceptedSeeks)
    {
      if !store.currentUser.isAdmin || isSyncing {
        return;
      }
      var t := PositionOr0(player);
      store.SetPlaying(true);
      store.SetCurrentTime(t);
      sent := sent + [PlayVideo(roomCode, t)];
    }

    /** `handlePause`. */
    method HandlePause(player: Option<real>)
      requires Valid()
      modifies this, store
      ensures Valid()
      ensures !LocalAllowed(old(store.currentUser.isAdmin), old(isSyncing)) ==>
                store.State() == old(store.State()) && sent == old(sent)
      ensures LocalAllowed(old(store.currentUser.isAdmin), old(isSyncing)) ==>
                store.State() == old(store.State()).(videoState := old(store.videoState).(playing := false, currentTime := PositionOr0(player)))
                && sent == old(sent) + [PauseVideo(roomCode, PositionOr0(player))]
      ensures isSyncing == old(isSyncing) && lastSeekTime == old(lastSeekTime) && timers == old(timers)
      ensures subscribed == old(subscribed) && seeks == old(seeks) && toasts == old(toasts) && acceptedSeeks == old(acceptedSeeks)
    {
      if !store.currentUser.isAdmin || isSyncing {
        return;
      }
      var t := PositionOr0(player);
      store.SetPlaying(false);
      store.SetCurrentTime(t);
      sent := sent + [PauseVideo(roomCode, t)];
    }

    /** `handleSeek`: a seek that gets through the guard and the debounce moves the
        local player (when there is one), the store's time, and is emitted. Two
        accepted seeks are always at least 500 ms apart. */
    method HandleSeek(seconds: real, player: Option<real>, now: int)
      requires Valid()
      modifies this, store
      ensures Valid()
      ensures !LocalAllowed(old(store.currentUser.isAdmin), old(isSyncing)) || Debounced(now, old(lastSeekTime)) ==>
                store.State() == old(store.State()) && sent == old(sent) && seeks == old(seeks)
                && lastSeekTime == old(lastSeekTime) && acceptedSeeks == old(acceptedSeeks)
      ensures LocalAllowed(old(store.currentUser.isAdmin), old(isSyncing)) && !Debounced(now, old(lastSeekTime)) ==>
                lastSeekTime == now && acceptedSeeks == old(acceptedSeeks) + [now]
                && seeks == old(seeks) + (if player.Some? then [SeekCall(seconds, true)] else [])
                && store.State() == old(store.State()).(videoState := old(store.videoState).(currentTime := seconds))
                && sent == old(sent) + [SeekVideo(roomCode, seconds)]
      ensures isSyncing == old(isSyncing) && timers == old(timers)
      ensures subscribed == old(subscribed) && toasts == old(toasts)
    {
      if !store.currentUser.isAdmin || isSyncing {
        return;
      }
      if now - lastSeekTime < SeekDebounceMs {
        return;
      }
      SpacedAppend(acceptedSeeks, now);
      lastSeekTime := now;
      acceptedSeeks := acceptedSeeks + [now];
      if player.Some? {
        seeks := seeks + [SeekCall(seconds, true)];
      }
      store.SetCurrentTime(seconds);
      sent := sent + [SeekVideo(roomCode, seconds)];
    }

    /** `handleVideoChange`: only the admin's request is emitted. */
    method HandleVideoChange(videoUrl: string, videoTitle: Option<string>)
      requires Valid()
      modifies this
      ensures Valid()
      ensures !store.currentUser.isAdmin ==>
                sent == old(sent) && toasts == old(toasts) + [Failure("Only admin can change the video")]
      ensures store.currentUser.isAdmin ==>
                sent == old(sent) + [ChangeVideo(roomCode, videoUrl, videoTitle, store.currentUser.userName)]
                && toasts == old(toasts) + [Success("Video changed")]
      ensures isSyncing == old(isSyncing) && lastSeekTime == old(lastSeekTime) && timers == old(timers)
      ensures subscribed == old(subscribed) && seeks == old(seeks) && acceptedSeeks == old(acceptedSeeks)
    {
      if !store.currentUser.isAdmin {
        toasts := toasts + [Failure("Only admin can change the video")];
        return;
      }
      sent := sent + [ChangeVideo(roomCode, videoUrl, videoTitle, store.currentUser.userName)];
      toasts := toasts + [Success("Video changed")];
    }

    /** `syncToTime`: re-seek (with no unit passed) only beyond the tolerance, then
        hold `isSyncing` for 1000 ms. */
    method SyncToTime(target: real, player: Option<real>, now: int)
      requires Valid()
      modifies this, store
      ensures Valid()
      ensures player.Some? && Drifted(player.value, target) ==>
                isSyncing && timers == old(timers) + [now + SyncWindowMs]
                && seeks == old(seeks) + [SeekCall(target, false)]
                && store.State() == old(store.State()).(videoState := old(store.videoState).(currentTime := target))
      ensures !(player.Some? && Drifted(player.value, target)) ==>
                isSyncing == old(isSyncing) && timers == old(timers) && seeks == old(seeks)
                && store.State() == old(store.State())
      ensures lastSeekTime == old(lastSeekTime) && subscribed == old(subscribed)
      ensures sent == old(sent) && toasts == old(toasts) && acceptedSeeks == old(acceptedSeeks)
    {
      if player.None? {
        return;
      }
      if Drifted(player.value, target) {
        isSyncing := true;
        seeks := seeks + [SeekCall(target, false)];
        store.SetCurrentTime(target);
        timers := timers + [now + SyncWindowMs];
      }
    }

    // -------------------------------------------------------------------------
    // Remote events (every client, admin included)

    /** `video-play` and `video-pause`: set the flag and the time unconditionally,
        re-seek only beyond the tolerance, hold `isSyncing` for 1000 ms. */
    method OnPlayOrPause(playing: bool, currentTime: real, player: Option<real>, now: int)
      requires Valid()
      modifies this, store
      ensures Valid()
      ensures !old(subscribed) ==>
                store.State() == old(store.State()) && isSyncing == old(isSyncing)
                && timers == old(timers) && seeks == old(seeks)
      ensures old(subscribed) ==>
                isSyncing && timers == old(timers) + [now + SyncWindowMs]
                && store.State() == old(store.State()).(videoState := old(store.videoState).(playing := playing, currentTime := currentTime))
                && seeks == old(seeks) + (if player.Some? && Drifted(player.value, currentTime) then [SeekCall(currentTime, true)] else [])
      ensures lastSeekTime == old(lastSeekTime) && subscribed == old(subscribed)
      ensures sent == old(sent) && toasts == old(toasts) && acceptedSeeks == old(acceptedSeeks)
    {
      if !subscribed {
        return;
      }
      isSyncing := true;
      store.SetPlaying(playing);
      store.SetCurrentTime(currentTime);
      if player.Some? && Drifted(player.value, currentTime) {
        seeks := seeks + [SeekCall(currentTime, true)];
      }
      timers := timers + [now + SyncWindowMs];
    }

    /** `video-seek`: always seeks the player, keeps the playing flag. */
    method OnSeek(currentTime: real, player: Option<real>, now: int)
      requires Valid()
      modifies this, store
      ensures Valid()
      ensures !old(subscribed) ==>
                store.State() == old(store.State()) && isSyncing == old(isSyncing)
                && timers == old(timers) && seeks == old(seeks)
      ensures old(subscribed) ==>
                isSyncing && timers == old(timers) + [now + SyncWindowMs]
                && store.State() == old(store.State()).(videoState := old(store.videoState).(currentTime := currentTime))
                && seeks == old(seeks) + (if player.Some? then [SeekCall(currentTime, true)] else [])
      ensures lastSeekTime == old(lastSeekTime) && subscribed == old(subscribed)
      ensures sent == old(sent) && toasts == old(toasts) && acceptedSeeks == old(acceptedSeeks)
    {
      if !subscribed {
        return;
      }
      isSyncing := true;
      store.SetCurrentTime(currentTime);
      if player.Some? {
        seeks := seeks + [SeekCall(currentTime, true)];
      }
      timers := timers + [now + SyncWindowMs];
    }

    /** `video-changed`: the new url, paused, at time 0. `isSyncing` is untouched. */
    method OnVideoChanged(videoUrl: string, addedBy: string)
      requires Valid()
      modifies this, store
      ensures Valid()
      ensures !old(subscribed) ==> store.State() == old(store.State()) && toasts == old(toasts)
      ensures old(subscribed) ==>
                store.State() == old(store.State()).(videoState := old(store.videoState).(url := Some(videoUrl), playing := false, currentTime := 0.0))
                && toasts == old(toasts) + [Success(addedBy + " changed the video")]
      ensures isSyncing == old(isSyncing) && lastSeekTime == old(lastSeekTime) && timers == old(timers)
      ensures subscribed == old(subscribed) && sent == old(sent) && seeks == old(seeks) && acceptedSeeks == old(acceptedSeeks)
    {
      if !subscribed {
        return;
      }
      store.SetVideoUrl(Some(videoUrl));
      store.SetPlaying(false);
      store.SetCurrentTime(0.0);
      toasts := toasts + [Success(addedBy + " changed the video")];
    }

    /** `sync-state`: ignored unless the room has a (non-empty) video url; otherwise
        the url, then `syncToTime`, then the playing flag. */
    method OnSyncState(currentVideoUrl: Option<string>, videoState: RoomModel.VideoState, currentTime: real,
                       player: Option<real>, now: int)
      requires Valid()
      modifies this, store
      ensures Valid()
      ensures !(old(subscribed) && currentVideoUrl.Some? && currentVideoUrl.value != "") ==>
                store.State() == old(store.State()) && isSyncing == old(isSyncing)
                && timers == old(timers) && seeks == old(seeks)
      ensures old(subscribed) && currentVideoUrl.Some? && currentVideoUrl.value != "" ==>
                var drifted := player.Some? && Drifted(player.value, currentTime);
                store.videoState == old(store.videoState).(url := currentVideoUrl, playing := videoState == RoomModel.Playing,
                                                           currentTime := if drifted then currentTime else 0.0)
                && store.State() == old(store.State()).(videoState := store.videoState)
                && isSyncing == (old(isSyncing) || drifted)
                && timers == old(timers) + (if drifted then [now + SyncWindowMs] else [])
                && seeks == old(seeks) + (if drifted then [SeekCall(currentTime, false)] else [])
      ensures lastSeekTime == old(lastSeekTime) && subscribed == old(subscribed)
      ensures sent == old(sent) && toasts == old(toasts) && acceptedSeeks == old(acceptedSeeks)
    {
      if !subscribed || currentVideoUrl.None? || currentVideoUrl.value == "" {
        return;
      }
      store.SetVideoUrl(currentVideoUrl);
      SyncToTime(currentTime, player, now);
      store.SetPlaying(videoState == RoomModel.Playing);
    }
  }
}
