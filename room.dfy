/** The rooms table (backend/src/models/Room.js). A Sequelize instance is a copy of
    one row that `save()` writes back, so the entity updated in place is the row:
    `RoomTable` holds the rows, a room's id is its index, and each instance method
    of the source is a method updating row `i`. Times are milliseconds. */
module RoomModel {
  import opened Wrappers
  import opened JsStrings
  import ParticipantModel

  datatype VideoState = Playing | Paused

  datatype RoomRow = RoomRow(roomCode: string, name: string, createdBy: string,
                             currentVideoUrl: Option<string>, videoState: VideoState,
                             currentTime: real, lastActivity: int, isActive: bool)

  /** validator.js `isAlphanumeric` (en-US): ASCII letters and digits. */
  predicate IsAlphanumeric(s: string) {
    s != [] && forall k :: 0 <= k < |s| ==> IsAsciiAlnum(s[k])
  }

  /** The `roomCode` column: `len: [8, 8]`, `isAlphanumeric`, VARCHAR(8). */
  predicate IsRoomCode(s: string) {
    |s| == 8 && IsAlphanumeric(s)
  }

  /** The failed validators of a new room, in declaration order. */
  function CreateValidationErrors(roomCode: string, name: string, createdBy: string): seq<string> {
    (if ParticipantModel.ValidatorLength(roomCode) == 8 then [] else ["Validation len on roomCode failed"])
    + (if IsAlphanumeric(roomCode) then [] else ["Validation isAlphanumeric on roomCode failed"])
    + (if !AllWhitespace(name) then [] else ["Validation notEmpty on name failed"])
    + (if 1 <= ParticipantModel.ValidatorLength(name) <= 100 then [] else ["Validation len on name failed"])
    + (if !AllWhitespace(createdBy) then [] else ["Validation notEmpty on createdBy failed"])
    + (if 1 <= ParticipantModel.ValidatorLength(createdBy) <= 50 then [] else ["Validation len on createdBy failed"])
  }

  /** What the table keeps true of every row: the column constraints. */
  predicate RowValid(row: RoomRow) {
    IsRoomCode(row.roomCode)
    && !AllWhitespace(row.name) && 1 <= |row.name| <= 100
    && !AllWhitespace(row.createdBy) && 1 <= |row.createdBy| <= 50
    && row.currentTime >= 0.0
  }

  predicate UniqueCodes(rows: seq<RoomRow>) {
    forall i, j :: 0 <= i < j < |rows| ==> rows[i].roomCode != rows[j].roomCode
  }

  predicate RowsValid(rows: seq<RoomRow>) {
    (forall i :: 0 <= i < |rows| ==> RowValid(rows[i])) && UniqueCodes(rows)
  }

  /** `Room.findByCode(code)`: the active room with that code, if any. */
  function FindActive(rows: seq<RoomRow>, code: string, from: nat := 0): (r: Option<nat>)
    requires from <= |rows|
    ensures r.Some? ==> from <= r.value < |rows| && rows[r.value].roomCode == code && rows[r.value].isActive
    ensures r.None? ==> forall i :: from <= i < |rows| ==> !(rows[i].roomCode == code && rows[i].isActive)
    decreases |rows| - from
  {
    if from == |rows| then None
    else if rows[from].roomCode == code && rows[from].isActive then Some(from)
    else FindActive(rows, code, from + 1)
  }

  /** Rows that agree on code and activity. */
  predicate SameKeys(a: seq<RoomRow>, b: seq<RoomRow>) {
    |a| == |b| && forall i :: 0 <= i < |a| ==> a[i].roomCode == b[i].roomCode && a[i].isActive == b[i].isActive
  }

  /** A lookup by code sees only codes and activity. */
  lemma {:induction false} FindActiveSeesKeys(a: seq<RoomRow>, b: seq<RoomRow>, code: string, from: nat)
    requires SameKeys(a, b) && from <= |a|
    ensures FindActive(a, code, from) == FindActive(b, code, from)
    decreases |a| - from
  {
    if from < |a| {
      FindActiveSeesKeys(a, b, code, from + 1);
    }
  }

  /** With unique codes, the active row holding a code is the one found. */
  lemma FindActiveFindsIt(rows: seq<RoomRow>, code: string, i: nat)
    requires UniqueCodes(rows) && i < |rows| && rows[i].roomCode == code && rows[i].isActive
    ensures FindActive(rows, code) == Some(i)
  {
  }

  /** A code that is not 8 characters long never finds a room. */
  lemma FindActiveNeedsEightChars(rows: seq<RoomRow>, code: string)
    requires RowsValid(rows) && |code| != 8
    ensures FindActive(rows, code).None?
  {
  }

  /** The row a stale-room sweep leaves: active rooms idle since before `cutoff` are
      deactivated. */
  function SweepRow(row: RoomRow, cutoff: int): RoomRow {
    if row.isActive && row.lastActivity < cutoff then row.(isActive := false) else row
  }

  function CountStale(rows: seq<RoomRow>, cutoff: int): (n: nat)
    ensures n <= |rows|
  {
    if rows == [] then 0
    else CountStale(rows[..|rows| - 1], cutoff)
         + (if rows[|rows| - 1].isActive && rows[|rows| - 1].lastActivity < cutoff then 1 else 0)
  }

  /** Counting one more row adds that row's share. */
  lemma CountStaleStep(rows: seq<RoomRow>, i: nat, cutoff: int)
    requires i < |rows|
    ensures CountStale(rows[..i + 1], cutoff)
            == CountStale(rows[..i], cutoff) + (if rows[i].isActive && rows[i].lastActivity < cutoff then 1 else 0)
  {
    assert rows[..i + 1][..i] == rows[..i];
  }

  /** The sweep deactivates exactly the stale active rooms and changes nothing else. */
  lemma SweepChangesOnlyStale(row: RoomRow, cutoff: int)
    ensures SweepRow(row, cutoff).isActive <==> row.isActive && row.lastActivity >= cutoff
    ensures SweepRow(row, cutoff).(isActive := row.isActive) == row
  {
  }

  /** When every row is swept, none is left active and stale. */
  lemma {:induction false} NoStaleLeft(rows: seq<RoomRow>, cutoff: int)
    ensures CountStale(seq(|rows|, i requires 0 <= i < |rows| => SweepRow(rows[i], cutoff)), cutoff) == 0
  {
    if rows != [] {
      var swept := seq(|rows|, i requires 0 <= i < |rows| => SweepRow(rows[i], cutoff));
      var init := rows[..|rows| - 1];
      NoStaleLeft(init, cutoff);
      assert swept[..|rows| - 1] == seq(|init|, i requires 0 <= i < |init| => SweepRow(init[i], cutoff));
    }
  }

  /** Why a `Room.create` fails. */
  datatype CreateError = ValidationFailed(errors: seq<string>) | UniqueViolation | TooLong(limit: nat)

  class RoomTable {
    var rows: seq<RoomRow>

    ghost predicate Valid()
      reads this
    {
      RowsValid(rows)
    }

    constructor ()
      ensures Valid() && rows == []
    {
      rows := [];
    }

    /** `Room.findByCode(code)`. */
    function FindByCode(code: string): (r: Option<nat>)
      reads this
      ensures r.Some? ==> r.value < |rows| && rows[r.value].roomCode == code && rows[r.value].isActive
      ensures r.None? ==> forall i :: 0 <= i < |rows| ==> !(rows[i].roomCode == code && rows[i].isActive)
    {
      FindActive(rows, code)
    }

    /** `room.updateActivity()`: only `lastActivity` changes. */
    method UpdateActivity(i: nat, now: int)
      requires Valid() && i < |rows|
      modifies this
      ensures Valid()
      ensures rows == old(rows)[i := old(rows)[i].(lastActivity := now)]
      ensures SameKeys(old(rows), rows)
    {
      rows := rows[i := rows[i].(lastActivity := now)];
    }

    /** `room.updateVideoState(state, currentTime)`. The save validates `currentTime`
        (`min: 0`); a negative time makes it fail and the row stays as it was. */
    method UpdateVideoState(i: nat, state: VideoState, currentTime: real, now: int) returns (saved: bool)
      requires Valid() && i < |rows|
      modifies this
      ensures Valid()
      ensures saved <==> currentTime >= 0.0
      ensures saved ==> rows == old(rows)[i := old(rows)[i].(videoState := state, currentTime := currentTime, lastActivity := now)]
      ensures !saved ==> rows == old(rows)
      ensures SameKeys(old(rows), rows)
    {
      if currentTime < 0.0 {
        return false;
      }
      rows := rows[i := rows[i].(videoState := state, currentTime := currentTime, lastActivity := now)];
      saved := true;
    }

    /** `room.changeVideo(videoUrl)`: the new URL, position 0, paused. */
    method ChangeVideo(i: nat, videoUrl: string, now: int)
      requires Valid() && i < |rows|
      modifies this
      ensures Valid()
      ensures rows == old(rows)[i := old(rows)[i].(currentVideoUrl := Some(videoUrl), currentTime := 0.0,
                                                   videoState := Paused, lastActivity := now)]
      ensures SameKeys(old(rows), rows)
    {
      rows := rows[i := rows[i].(currentVideoUrl := Some(videoUrl), currentTime := 0.0, videoState := Paused, lastActivity := now)];
    }

    /** `room.isActive = false; room.save()`. */
    method Deactivate(i: nat)
      requires Valid() && i < |rows|
      modifies this
      ensures Valid()
      ensures rows == old(rows)[i := old(rows)[i].(isActive := false)]
    {
      rows := rows[i := rows[i].(isActive := false)];
    }

    /** `Room.create({roomCode, name, createdBy, isActive: true})`: validation, then the
        insert, which the unique index on `roomCode` (over all rooms, active or not)
        and the column widths can refuse. New rooms have no video, are paused at 0
        and are active. */
    method Create(roomCode: string, name: string, createdBy: string, now: int) returns (r: Result<nat, CreateError>)
      requires Valid()
      modifies this
      ensures Valid()
      ensures r.Ok? ==> r.value == |old(rows)|
                        && rows == old(rows) + [RoomRow(roomCode, name, createdBy, None, Paused, 0.0, now, true)]
      ensures r.Err? ==> rows == old(rows)
      ensures r.Err? <==> CreateValidationErrors(roomCode, name, createdBy) != []
                          || |name| > 100 || |createdBy| > 50
                          || exists j :: 0 <= j < |old(rows)| && old(rows)[j].roomCode == roomCode
    {
      var errs := CreateValidationErrors(roomCode, name, createdBy);
      if errs != [] {
        return Err(ValidationFailed(errs));
      }
      if |name| > 100 {
        return Err(TooLong(100));
      }
      if |createdBy| > 50 {
        return Err(TooLong(50));
      }
      var j := 0;
      while j < |rows|
        invariant 0 <= j <= |rows|
        invariant forall k :: 0 <= k < j ==> rows[k].roomCode != roomCode
      {
        if rows[j].roomCode == roomCode {
          return Err(UniqueViolation);
        }
        j := j + 1;
      }
      assert ParticipantModel.ValidatorLength(roomCode) == |roomCode| by {
        AlnumValidatorLength(roomCode);
      }
      assert |name| >= 1 && |createdBy| >= 1;
      r := Ok(|rows|);
      rows := rows + [RoomRow(roomCode, name, createdBy, None, Paused, 0.0, now, true)];
    }

    /** The bulk update of `cleanupInactiveRooms`: every active room whose last
        activity is before `cutoff` is deactivated; the count is returned. */
    method DeactivateStale(cutoff: int) returns (count: nat)
      requires Valid()
      modifies this
      ensures Valid()
      ensures |rows| == |old(rows)|
      ensures forall i :: 0 <= i < |rows| ==> rows[i] == SweepRow(old(rows)[i], cutoff)
      ensures count == CountStale(old(rows), cutoff)
    {
      var swept;
      swept, count := Sweep(rows, cutoff);
      SweepKeepsRowsValid(rows, swept, cutoff);
      rows := swept;
    }
  }

  /** The row-by-row pass of the bulk update, counting the rows it deactivates. */
  method Sweep(orig: seq<RoomRow>, cutoff: int) returns (rs: seq<RoomRow>, count: nat)
    ensures |rs| == |orig|
    ensures forall i :: 0 <= i < |rs| ==> rs[i] == SweepRow(orig[i], cutoff)
    ensures count == CountStale(orig, cutoff)
  {
    var i := 0;
    count := 0;
    rs := orig;
    while i < |rs|
      invariant |rs| == |orig| && 0 <= i <= |rs|
      invariant forall k :: 0 <= k < i ==> rs[k] == SweepRow(orig[k], cutoff)
      invariant forall k :: i <= k < |rs| ==> rs[k] == orig[k]
      invariant count == CountStale(orig[..i], cutoff)
    {
      var row := rs[i];
      CountStaleStep(orig, i, cutoff);
      if row.isActive && row.lastActivity < cutoff {
        rs := rs[i := row.(isActive := false)];
        count := count + 1;
      }
      i := i + 1;
    }
    assert orig[..i] == orig;
  }

  lemma SweepKeepsRowsValid(orig: seq<RoomRow>, swept: seq<RoomRow>, cutoff: int)
    requires RowsValid(orig) && |swept| == |orig|
    requires forall k :: 0 <= k < |swept| ==> swept[k] == SweepRow(orig[k], cutoff)
    ensures RowsValid(swept)
  {
    assert forall k :: 0 <= k < |swept| ==> swept[k].roomCode == orig[k].roomCode;
  }

  lemma {:induction false} AlnumValidatorLength(s: string)
    requires forall k :: 0 <= k < |s| ==> IsAsciiAlnum(s[k])
    ensures ParticipantModel.ValidatorLength(s) == |s|
  {
    if s != [] {
      AlnumValidatorLength(s[1..]);
    }
  }
}
