/** The participants table (backend/src/models/Participant.js). Rows are values;
    the table is the sequence of rows in the order they were inserted. The UUID
    primary keys become natural numbers handed out in increasing order, and room
    ids are indices into the rooms table. */
module ParticipantModel {
  import opened Wrappers
  import opened JsStrings

  datatype Participant = Participant(id: nat, roomId: nat, userName: string, socketId: string,
                                     isAdmin: bool, joinedAt: int)

  // ---------------------------------------------------------------------------
  // Column constraints checked on create

  /** The length validator.js reports: code points, not counting the variation
      selectors U+FE0E and U+FE0F. */
  function ValidatorLength(s: string): (n: nat)
    ensures n <= |s|
  {
    if s == [] then 0
    else ValidatorLength(s[1..]) + (if s[0] == '\U{FE0E}' || s[0] == '\U{FE0F}' then 0 else 1)
  }

  /** Sequelize's `notEmpty`: the value is not made only of whitespace. */
  predicate NotEmpty(s: string) {
    !AllWhitespace(s)
  }

  /** The failed validators of `userName` (`notEmpty` and `len: [1, 50]`), in
      declaration order, as Sequelize words them. */
  function UserNameValidationErrors(userName: string): (errs: seq<string>)
    ensures errs == [] <==> NotEmpty(userName) && 1 <= ValidatorLength(userName) <= 50
  {
    (if NotEmpty(userName) then [] else ["Validation notEmpty on userName failed"])
    + (if 1 <= ValidatorLength(userName) <= 50 then [] else ["Validation len on userName failed"])
  }

  /** The message of a Sequelize validation error: one "Validation error: ..." line per
      failed validator, joined by ",\n". */
  function ValidationMessage(errs: seq<string>): string
    requires errs != []
  {
    if |errs| == 1 then "Validation error: " + errs[0]
    else "Validation error: " + errs[0] + ",\n" + ValidationMessage(errs[1..])
  }

  /** The error PostgreSQL raises when a value exceeds a VARCHAR(n) column. */
  function TooLongMessage(n: nat): string {
    "value too long for type character varying(" + (if n == 50 then "50" else if n == 200 then "200" else "n") + ")"
  }

  // ---------------------------------------------------------------------------
  // Table invariants

  predicate UniqueIds(ps: seq<Participant>) {
    forall i, j :: 0 <= i < j < |ps| ==> ps[i].id != ps[j].id
  }

  /** The unique index on `socketId`. */
  predicate UniqueSocketIds(ps: seq<Participant>) {
    forall i, j :: 0 <= i < j < |ps| ==> ps[i].socketId != ps[j].socketId
  }

  predicate IdsBelow(ps: seq<Participant>, bound: nat) {
    forall i :: 0 <= i < |ps| ==> ps[i].id < bound
  }

  // ---------------------------------------------------------------------------
  // Queries

  /** The rows of one room, in table order. */
  function InRoom(ps: seq<Participant>, roomId: nat): (rs: seq<Participant>)
    ensures |rs| <= |ps|
    ensures forall k :: 0 <= k < |rs| ==> rs[k] in ps && rs[k].roomId == roomId
  {
    if ps == [] then []
    else (if ps[0].roomId == roomId then [ps[0]] else []) + InRoom(ps[1..], roomId)
  }

  lemma {:induction false} InRoomHasAll(ps: seq<Participant>, roomId: nat, p: Participant)
    requires p in ps && p.roomId == roomId
    ensures p in InRoom(ps, roomId)
  {
    if ps[0] != p {
      InRoomHasAll(ps[1..], roomId, p);
    }
  }

  predicate SortedByJoinedAt(s: seq<Participant>) {
    forall i, j :: 0 <= i < j < |s| ==> s[i].joinedAt <= s[j].joinedAt
  }

  /** Puts `p` in front of the first row that did not join earlier. */
  function InsertByJoinedAt(p: Participant, s: seq<Participant>): (r: seq<Participant>)
    ensures multiset(r) == multiset(s) + multiset{p}
    ensures |r| == |s| + 1
  {
    if s == [] || p.joinedAt <= s[0].joinedAt then [p] + s
    else
      assert s == [s[0]] + s[1..];
      [s[0]] + InsertByJoinedAt(p, s[1..])
  }

  lemma {:induction false} InsertKeepsSorted(p: Participant, s: seq<Participant>)
    requires SortedByJoinedAt(s)
    ensures SortedByJoinedAt(InsertByJoinedAt(p, s))
  {
    if s != [] && p.joinedAt > s[0].joinedAt {
      InsertKeepsSorted(p, s[1..]);
      var r := InsertByJoinedAt(p, s[1..]);
      forall k | 0 <= k < |r| ensures s[0].joinedAt <= r[k].joinedAt {
        assert r[k] in multiset(s[1..]) + multiset{p};
        if r[k] in multiset(s[1..]) {
          var m :| 0 <= m < |s[1..]| && s[1..][m] == r[k];
          assert s[m + 1] == r[k];
        }
      }
    }
  }

  /** `ORDER BY joinedAt ASC`; rows that joined at the same instant keep their
      table order. */
  function SortByJoinedAt(s: seq<Participant>): (r: seq<Participant>)
    ensures multiset(r) == multiset(s)
    ensures |r| == |s|
    ensures SortedByJoinedAt(r)
  {
    if s == [] then []
    else
      assert s == [s[0]] + s[1..];
      InsertKeepsSorted(s[0], SortByJoinedAt(s[1..]));
      InsertByJoinedAt(s[0], SortByJoinedAt(s[1..]))
  }

  /** `Participant.getByRoomId(roomId)`. */
  function GetByRoomId(ps: seq<Participant>, roomId: nat): (r: seq<Participant>)
    ensures SortedByJoinedAt(r)
    ensures multiset(r) == multiset(InRoom(ps, roomId))
  {
    SortByJoinedAt(InRoom(ps, roomId))
  }

  /** `getByRoomId` returns exactly the room's rows, in ascending join time. */
  lemma GetByRoomIdMembers(ps: seq<Participant>, roomId: nat, p: Participant)
    ensures p in GetByRoomId(ps, roomId) <==> p in ps && p.roomId == roomId
  {
    var r := GetByRoomId(ps, roomId);
    assert p in r <==> p in multiset(r);
    assert p in InRoom(ps, roomId) <==> p in multiset(InRoom(ps, roomId));
    if p in ps && p.roomId == roomId {
      InRoomHasAll(ps, roomId, p);
    }
  }

  /** `Participant.findBySocketId(socketId)` (the joined room is looked up separately). */
  function FindBySocketId(ps: seq<Participant>, socketId: string): (r: Option<Participant>)
    ensures r.Some? ==> r.value in ps && r.value.socketId == socketId
    ensures r.None? <==> forall k :: 0 <= k < |ps| ==> ps[k].socketId != socketId
  {
    if ps == [] then None
    else if ps[0].socketId == socketId then Some(ps[0])
    else FindBySocketId(ps[1..], socketId)
  }

  /** With the unique index, the row found is the only row of that socket. */
  lemma {:induction false} FindBySocketIdUnique(ps: seq<Participant>, p: Participant)
    requires UniqueSocketIds(ps) && p in ps
    ensures FindBySocketId(ps, p.socketId) == Some(p)
  {
    if ps[0] != p {
      assert ps[0].socketId != p.socketId by {
        var k :| 0 <= k < |ps| && ps[k] == p;
      }
      assert UniqueSocketIds(ps[1..]) by {
        forall i, j | 0 <= i < j < |ps[1..]| ensures ps[1..][i].socketId != ps[1..][j].socketId {
          assert ps[1..][i] == ps[i + 1] && ps[1..][j] == ps[j + 1];
        }
      }
      FindBySocketIdUnique(ps[1..], p);
    }
  }

  /** `Participant.findByPk(id)`. */
  function FindById(ps: seq<Participant>, id: nat): (r: Option<Participant>)
    ensures r.Some? ==> r.value in ps && r.value.id == id
    ensures r.None? <==> forall k :: 0 <= k < |ps| ==> ps[k].id != id
  {
    if ps == [] then None
    else if ps[0].id == id then Some(ps[0])
    else FindById(ps[1..], id)
  }

  // ---------------------------------------------------------------------------
  // Updates

  /** `participant.destroy()`: every row with that id goes. */
  function Without(ps: seq<Participant>, id: nat): (r: seq<Participant>)
    ensures |r| <= |ps|
    ensures forall k :: 0 <= k < |r| ==> r[k] in ps && r[k].id != id
  {
    if ps == [] then []
    else (if ps[0].id == id then [] else [ps[0]]) + Without(ps[1..], id)
  }

  /** Destroying keeps every other row, in order. */
  lemma {:induction false} WithoutKeepsOthers(ps: seq<Participant>, id: nat, p: Participant)
    requires p in ps && p.id != id
    ensures p in Without(ps, id)
  {
    if ps[0] != p {
      WithoutKeepsOthers(ps[1..], id, p);
    }
  }

  /** `newAdmin.isAdmin = true; newAdmin.save()`: only that row's flag changes. */
  function Promote(ps: seq<Participant>, id: nat): (r: seq<Participant>)
    ensures |r| == |ps|
  {
    if ps == [] then []
    else [if ps[0].id == id then ps[0].(isAdmin := true) else ps[0]] + Promote(ps[1..], id)
  }

  /** Promotion sets the flag of the rows with that id and changes nothing else. */
  lemma {:induction false} PromoteChangesOnlyFlag(ps: seq<Participant>, id: nat)
    ensures forall k :: 0 <= k < |ps| ==>
              Promote(ps, id)[k] == if ps[k].id == id then ps[k].(isAdmin := true) else ps[k]
  {
    if ps != [] {
      PromoteChangesOnlyFlag(ps[1..], id);
      var q := Promote(ps, id);
      forall k | 0 <= k < |ps| ensures q[k] == if ps[k].id == id then ps[k].(isAdmin := true) else ps[k] {
        if k > 0 {
          assert q[k] == Promote(ps[1..], id)[k - 1];
          assert ps[k] == ps[1..][k - 1];
        }
      }
    }
  }

  // ---------------------------------------------------------------------------
  // Counting, and the admin rule

  function RoomSize(ps: seq<Participant>, roomId: nat): nat {
    if ps == [] then 0 else (if ps[0].roomId == roomId then 1 else 0) + RoomSize(ps[1..], roomId)
  }

  function AdminCount(ps: seq<Participant>, roomId: nat): nat {
    if ps == [] then 0
    else (if ps[0].roomId == roomId && ps[0].isAdmin then 1 else 0) + AdminCount(ps[1..], roomId)
  }

  /** Every room with at least one participant has exactly one admin, and an empty
      room has none. */
  ghost predicate AdminInvariant(ps: seq<Participant>) {
    forall r: nat :: AdminCount(ps, r) == if RoomSize(ps, r) == 0 then 0 else 1
  }

  lemma {:induction false} SizeIsInRoomLength(ps: seq<Participant>, roomId: nat)
    ensures RoomSize(ps, roomId) == |InRoom(ps, roomId)|
  {
    if ps != [] {
      SizeIsInRoomLength(ps[1..], roomId);
    }
  }

  lemma {:induction false} CountsOfAppend(ps: seq<Participant>, p: Participant, r: nat)
    ensures RoomSize(ps + [p], r) == RoomSize(ps, r) + (if p.roomId == r then 1 else 0)
    ensures AdminCount(ps + [p], r) == AdminCount(ps, r) + (if p.roomId == r && p.isAdmin then 1 else 0)
  {
    if ps != [] {
      assert (ps + [p])[1..] == ps[1..] + [p];
      CountsOfAppend(ps[1..], p, r);
    }
  }

  lemma {:induction false} WithoutAbsent(ps: seq<Participant>, id: nat)
    requires forall k :: 0 <= k < |ps| ==> ps[k].id != id
    ensures Without(ps, id) == ps
  {
    if ps != [] {
      WithoutAbsent(ps[1..], id);
    }
  }

  lemma UniqueIdsTail(ps: seq<Participant>)
    requires ps != [] && UniqueIds(ps)
    ensures UniqueIds(ps[1..])
    ensures forall k :: 0 <= k < |ps[1..]| ==> ps[1..][k].id != ps[0].id
  {
    forall i, j | 0 <= i < j < |ps[1..]| ensures ps[1..][i].id != ps[1..][j].id {
      assert ps[1..][i] == ps[i + 1] && ps[1..][j] == ps[j + 1];
    }
    forall k | 0 <= k < |ps[1..]| ensures ps[1..][k].id != ps[0].id {
      assert ps[1..][k] == ps[k + 1];
    }
  }

  /** Destroying a row takes exactly that row out of its room's counts. */
  lemma {:induction false} CountsOfWithout(ps: seq<Participant>, x: Participant, r: nat)
    requires UniqueIds(ps) && x in ps
    ensures RoomSize(Without(ps, x.id), r) + (if x.roomId == r then 1 else 0) == RoomSize(ps, r)
    ensures AdminCount(Without(ps, x.id), r) + (if x.roomId == r && x.isAdmin then 1 else 0) == AdminCount(ps, r)
  {
    UniqueIdsTail(ps);
    if ps[0] == x {
      WithoutAbsent(ps[1..], x.id);
      assert Without(ps, x.id) == ps[1..];
    } else {
      var k :| 0 <= k < |ps| && ps[k] == x;
      assert ps[0].id != x.id by {
        assert k > 0;
      }
      assert x in ps[1..] by {
        assert ps[1..][k - 1] == x;
      }
      CountsOfWithout(ps[1..], x, r);
      var w := Without(ps[1..], x.id);
      assert Without(ps, x.id) == [ps[0]] + w;
      assert ([ps[0]] + w)[1..] == w;
    }
  }

  /** Promoting a row that is not yet admin adds one admin to its room. */
  lemma {:induction false} CountsOfPromote(ps: seq<Participant>, y: Participant, r: nat)
    requires UniqueIds(ps) && y in ps && !y.isAdmin
    ensures RoomSize(Promote(ps, y.id), r) == RoomSize(ps, r)
    ensures AdminCount(Promote(ps, y.id), r) == AdminCount(ps, r) + (if y.roomId == r then 1 else 0)
  {
    UniqueIdsTail(ps);
    var q := Promote(ps, y.id);
    assert q[1..] == Promote(ps[1..], y.id);
    if ps[0] == y {
      PromoteAbsent(ps[1..], y.id);
    } else {
      var k :| 0 <= k < |ps| && ps[k] == y;
      assert ps[0].id != y.id by {
        assert k > 0;
      }
      assert y in ps[1..] by {
        assert ps[1..][k - 1] == y;
      }
      CountsOfPromote(ps[1..], y, r);
    }
  }

  lemma {:induction false} PromoteAbsent(ps: seq<Participant>, id: nat)
    requires forall k :: 0 <= k < |ps| ==> ps[k].id != id
    ensures Promote(ps, id) == ps
  {
    if ps != [] {
      PromoteAbsent(ps[1..], id);
    }
  }

  lemma {:induction false} NoAdminMeansNotAdmin(ps: seq<Participant>, r: nat, y: Participant)
    requires AdminCount(ps, r) == 0 && y in ps && y.roomId == r
    ensures !y.isAdmin
  {
    if ps[0] != y {
      NoAdminMeansNotAdmin(ps[1..], r, y);
    }
  }

  lemma {:induction false} MemberMeansNonEmpty(ps: seq<Participant>, r: nat, y: Participant)
    requires y in ps && y.roomId == r
    ensures RoomSize(ps, r) >= 1
  {
    if ps[0] != y {
      MemberMeansNonEmpty(ps[1..], r, y);
    }
  }

  /** Joining: the newcomer is admin exactly when the room was empty, so the rule
      still holds afterwards. */
  lemma JoinKeepsAdminInvariant(ps: seq<Participant>, p: Participant)
    requires AdminInvariant(ps)
    requires p.isAdmin <==> RoomSize(ps, p.roomId) == 0
    ensures AdminInvariant(ps + [p])
  {
    forall r: nat ensures AdminCount(ps + [p], r) == if RoomSize(ps + [p], r) == 0 then 0 else 1 {
      CountsOfAppend(ps, p, r);
    }
  }

  /** The rows left after `x` leaves, with the promotion `removeParticipant` makes:
      when `x` was admin and the room is not empty, its earliest joiner becomes admin. */
  function AfterLeave(ps: seq<Participant>, x: Participant): seq<Participant> {
    var rest := Without(ps, x.id);
    var remaining := GetByRoomId(rest, x.roomId);
    if x.isAdmin && |remaining| > 0 then Promote(rest, remaining[0].id) else rest
  }

  /** Leaving keeps the admin rule: a departing admin hands over to the
      earliest-joined participant left in the room. */
  lemma LeaveKeepsAdminInvariant(ps: seq<Participant>, x: Participant)
    requires AdminInvariant(ps) && UniqueIds(ps) && x in ps
    ensures AdminInvariant(AfterLeave(ps, x))
  {
    var rest := Without(ps, x.id);
    var remaining := GetByRoomId(rest, x.roomId);
    WithoutKeepsUniqueIds(ps, x.id);
    if x.isAdmin && |remaining| > 0 {
      var y := remaining[0];
      GetByRoomIdMembers(rest, x.roomId, y);
      CountsOfWithout(ps, x, x.roomId);
      MemberMeansNonEmpty(ps, x.roomId, x);
      NoAdminMeansNotAdmin(rest, x.roomId, y);
      forall r: nat ensures AdminCount(Promote(rest, y.id), r) == if RoomSize(Promote(rest, y.id), r) == 0 then 0 else 1 {
        LeaveWithHandOverAt(ps, x, rest, y, r);
      }
    } else {
      forall r: nat ensures AdminCount(rest, r) == if RoomSize(rest, r) == 0 then 0 else 1 {
        LeaveWithoutHandOverAt(ps, x, rest, r);
      }
    }
  }

  lemma LeaveWithHandOverAt(ps: seq<Participant>, x: Participant, rest: seq<Participant>, y: Participant, r: nat)
    requires AdminInvariant(ps) && UniqueIds(ps) && x in ps && x.isAdmin
    requires rest == Without(ps, x.id) && UniqueIds(rest)
    requires y in rest && y.roomId == x.roomId && !y.isAdmin
    ensures AdminCount(Promote(rest, y.id), r) == if RoomSize(Promote(rest, y.id), r) == 0 then 0 else 1
  {
    CountsOfWithout(ps, x, r);
    CountsOfPromote(rest, y, r);
    if r == x.roomId {
      MemberMeansNonEmpty(rest, r, y);
    }
  }

  lemma LeaveWithoutHandOverAt(ps: seq<Participant>, x: Participant, rest: seq<Participant>, r: nat)
    requires AdminInvariant(ps) && UniqueIds(ps) && x in ps
    requires rest == Without(ps, x.id)
    requires x.isAdmin ==> |GetByRoomId(rest, x.roomId)| == 0
    ensures AdminCount(rest, r) == if RoomSize(rest, r) == 0 then 0 else 1
  {
    CountsOfWithout(ps, x, r);
    if r == x.roomId {
      MemberMeansNonEmpty(ps, r, x);
      if x.isAdmin {
        SizeIsInRoomLength(rest, r);
        assert |InRoom(rest, r)| == |GetByRoomId(rest, r)|;
        SizeZeroNoAdmins(rest, r);
      } else if RoomSize(rest, r) == 0 {
        RoomOfOneHasNoOtherAdmin(ps, x);
      }
    }
  }

  /** Kicking a participant who is not admin keeps the admin rule. */
  lemma KickKeepsAdminInvariant(ps: seq<Participant>, x: Participant)
    requires AdminInvariant(ps) && UniqueIds(ps) && x in ps && !x.isAdmin
    ensures AdminInvariant(Without(ps, x.id))
  {
    forall r: nat ensures AdminCount(Without(ps, x.id), r) == if RoomSize(Without(ps, x.id), r) == 0 then 0 else 1 {
      CountsOfWithout(ps, x, r);
      if r == x.roomId {
        MemberMeansNonEmpty(ps, r, x);
        if RoomSize(Without(ps, x.id), r) == 0 {
          RoomOfOneHasNoOtherAdmin(ps, x);
        }
      }
    }
  }

  /** If `x` is alone in its room, the room's admins are `x`'s flag. */
  lemma {:induction false} RoomOfOneHasNoOtherAdmin(ps: seq<Participant>, x: Participant)
    requires UniqueIds(ps) && x in ps && RoomSize(Without(ps, x.id), x.roomId) == 0
    ensures AdminCount(ps, x.roomId) == if x.isAdmin then 1 else 0
  {
    CountsOfWithout(ps, x, x.roomId);
    SizeZeroNoAdmins(Without(ps, x.id), x.roomId);
  }

  lemma {:induction false} SizeZeroNoAdmins(ps: seq<Participant>, r: nat)
    requires RoomSize(ps, r) == 0
    ensures AdminCount(ps, r) == 0
  {
    if ps != [] {
      SizeZeroNoAdmins(ps[1..], r);
    }
  }

  lemma {:induction false} WithoutKeepsUniqueIds(ps: seq<Participant>, id: nat)
    requires UniqueIds(ps)
    ensures UniqueIds(Without(ps, id))
  {
    if ps != [] {
      UniqueIdsTail(ps);
      WithoutKeepsUniqueIds(ps[1..], id);
      var rest := Without(ps[1..], id);
      if ps[0].id != id {
        var r := [ps[0]] + rest;
        forall i, j | 0 <= i < j < |r| ensures r[i].id != r[j].id {
          if i == 0 {
            assert r[j] == rest[j - 1];
            assert rest[j - 1] in ps[1..];
          } else {
            assert r[i] == rest[i - 1] && r[j] == rest[j - 1];
          }
        }
      }
    }
  }

  /** So does the unique index on `socketId`. */
  lemma {:induction false} WithoutKeepsUniqueSockets(ps: seq<Participant>, id: nat)
    requires UniqueSocketIds(ps)
    ensures UniqueSocketIds(Without(ps, id))
  {
    if ps != [] {
      assert UniqueSocketIds(ps[1..]) by {
        forall i, j | 0 <= i < j < |ps[1..]| ensures ps[1..][i].socketId != ps[1..][j].socketId {
          assert ps[1..][i] == ps[i + 1] && ps[1..][j] == ps[j + 1];
        }
      }
      WithoutKeepsUniqueSockets(ps[1..], id);
      var rest := Without(ps[1..], id);
      if ps[0].id != id {
        var r := [ps[0]] + rest;
        forall i, j | 0 <= i < j < |r| ensures r[i].socketId != r[j].socketId {
          if i == 0 {
            assert r[j] == rest[j - 1];
            assert rest[j - 1] in ps[1..];
          } else {
            assert r[i] == rest[i - 1] && r[j] == rest[j - 1];
          }
        }
      }
    }
  }

  // ---------------------------------------------------------------------------
  // The sockets that own a participant row

  function SocketsOf(ps: seq<Participant>): set<string> {
    set k | 0 <= k < |ps| :: ps[k].socketId
  }

  lemma SocketsOfAppend(ps: seq<Participant>, p: Participant)
    ensures SocketsOf(ps + [p]) == SocketsOf(ps) + {p.socketId}
  {
    var q := ps + [p];
    assert q[|ps|] == p;
    forall s | s in SocketsOf(ps) ensures s in SocketsOf(q) {
      var k :| 0 <= k < |ps| && ps[k].socketId == s;
      assert q[k] == ps[k];
    }
  }

  /** Destroying a row frees its socket, and no other socket gains a row. */
  lemma SocketsOfWithout(ps: seq<Participant>, x: Participant)
    requires UniqueSocketIds(ps) && x in ps
    ensures SocketsOf(Without(ps, x.id)) <= SocketsOf(ps) - {x.socketId}
  {
    var w := Without(ps, x.id);
    forall s | s in SocketsOf(w) ensures s in SocketsOf(ps) && s != x.socketId {
      var k :| 0 <= k < |w| && w[k].socketId == s;
      var m :| 0 <= m < |ps| && ps[m] == w[k];
      DistinctRowsDistinctSockets(ps, w[k], x);
    }
  }

  /** With unique socket ids, rows with different ids have different sockets. */
  lemma DistinctRowsDistinctSockets(ps: seq<Participant>, p: Participant, q: Participant)
    requires UniqueSocketIds(ps) && p in ps && q in ps && p.id != q.id
    ensures p.socketId != q.socketId
  {
    var i :| 0 <= i < |ps| && ps[i] == p;
    var j :| 0 <= j < |ps| && ps[j] == q;
    assert i != j;
  }

  lemma SocketsOfPromote(ps: seq<Participant>, id: nat)
    ensures SocketsOf(Promote(ps, id)) == SocketsOf(ps)
  {
    PromoteChangesOnlyFlag(ps, id);
    var q := Promote(ps, id);
    forall s | s in SocketsOf(ps) ensures s in SocketsOf(q) {
      var k :| 0 <= k < |ps| && ps[k].socketId == s;
      assert q[k].socketId == s;
    }
    forall s | s in SocketsOf(q) ensures s in SocketsOf(ps) {
      var k :| 0 <= k < |q| && q[k].socketId == s;
      assert ps[k].socketId == s;
    }
  }

  /** After a leave the departing socket owns no row. */
  lemma SocketsOfAfterLeave(ps: seq<Participant>, x: Participant)
    requires UniqueSocketIds(ps) && x in ps
    ensures SocketsOf(AfterLeave(ps, x)) <= SocketsOf(ps) - {x.socketId}
  {
    SocketsOfWithout(ps, x);
    var rest := Without(ps, x.id);
    var remaining := GetByRoomId(rest, x.roomId);
    if x.isAdmin && |remaining| > 0 {
      SocketsOfPromote(rest, remaining[0].id);
    }
  }
}
