/**
 * The store's tables as sequences of rows in insertion order, and the
 * repository queries the engine issues, one function per WHERE clause.
 * A lookup that returns the first matching row stands for a
 * `QueryFirstOrDefault` without ORDER BY; a listing ordered by `JoinedAt`
 * is the insertion order, since rows are inserted with the current time.
 */
module Tables {
  import opened Wrappers
  import opened Models
  import Rotation

  /** Position of the first row satisfying `p`, if any. */
  function FirstWhere<T>(s: seq<T>, p: T -> bool): (r: Option<nat>)
    ensures r.Some? ==> r.value < |s| && p(s[r.value])
    ensures r.Some? ==> forall k :: 0 <= k < r.value ==> !p(s[k])
    ensures r.None? ==> forall k :: 0 <= k < |s| ==> !p(s[k])
  {
    if s == [] then None
    else if p(s[0]) then Some(0)
    else match FirstWhere(s[1..], p)
      case None => None
      case Some(i) => Some(i + 1)
  }

  /** `SELECT ... FROM Rooms WHERE Id = @RoomId` */
  function RoomById(rooms: seq<Room>, id: int): (r: Option<nat>)
    ensures r.Some? ==> r.value < |rooms| && rooms[r.value].Id == id
    ensures r.None? <==> forall k :: 0 <= k < |rooms| ==> rooms[k].Id != id
  {
    FirstWhere(rooms, (room: Room) => room.Id == id)
  }

  /** `SELECT ... FROM Rooms WHERE Code = @Code` (a room without a code matches no code) */
  function RoomByCode(rooms: seq<Room>, code: string): (r: Option<nat>)
    ensures r.Some? ==> r.value < |rooms| && rooms[r.value].Code == Some(code)
    ensures r.Some? ==> forall k :: 0 <= k < r.value ==> rooms[k].Code != Some(code)
    ensures r.None? <==> forall k :: 0 <= k < |rooms| ==> rooms[k].Code != Some(code)
  {
    FirstWhere(rooms, (room: Room) => room.Code == Some(code))
  }

  /** `SELECT ... FROM Invitations WHERE Code = @Code` */
  function InvitationByCode(invitations: seq<Invitation>, code: string): (r: Option<nat>)
    ensures r.Some? ==> r.value < |invitations| && invitations[r.value].Code == code
    ensures r.Some? ==> forall k :: 0 <= k < r.value ==> invitations[k].Code != code
    ensures r.None? <==> forall k :: 0 <= k < |invitations| ==> invitations[k].Code != code
  {
    FirstWhere(invitations, (inv: Invitation) => inv.Code == code)
  }

  /** `SELECT ... FROM Assignments WHERE RoomId = @RoomId AND SantaTelegramId = @SantaTelegramId` */
  function AssignmentFor(assignments: seq<Assignment>, roomId: int, santa: TelegramId): (r: Option<Assignment>)
    ensures r.Some? ==> r.value in assignments && r.value.RoomId == roomId && r.value.SantaTelegramId == santa
    ensures r.None? <==> forall a :: a in assignments ==> !(a.RoomId == roomId && a.SantaTelegramId == santa)
  {
    if assignments == [] then None
    else if assignments[0].RoomId == roomId && assignments[0].SantaTelegramId == santa then Some(assignments[0])
    else AssignmentFor(assignments[1..], roomId, santa)
  }

  /** `SELECT COUNT(1) FROM RoomParticipants WHERE RoomId = @RoomId AND TelegramId = @TelegramId` > 0 */
  predicate IsParticipant(participants: seq<RoomParticipant>, roomId: int, telegramId: TelegramId): (b: bool)
    ensures b <==> exists p :: p in participants && p.RoomId == roomId && p.TelegramId == telegramId
  {
    exists k :: 0 <= k < |participants| && participants[k].RoomId == roomId && participants[k].TelegramId == telegramId
  }

  /** `SELECT ... FROM RoomParticipants WHERE RoomId = @RoomId ORDER BY JoinedAt` */
  function ParticipantsOf(participants: seq<RoomParticipant>, roomId: int): (r: seq<RoomParticipant>)
    ensures forall p :: p in r <==> p in participants && p.RoomId == roomId
  {
    if participants == [] then []
    else
      var head := if participants[0].RoomId == roomId then [participants[0]] else [];
      head + ParticipantsOf(participants[1..], roomId)
  }

  /** `SELECT ... FROM Assignments WHERE RoomId = @RoomId` */
  function AssignmentsOf(assignments: seq<Assignment>, roomId: int): (r: seq<Assignment>)
    ensures forall a :: a in r <==> a in assignments && a.RoomId == roomId
  {
    if assignments == [] then []
    else
      var head := if assignments[0].RoomId == roomId then [assignments[0]] else [];
      head + AssignmentsOf(assignments[1..], roomId)
  }

  /** The table left by `DELETE FROM Assignments WHERE RoomId = @RoomId` */
  function DeleteAssignmentsByRoom(assignments: seq<Assignment>, roomId: int): (r: seq<Assignment>)
    ensures forall a :: a in r <==> a in assignments && a.RoomId != roomId
  {
    if assignments == [] then []
    else
      var head := if assignments[0].RoomId != roomId then [assignments[0]] else [];
      head + DeleteAssignmentsByRoom(assignments[1..], roomId)
  }

  /** The identities of a list of participants, in order. */
  function TelegramIds(participants: seq<RoomParticipant>): seq<TelegramId> {
    seq(|participants|, i requires 0 <= i < |participants| => participants[i].TelegramId)
  }

  /** The identities of the participants of one room. */
  function MemberIds(participants: seq<RoomParticipant>, roomId: int): seq<TelegramId> {
    TelegramIds(ParticipantsOf(participants, roomId))
  }

  /** The (giver, recipient) pairs of a list of assignment rows, in order. */
  function Pairs(assignments: seq<Assignment>): seq<(TelegramId, TelegramId)> {
    seq(|assignments|, i requires 0 <= i < |assignments| =>
      (assignments[i].SantaTelegramId, assignments[i].RecipientTelegramId))
  }

  /** No identity has two participant rows in the same room. */
  predicate UniqueMembership(participants: seq<RoomParticipant>) {
    forall i, j :: 0 <= i < j < |participants| ==>
      !(participants[i].RoomId == participants[j].RoomId && participants[i].TelegramId == participants[j].TelegramId)
  }

  lemma {:induction false} ParticipantsOfAppend(participants: seq<RoomParticipant>, p: RoomParticipant, roomId: int)
    ensures ParticipantsOf(participants + [p], roomId)
         == ParticipantsOf(participants, roomId) + (if p.RoomId == roomId then [p] else [])
  {
    if participants != [] {
      assert (participants + [p])[1..] == participants[1..] + [p];
      ParticipantsOfAppend(participants[1..], p, roomId);
    }
  }

  /** Inserting a participant row extends the identity list of its own room only. */
  lemma MemberIdsAppend(participants: seq<RoomParticipant>, p: RoomParticipant, roomId: int)
    ensures MemberIds(participants + [p], roomId)
         == MemberIds(participants, roomId) + (if p.RoomId == roomId then [p.TelegramId] else [])
  {
    ParticipantsOfAppend(participants, p, roomId);
    TelegramIdsConcat(ParticipantsOf(participants, roomId), if p.RoomId == roomId then [p] else []);
  }

  /** A room no row refers to has no participants. */
  lemma NoMembers(participants: seq<RoomParticipant>, roomId: int)
    requires forall k :: 0 <= k < |participants| ==> participants[k].RoomId != roomId
    ensures ParticipantsOf(participants, roomId) == [] && MemberIds(participants, roomId) == []
  {
  }

  lemma {:induction false} AssignmentsOfConcat(a: seq<Assignment>, b: seq<Assignment>, roomId: int)
    ensures AssignmentsOf(a + b, roomId) == AssignmentsOf(a, roomId) + AssignmentsOf(b, roomId)
  {
    if a == [] {
      assert a + b == b;
    } else {
      assert (a + b)[1..] == a[1..] + b;
      AssignmentsOfConcat(a[1..], b, roomId);
    }
  }

  /**
   * Deleting a room's assignments and then inserting rows of that room only:
   * the room sees exactly the inserted rows.
   */
  lemma ReplaceRoomAssignments(before: seq<Assignment>, added: seq<Assignment>, roomId: int)
    requires forall a :: a in added ==> a.RoomId == roomId
    ensures AssignmentsOf(DeleteAssignmentsByRoom(before, roomId) + added, roomId) == added
  {
    var kept := DeleteAssignmentsByRoom(before, roomId);
    AssignmentsOfConcat(kept, added, roomId);
    OnlyRoomRows(added, roomId);
    DeleteThenSelect(before, roomId);
  }

  /** The same replacement leaves every other room exactly the rows it had before. */
  lemma ReplaceKeepsOtherRoom(before: seq<Assignment>, added: seq<Assignment>, roomId: int, other: int)
    requires forall a :: a in added ==> a.RoomId == roomId
    requires other != roomId
    ensures AssignmentsOf(DeleteAssignmentsByRoom(before, roomId) + added, other) == AssignmentsOf(before, other)
  {
    var kept := DeleteAssignmentsByRoom(before, roomId);
    AssignmentsOfConcat(kept, added, other);
    NoRowsOfOtherRoom(added, roomId, other);
    DeleteKeepsOtherRoom(before, roomId, other);
  }

  /** Rows all of one room: selecting that room gives them all. */
  lemma {:induction false} OnlyRoomRows(added: seq<Assignment>, roomId: int)
    requires forall a :: a in added ==> a.RoomId == roomId
    ensures AssignmentsOf(added, roomId) == added
  {
    if added != [] {
      OnlyRoomRows(added[1..], roomId);
    }
  }

  /** Rows all of one room: selecting any other room gives none. */
  lemma {:induction false} NoRowsOfOtherRoom(added: seq<Assignment>, roomId: int, other: int)
    requires forall a :: a in added ==> a.RoomId == roomId
    requires other != roomId
    ensures AssignmentsOf(added, other) == []
  {
    if added != [] {
      NoRowsOfOtherRoom(added[1..], roomId, other);
    }
  }

  /** After `DELETE ... WHERE RoomId = @RoomId` the room has no rows left. */
  lemma {:induction false} DeleteThenSelect(rows: seq<Assignment>, roomId: int)
    ensures AssignmentsOf(DeleteAssignmentsByRoom(rows, roomId), roomId) == []
  {
    if rows != [] {
      DeleteThenSelect(rows[1..], roomId);
      var head := if rows[0].RoomId != roomId then [rows[0]] else [];
      AssignmentsOfConcat(head, DeleteAssignmentsByRoom(rows[1..], roomId), roomId);
    }
  }

  /** The same deletion leaves every other room's rows as they were. */
  lemma {:induction false} DeleteKeepsOtherRoom(rows: seq<Assignment>, roomId: int, other: int)
    requires other != roomId
    ensures AssignmentsOf(DeleteAssignmentsByRoom(rows, roomId), other) == AssignmentsOf(rows, other)
  {
    if rows != [] {
      DeleteKeepsOtherRoom(rows[1..], roomId, other);
      var head := if rows[0].RoomId != roomId then [rows[0]] else [];
      AssignmentsOfConcat(head, DeleteAssignmentsByRoom(rows[1..], roomId), other);
    }
  }

  /** Under unique membership the identities of one room's participants are distinct. */
  lemma {:induction false} MemberIdsDistinct(participants: seq<RoomParticipant>, roomId: int)
    requires UniqueMembership(participants)
    ensures Rotation.Distinct(MemberIds(participants, roomId))
  {
    if participants != [] {
      var rest := participants[1..];
      assert UniqueMembership(rest);
      MemberIdsDistinct(rest, roomId);
      if participants[0].RoomId == roomId {
        var ids := MemberIds(participants, roomId);
        assert ids == [participants[0].TelegramId] + MemberIds(rest, roomId);
        forall j | 0 < j < |ids| ensures ids[0] != ids[j] {
          var p := ParticipantsOf(rest, roomId)[j - 1];
          assert p in rest;
        }
      } else {
        assert ParticipantsOf(participants, roomId) == ParticipantsOf(rest, roomId);
      }
    }
  }

  /** Membership test and the room's identity list agree. */
  lemma {:induction false} IsParticipantIffMember(participants: seq<RoomParticipant>, roomId: int, telegramId: TelegramId)
    ensures IsParticipant(participants, roomId, telegramId) <==> telegramId in MemberIds(participants, roomId)
  {
    var members := ParticipantsOf(participants, roomId);
    if IsParticipant(participants, roomId, telegramId) {
      var k :| 0 <= k < |participants| && participants[k].RoomId == roomId && participants[k].TelegramId == telegramId;
      assert participants[k] in members;
      var j :| 0 <= j < |members| && members[j] == participants[k];
      assert TelegramIds(members)[j] == telegramId;
    }
    if telegramId in MemberIds(participants, roomId) {
      var j :| 0 <= j < |members| && TelegramIds(members)[j] == telegramId;
      assert members[j] in participants;
      var k :| 0 <= k < |participants| && participants[k] == members[j];
    }
  }

  lemma TelegramIdsConcat(a: seq<RoomParticipant>, b: seq<RoomParticipant>)
    ensures TelegramIds(a + b) == TelegramIds(a) + TelegramIds(b)
  {
  }

  /** Reordering participant rows reorders their identities the same way. */
  lemma {:induction false} TelegramIdsOfPermutation(a: seq<RoomParticipant>, b: seq<RoomParticipant>)
    requires multiset(a) == multiset(b)
    ensures multiset(TelegramIds(a)) == multiset(TelegramIds(b))
  {
    if a != [] {
      var x := a[0];
      assert x in multiset(b);
      var k :| 0 <= k < |b| && b[k] == x;
      assert a == [x] + a[1..];
      assert b == b[..k] + [x] + b[k + 1..];
      var rest := b[..k] + b[k + 1..];
      assert multiset(b) == multiset(b[..k]) + multiset{x} + multiset(b[k + 1..]);
      assert multiset(a) == multiset{x} + multiset(a[1..]);
      assert multiset(rest) == multiset(b[..k]) + multiset(b[k + 1..]);
      assert multiset(a[1..]) == multiset(a) - multiset{x};
      assert multiset(rest) == multiset(b) - multiset{x};
      TelegramIdsOfPermutation(a[1..], rest);
      TelegramIdsConcat([x], a[1..]);
      TelegramIdsConcat(b[..k], b[k + 1..]);
      TelegramIdsConcat(b[..k] + [x], b[k + 1..]);
      TelegramIdsConcat(b[..k], [x]);
    } else {
      assert b == [];
    }
  }

  /**
   * Looking up a giver's assignment row in the whole table gives the same
   * recipient as following that giver in the room's (giver, recipient) pairs.
   */
  lemma {:induction false} AssignmentForIsNext(assignments: seq<Assignment>, roomId: int, santa: TelegramId)
    ensures match AssignmentFor(assignments, roomId, santa)
      case None => Rotation.Next(Pairs(AssignmentsOf(assignments, roomId)), santa) == None
      case Some(a) => Rotation.Next(Pairs(AssignmentsOf(assignments, roomId)), santa) == Some(a.RecipientTelegramId)
  {
    if assignments != [] {
      var rest := assignments[1..];
      AssignmentForIsNext(rest, roomId, santa);
      var head := assignments[0];
      var restPairs := Pairs(AssignmentsOf(rest, roomId));
      if head.RoomId == roomId {
        assert AssignmentsOf(assignments, roomId) == [head] + AssignmentsOf(rest, roomId);
        var pairs := [(head.SantaTelegramId, head.RecipientTelegramId)] + restPairs;
        assert Pairs(AssignmentsOf(assignments, roomId)) == pairs;
        assert pairs[1..] == restPairs;
        if head.SantaTelegramId == santa {
          assert AssignmentFor(assignments, roomId, santa) == Some(head);
        } else {
          assert AssignmentFor(assignments, roomId, santa) == AssignmentFor(rest, roomId, santa);
          assert Rotation.Next(pairs, santa) == Rotation.Next(restPairs, santa);
        }
      } else {
        assert AssignmentsOf(assignments, roomId) == AssignmentsOf(rest, roomId);
        assert AssignmentFor(assignments, roomId, santa) == AssignmentFor(rest, roomId, santa);
      }
    }
  }
}
