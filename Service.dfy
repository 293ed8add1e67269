/**
 * The room engine (`SecretSantaService`): one object holding the four tables
 * of the store, whose operations check their guards, insert rows and update
 * rows in place as the service does. Clock readings (`now`), the shuffle of
 * a draw and the random draws of a code are parameters.
 */
module Service {
  import opened Wrappers
  import opened Models
  import Tables
  import Rotation
  import Codes
  import Admission
  import Store

  class SecretSantaService {
    var rooms: seq<Room>
    var participants: seq<RoomParticipant>
    var invitations: seq<Invitation>
    var assignments: seq<Assignment>
    /** The next value of the Assignments table's identity column. */
    var nextAssignmentId: int
    /** For each drawn room, the shuffled order of identities its draw used. */
    ghost var drawOrder: map<int, seq<TelegramId>>

    ghost predicate Valid()
      reads this
    {
      Store.Invariant(rooms, participants, invitations, assignments, drawOrder)
    }

    /** An empty store. */
    constructor ()
      ensures Valid()
      ensures rooms == [] && participants == [] && invitations == [] && assignments == []
    {
      rooms, participants, invitations, assignments := [], [], [], [];
      nextAssignmentId := 1;
      drawOrder := map[];
    }

    /**
     * `CreateRoomAsync`: inserts an undrawn room with an 8-character code,
     * then enrols the creator as its first and only participant.
     */
    method CreateRoom(name: string, creatorTelegramId: TelegramId, creatorUsername: string,
                      creatorFirstName: Option<string>, codePicks: seq<Codes.Pick>, now: Time)
      returns (room: Room)
      requires Valid()
      requires |codePicks| == Codes.RoomCodeLength
      modifies this
      ensures Valid()
      ensures room == Room(|old(rooms)| + 1, name, creatorTelegramId, creatorUsername, creatorFirstName,
                           Some(Codes.GenerateRoomCode(codePicks)), now, None, false)
      ensures rooms == old(rooms) + [room]
      ensures participants == old(participants)
        + [RoomParticipant(|old(participants)| + 1, room.Id, creatorTelegramId, creatorUsername, creatorFirstName, None, now)]
      ensures Tables.MemberIds(participants, room.Id) == [creatorTelegramId]
      ensures invitations == old(invitations) && assignments == old(assignments)
      ensures nextAssignmentId == old(nextAssignmentId) && drawOrder == old(drawOrder)
    {
      var code := Codes.GenerateRoomCode(codePicks);
      room := Room(|rooms| + 1, name, creatorTelegramId, creatorUsername, creatorFirstName, Some(code), now, None, false);
      var creator := RoomParticipant(|participants| + 1, room.Id, creatorTelegramId, creatorUsername,
                                     creatorFirstName, None, now);
      Store.AddRoomKeeps(rooms, participants, invitations, assignments, drawOrder, room, creator);
      rooms := rooms + [room];
      participants := participants + [creator];
    }

    /**
     * `CreateInvitationAsync`: fails (the source throws) when the room does
     * not exist; otherwise inserts an unaccepted invitation bound to
     * `invitedTelegramId` under a 12-character code and returns the code.
     * Nothing checks that the room is undrawn.
     */
    method CreateInvitation(roomId: int, invitedTelegramId: TelegramId, codePicks: seq<Codes.Pick>, now: Time)
      returns (code: Option<string>)
      requires Valid()
      requires |codePicks| == Codes.InvitationCodeLength
      modifies this
      ensures Valid()
      ensures code.None? <==> Tables.RoomById(old(rooms), roomId).None?
      ensures code.None? ==> unchanged(this)
      ensures code.Some? ==>
        && code.value == Codes.GenerateInvitationCode(codePicks)
        && invitations == old(invitations)
             + [Invitation(|old(invitations)| + 1, roomId, invitedTelegramId, code.value, now, false)]
        && rooms == old(rooms) && participants == old(participants) && assignments == old(assignments)
        && nextAssignmentId == old(nextAssignmentId) && drawOrder == old(drawOrder)
    {
      var room := Tables.RoomById(rooms, roomId);
      if room.None? {
        return None;
      }
      var generated := Codes.GenerateInvitationCode(codePicks);
      var invitation := Invitation(|invitations| + 1, roomId, invitedTelegramId, generated, now, false);
      Store.AddInvitationKeeps(rooms, participants, invitations, assignments, drawOrder, invitation);
      invitations := invitations + [invitation];
      code := Some(generated);
    }

    /**
     * `JoinRoomByCodeAsync`: admits exactly when every check passes (see
     * `Admission.InvitationJoin`); then inserts one participant row for the
     * invitation's room and flips that invitation to accepted. A rejected
     * join changes nothing.
     */
    method JoinRoomByCode(code: string, telegramId: TelegramId, username: string, firstName: Option<string>, now: Time)
      returns (ok: bool)
      requires Valid()
      modifies this
      ensures Valid()
      ensures ok <==> Admission.InvitationJoin(old(rooms), old(participants), old(invitations), code, telegramId)
                      == Admission.Admitted
      ensures !ok ==> unchanged(this)
      ensures ok ==>
        var k := Tables.InvitationByCode(old(invitations), code).value;
        var invitation := old(invitations)[k];
        && participants == old(participants)
             + [RoomParticipant(|old(participants)| + 1, invitation.RoomId, telegramId, username, firstName, None, now)]
        && invitations == old(invitations)[k := invitation.(IsAccepted := true)]
        && rooms == old(rooms) && assignments == old(assignments)
        && nextAssignmentId == old(nextAssignmentId) && drawOrder == old(drawOrder)
      ensures forall k :: 0 <= k < |old(invitations)| && old(invitations)[k].IsAccepted ==> invitations[k].IsAccepted
    {
      var found := Tables.InvitationByCode(invitations, code);
      if found.None? || invitations[found.value].IsAccepted {
        return false;
      }
      var invitation := invitations[found.value];
      if invitation.InvitedTelegramId != telegramId {
        return false;
      }
      var r := Tables.RoomById(rooms, invitation.RoomId);
      if r.None? || rooms[r.value].IsDrawn {
        return false;
      }
      var room := rooms[r.value];
      var isAlreadyParticipant := Tables.IsParticipant(participants, room.Id, telegramId);
      if isAlreadyParticipant {
        return false;
      }
      var row := RoomParticipant(|participants| + 1, room.Id, telegramId, username, firstName, None, now);
      AdmitInvitee(row, invitation.Id);
      ok := true;
    }

    /**
     * The writes of an admitted invitation join: the participant row is
     * inserted, then the invitation with that id is marked accepted
     * (`UPDATE Invitations SET IsAccepted = 1 WHERE Id = @Id`; an id is its
     * row's position + 1).
     */
    method AdmitInvitee(row: RoomParticipant, invitationId: int)
      requires Valid()
      requires row.Id == |participants| + 1 && 1 <= row.RoomId <= |rooms| && !rooms[row.RoomId - 1].IsDrawn
      requires !Tables.IsParticipant(participants, row.RoomId, row.TelegramId)
      requires 1 <= invitationId <= |invitations|
      modifies this
      ensures Valid()
      ensures participants == old(participants) + [row]
      ensures invitations == old(invitations)[invitationId - 1 := old(invitations)[invitationId - 1].(IsAccepted := true)]
      ensures rooms == old(rooms) && assignments == old(assignments)
      ensures nextAssignmentId == old(nextAssignmentId) && drawOrder == old(drawOrder)
    {
      Store.AddParticipantKeeps(rooms, participants, invitations, assignments, drawOrder, row);
      participants := participants + [row];
      Store.AcceptInvitationKeeps(rooms, participants, invitations, assignments, drawOrder, invitationId - 1);
      invitations := invitations[invitationId - 1 := invitations[invitationId - 1].(IsAccepted := true)];
    }

    /**
     * `JoinRoomByRoomCodeAsync`: the room, drawn and already-participant
     * checks only (see `Admission.RoomCodeJoin`); on success one participant
     * row for the room with that code. A rejected join changes nothing.
     */
    method JoinRoomByRoomCode(roomCode: string, telegramId: TelegramId, username: string,
                              firstName: Option<string>, now: Time)
      returns (ok: bool)
      requires Valid()
      modifies this
      ensures Valid()
      ensures ok <==> Admission.RoomCodeJoin(old(rooms), old(participants), roomCode, telegramId) == Admission.Admitted
      ensures !ok ==> unchanged(this)
      ensures ok ==>
        var room := old(rooms)[Tables.RoomByCode(old(rooms), roomCode).value];
        && participants == old(participants)
             + [RoomParticipant(|old(participants)| + 1, room.Id, telegramId, username, firstName, None, now)]
        && rooms == old(rooms) && invitations == old(invitations) && assignments == old(assignments)
        && nextAssignmentId == old(nextAssignmentId) && drawOrder == old(drawOrder)
    {
      var r := Tables.RoomByCode(rooms, roomCode);
      if r.None? || rooms[r.value].IsDrawn {
        return false;
      }
      var room := rooms[r.value];
      var isAlreadyParticipant := Tables.IsParticipant(participants, room.Id, telegramId);
      if isAlreadyParticipant {
        return false;
      }
      var row := RoomParticipant(|participants| + 1, room.Id, telegramId, username, firstName, None, now);
      Store.AddParticipantKeeps(rooms, participants, invitations, assignments, drawOrder, row);
      participants := participants + [row];
      ok := true;
    }

    /**
     * `DrawSecretSantaAsync`: rejected, with nothing changed, unless the room
     * exists, the requester is its creator, it is not drawn and it has at
     * least two participants (see `Admission.Draw`). Otherwise deletes the
     * room's assignments, inserts one row per position i of the shuffled
     * participants giving to position (i + 1) mod n, and marks the room drawn
     * with a draw date. `shuffled` is the shuffle's output, a reordering of
     * the room's participants.
     */
    method DrawSecretSanta(roomId: int, creatorTelegramId: TelegramId, shuffled: seq<RoomParticipant>, now: Time)
      returns (ok: bool)
      requires Valid()
      requires multiset(shuffled) == multiset(Tables.ParticipantsOf(participants, roomId))
      modifies this
      ensures Valid()
      ensures ok <==> Admission.Draw(old(rooms), old(participants), roomId, creatorTelegramId) == Admission.Ready
      ensures !ok ==> unchanged(this)
      ensures ok ==>
        && 1 <= roomId <= |old(rooms)|
        && rooms == old(rooms)[roomId - 1 := old(rooms)[roomId - 1].(IsDrawn := true, DrawDate := Some(now))]
        && participants == old(participants) && invitations == old(invitations)
        && nextAssignmentId == old(nextAssignmentId) + |shuffled|
        && (forall i :: 0 <= i < |Tables.AssignmentsOf(assignments, roomId)| ==>
              Tables.AssignmentsOf(assignments, roomId)[i].Id == old(nextAssignmentId) + i
              && Tables.AssignmentsOf(assignments, roomId)[i].CreatedAt == now)
        && Tables.Pairs(Tables.AssignmentsOf(assignments, roomId)) == Rotation.Ring(Tables.TelegramIds(shuffled))
        && (forall other :: other != roomId ==>
              Tables.AssignmentsOf(assignments, other) == Tables.AssignmentsOf(old(assignments), other))
      ensures ok ==>
        var members := Tables.MemberIds(participants, roomId);
        var pairs := Tables.Pairs(Tables.AssignmentsOf(assignments, roomId));
        && |pairs| == |members|
        && Rotation.OneToOne(pairs, members)
        && Rotation.NoSelfAssignment(pairs)
        && Rotation.SingleCycle(pairs, members)
    {
      var r := Tables.RoomById(rooms, roomId);
      if r.None? {
        return false;
      }
      var room := rooms[r.value];
      if room.CreatorTelegramId != creatorTelegramId {
        return false;
      }
      if room.IsDrawn {
        return false;
      }
      var roomParticipants := Tables.ParticipantsOf(participants, roomId);
      if |roomParticipants| < 2 {
        return false;
      }

      CommitDraw(roomId, shuffled, now);
      ok := true;
    }

    /**
     * The part of `DrawSecretSantaAsync` after its checks: deletes the room's
     * assignments, inserts the ring over the shuffled participants and marks
     * the room drawn.
     */
    method CommitDraw(roomId: int, shuffled: seq<RoomParticipant>, now: Time)
      requires Valid()
      requires 1 <= roomId <= |rooms|
      requires multiset(shuffled) == multiset(Tables.ParticipantsOf(participants, roomId))
      requires |Tables.ParticipantsOf(participants, roomId)| >= 2
      modifies this
      ensures Valid()
      ensures rooms == old(rooms)[roomId - 1 := old(rooms)[roomId - 1].(IsDrawn := true, DrawDate := Some(now))]
      ensures participants == old(participants) && invitations == old(invitations)
      ensures nextAssignmentId == old(nextAssignmentId) + |shuffled|
      ensures forall i :: 0 <= i < |Tables.AssignmentsOf(assignments, roomId)| ==>
        Tables.AssignmentsOf(assignments, roomId)[i].Id == old(nextAssignmentId) + i
        && Tables.AssignmentsOf(assignments, roomId)[i].CreatedAt == now
      ensures Tables.Pairs(Tables.AssignmentsOf(assignments, roomId)) == Rotation.Ring(Tables.TelegramIds(shuffled))
      ensures forall other :: other != roomId ==>
        Tables.AssignmentsOf(assignments, other) == Tables.AssignmentsOf(old(assignments), other)
      ensures var members := Tables.MemberIds(participants, roomId);
        var pairs := Tables.Pairs(Tables.AssignmentsOf(assignments, roomId));
        && |pairs| == |members|
        && Rotation.OneToOne(pairs, members)
        && Rotation.NoSelfAssignment(pairs)
        && Rotation.SingleCycle(pairs, members)
    {
      var roomParticipants := Tables.ParticipantsOf(participants, roomId);
      assert |shuffled| == |multiset(shuffled)| == |multiset(roomParticipants)| == |roomParticipants|;
      var rows := RingRows(roomId, shuffled, nextAssignmentId, now);
      Store.DrawOutcome(rooms, participants, invitations, assignments, drawOrder, roomId, now, shuffled, rows);
      // DELETE FROM Assignments WHERE RoomId = @RoomId, then the inserted rows
      assignments := Tables.DeleteAssignmentsByRoom(assignments, roomId) + rows;
      nextAssignmentId := nextAssignmentId + |rows|;
      // UPDATE Rooms SET IsDrawn = 1, DrawDate = @DrawDate WHERE Id = @Id: the Id is the row's position + 1
      rooms := Store.MarkDrawn(rooms, roomId - 1, now);
      drawOrder := drawOrder[roomId := Tables.TelegramIds(shuffled)];
    }

    /**
     * `GetMyAssignmentAsync`: the assignment row in which `telegramId` gives
     * in room `roomId`. In a drawn room a participant gets one naming another
     * participant and anybody else gets none; a room that is missing or not
     * drawn has none.
     */
    method GetMyAssignment(roomId: int, telegramId: TelegramId) returns (assignment: Option<Assignment>)
      requires Valid()
      ensures assignment.Some? ==>
        assignment.value in assignments && assignment.value.RoomId == roomId
        && assignment.value.SantaTelegramId == telegramId
      ensures (Tables.RoomById(rooms, roomId).None? || !rooms[Tables.RoomById(rooms, roomId).value].IsDrawn)
        ==> assignment.None?
      ensures Tables.RoomById(rooms, roomId).Some? && rooms[Tables.RoomById(rooms, roomId).value].IsDrawn ==>
        && (assignment.Some? <==> Tables.IsParticipant(participants, roomId, telegramId))
        && (assignment.Some? ==>
              assignment.value.RecipientTelegramId != telegramId
              && Tables.IsParticipant(participants, roomId, assignment.value.RecipientTelegramId))
    {
      assignment := Tables.AssignmentFor(assignments, roomId, telegramId);
      var r := Tables.RoomById(rooms, roomId);
      if r.Some? && rooms[r.value].IsDrawn {
        assert Store.DrawnRoomConsistent(rooms, participants, assignments, drawOrder, r.value);
        Store.LookupInDrawnRoom(participants, assignments, roomId, drawOrder[roomId], telegramId);
      }
    }
  }

  /**
   * The loop of `DrawSecretSantaAsync`: for each position i of the shuffled
   * participants, the row, with the next identity, in which position i gives
   * to position (i + 1) mod n.
   */
  method RingRows(roomId: int, shuffled: seq<RoomParticipant>, firstId: int, now: Time)
    returns (rows: seq<Assignment>)
    requires |shuffled| > 0
    ensures |rows| == |shuffled|
    ensures forall i :: 0 <= i < |rows| ==>
      rows[i].Id == firstId + i && rows[i].RoomId == roomId && rows[i].CreatedAt == now
    ensures forall a :: a in rows ==> a.RoomId == roomId
    ensures Tables.Pairs(rows) == Rotation.Ring(Tables.TelegramIds(shuffled))
  {
    var n := |shuffled|;
    ghost var order := Tables.TelegramIds(shuffled);
    rows := [];
    for i := 0 to n
      invariant |rows| == i
      invariant forall j :: 0 <= j < i ==>
        rows[j].Id == firstId + j && rows[j].RoomId == roomId && rows[j].CreatedAt == now
      invariant Tables.Pairs(rows) == Rotation.Ring(order)[..i]
    {
      var santa := shuffled[i];
      var recipient := shuffled[(i + 1) % n];
      var assignment := Assignment(firstId + i, roomId, santa.TelegramId, recipient.TelegramId, now);
      assert Tables.Pairs(rows + [assignment]) == Tables.Pairs(rows) + [(santa.TelegramId, recipient.TelegramId)];
      assert Rotation.Ring(order)[..i + 1] == Rotation.Ring(order)[..i] + [Rotation.Ring(order)[i]];
      rows := rows + [assignment];
    }
    assert Rotation.Ring(order)[..n] == Rotation.Ring(order);
  }
}
