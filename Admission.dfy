/**
 * The admission checks of the engine, as pure functions over the tables.
 * Each returns the first check that fails, in the order the service makes
 * them; the service's operations go ahead exactly when the verdict is
 * `Admitted` (for a join) or `Ready` (for a draw).
 */
module Admission {
  import opened Wrappers
  import opened Models
  import Tables

  datatype JoinVerdict =
    | Admitted
    | UnknownCode          // no invitation (or room) has this code
    | AlreadyAccepted      // the invitation was used before
    | NotInvitee           // the invitation is bound to another identity
    | RoomMissing          // the invitation's room does not exist
    | RoomDrawn            // the room's draw has taken place
    | AlreadyParticipant   // the identity is in the room already

  datatype DrawVerdict =
    | Ready
    | NoSuchRoom
    | NotCreator
    | AlreadyDrawn
    | TooFewParticipants

  /** The checks of joining with an invitation code (`JoinRoomByCodeAsync`). */
  function InvitationJoin(rooms: seq<Room>, participants: seq<RoomParticipant>, invitations: seq<Invitation>,
                          code: string, telegramId: TelegramId): (v: JoinVerdict)
    ensures v == UnknownCode <==> Tables.InvitationByCode(invitations, code).None?
    ensures v == Admitted <==>
      var found := Tables.InvitationByCode(invitations, code);
      && found.Some?
      && !invitations[found.value].IsAccepted
      && invitations[found.value].InvitedTelegramId == telegramId
      && Tables.RoomById(rooms, invitations[found.value].RoomId).Some?
      && !rooms[Tables.RoomById(rooms, invitations[found.value].RoomId).value].IsDrawn
      && !Tables.IsParticipant(participants, invitations[found.value].RoomId, telegramId)
  {
    match Tables.InvitationByCode(invitations, code)
    case None => UnknownCode
    case Some(k) =>
      var invitation := invitations[k];
      if invitation.IsAccepted then AlreadyAccepted
      else if invitation.InvitedTelegramId != telegramId then NotInvitee
      else RoomJoin(rooms, participants, Tables.RoomById(rooms, invitation.RoomId), telegramId)
  }

  /** The checks of joining with a room code (`JoinRoomByRoomCodeAsync`). */
  function RoomCodeJoin(rooms: seq<Room>, participants: seq<RoomParticipant>, roomCode: string,
                        telegramId: TelegramId): (v: JoinVerdict)
    ensures v == UnknownCode <==> Tables.RoomByCode(rooms, roomCode).None?
    ensures v == Admitted <==>
      var found := Tables.RoomByCode(rooms, roomCode);
      && found.Some?
      && !rooms[found.value].IsDrawn
      && !Tables.IsParticipant(participants, rooms[found.value].Id, telegramId)
  {
    match Tables.RoomByCode(rooms, roomCode)
    case None => UnknownCode
    case Some(r) => RoomJoin(rooms, participants, Some(r), telegramId)
  }

  /** The checks both joins share: the room exists, is not drawn, and the identity is not in it yet. */
  function RoomJoin(rooms: seq<Room>, participants: seq<RoomParticipant>, found: Option<nat>,
                    telegramId: TelegramId): (v: JoinVerdict)
    requires found.Some? ==> found.value < |rooms|
    ensures v == RoomMissing <==> found.None?
    ensures v == Admitted <==>
      found.Some? && !rooms[found.value].IsDrawn && !Tables.IsParticipant(participants, rooms[found.value].Id, telegramId)
  {
    match found
    case None => RoomMissing
    case Some(r) =>
      if rooms[r].IsDrawn then RoomDrawn
      else if Tables.IsParticipant(participants, rooms[r].Id, telegramId) then AlreadyParticipant
      else Admitted
  }

  /** The checks of `DrawSecretSantaAsync`. */
  function Draw(rooms: seq<Room>, participants: seq<RoomParticipant>, roomId: int, requester: TelegramId): (v: DrawVerdict)
    ensures v == NoSuchRoom <==> Tables.RoomById(rooms, roomId).None?
    ensures v == Ready <==>
      var found := Tables.RoomById(rooms, roomId);
      && found.Some?
      && rooms[found.value].CreatorTelegramId == requester
      && !rooms[found.value].IsDrawn
      && |Tables.ParticipantsOf(participants, roomId)| >= 2
  {
    match Tables.RoomById(rooms, roomId)
    case None => NoSuchRoom
    case Some(r) =>
      if rooms[r].CreatorTelegramId != requester then NotCreator
      else if rooms[r].IsDrawn then AlreadyDrawn
      else if |Tables.ParticipantsOf(participants, roomId)| < 2 then TooFewParticipants
      else Ready
  }

  /** The room an admitted invitation join enters. */
  function InvitationRoom(rooms: seq<Room>, invitations: seq<Invitation>, code: string): (r: nat)
    requires Tables.InvitationByCode(invitations, code).Some?
    requires Tables.RoomById(rooms, invitations[Tables.InvitationByCode(invitations, code).value].RoomId).Some?
    ensures r < |rooms| && rooms[r].Id == invitations[Tables.InvitationByCode(invitations, code).value].RoomId
  {
    Tables.RoomById(rooms, invitations[Tables.InvitationByCode(invitations, code).value].RoomId).value
  }

  /** Changing one row's acceptance flag does not change which row a code finds. */
  lemma SameInvitationAfterAccept(invitations: seq<Invitation>, code: string, k: nat)
    requires Tables.InvitationByCode(invitations, code) == Some(k)
    ensures Tables.InvitationByCode(invitations[k := invitations[k].(IsAccepted := true)], code) == Some(k)
  {
    var updated := invitations[k := invitations[k].(IsAccepted := true)];
    var found := Tables.InvitationByCode(updated, code);
    assert updated[k].Code == code;
    assert found.Some?;
    assert found.value <= k;
    assert invitations[found.value].Code == code;
  }

  /**
   * An invitation admits at most once: once an admitted join has inserted the
   * participant row and flipped the invitation to accepted, the same code is
   * rejected as already accepted, whoever presents it.
   */
  lemma InvitationAdmitsAtMostOnce(rooms: seq<Room>, participants: seq<RoomParticipant>, invitations: seq<Invitation>,
                                   code: string, telegramId: TelegramId, row: RoomParticipant, anyone: TelegramId)
    requires InvitationJoin(rooms, participants, invitations, code, telegramId) == Admitted
    ensures var k := Tables.InvitationByCode(invitations, code).value;
      InvitationJoin(rooms, participants + [row], invitations[k := invitations[k].(IsAccepted := true)], code, anyone)
        == AlreadyAccepted
  {
    var k := Tables.InvitationByCode(invitations, code).value;
    SameInvitationAfterAccept(invitations, code, k);
  }

  /**
   * After an admitted join has inserted the joiner's row, joining the same
   * room again by its room code is rejected: no duplicate row.
   */
  lemma RoomCodeRejoinRejected(rooms: seq<Room>, participants: seq<RoomParticipant>, roomCode: string,
                               telegramId: TelegramId, row: RoomParticipant)
    requires RoomCodeJoin(rooms, participants, roomCode, telegramId) == Admitted
    requires row.RoomId == rooms[Tables.RoomByCode(rooms, roomCode).value].Id && row.TelegramId == telegramId
    ensures RoomCodeJoin(rooms, participants + [row], roomCode, telegramId) == AlreadyParticipant
  {
    var rows := participants + [row];
    assert rows[|participants|] == row;
  }

  /**
   * A participant who joined by invitation cannot add a second row through
   * the room-code path either (the fallback the chat front end tries).
   */
  lemma InvitationThenRoomCodeRejected(rooms: seq<Room>, participants: seq<RoomParticipant>,
                                       invitations: seq<Invitation>, code: string, roomCode: string,
                                       telegramId: TelegramId, row: RoomParticipant)
    requires InvitationJoin(rooms, participants, invitations, code, telegramId) == Admitted
    requires row.RoomId == rooms[InvitationRoom(rooms, invitations, code)].Id && row.TelegramId == telegramId
    requires Tables.RoomByCode(rooms, roomCode) == Some(InvitationRoom(rooms, invitations, code))
    ensures RoomCodeJoin(rooms, participants + [row], roomCode, telegramId) == AlreadyParticipant
  {
    var rows := participants + [row];
    assert rows[|participants|] == row;
  }

  /**
   * An invitation bound to its room's creator admits nobody while the
   * creator is a participant: anybody else is not the invitee, and the
   * creator is in the room already.
   */
  lemma CreatorBoundInvitationAdmitsNobody(rooms: seq<Room>, participants: seq<RoomParticipant>,
                                           invitations: seq<Invitation>, code: string, anyone: TelegramId)
    requires Tables.InvitationByCode(invitations, code).Some?
    requires var invitation := invitations[Tables.InvitationByCode(invitations, code).value];
      && Tables.RoomById(rooms, invitation.RoomId).Some?
      && invitation.InvitedTelegramId == rooms[Tables.RoomById(rooms, invitation.RoomId).value].CreatorTelegramId
      && Tables.IsParticipant(participants, invitation.RoomId, invitation.InvitedTelegramId)
    ensures InvitationJoin(rooms, participants, invitations, code, anyone) != Admitted
  {
  }

  /** Once a room is drawn, no further draw of it is ready, whoever asks. */
  lemma NoSecondDraw(rooms: seq<Room>, participants: seq<RoomParticipant>, roomId: int, requester: TelegramId,
                     now: Time, anyone: TelegramId)
    requires Draw(rooms, participants, roomId, requester) == Ready
    ensures var r := Tables.RoomById(rooms, roomId).value;
      Draw(rooms[r := rooms[r].(IsDrawn := true, DrawDate := Some(now))], participants, roomId, anyone) != Ready
  {
    var r := Tables.RoomById(rooms, roomId).value;
    var updated := rooms[r := rooms[r].(IsDrawn := true, DrawDate := Some(now))];
    var found := Tables.RoomById(updated, roomId);
    assert updated[r].Id == roomId;
    assert found.Some?;
  }
}
