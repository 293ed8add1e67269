/**
 * The invariant of the store's four tables, stated over table values, and
 * one lemma per kind of change the engine makes showing that the change
 * keeps it.
 */
module Store {
  import opened Wrappers
  import opened Models
  import Tables
  import Rotation

  /** The creator of the room at position k is a participant of it. */
  predicate CreatorJoined(rooms: seq<Room>, participants: seq<RoomParticipant>, k: int)
    requires 0 <= k < |rooms|
  {
    Tables.IsParticipant(participants, k + 1, rooms[k].CreatorTelegramId)
  }

  /** Room ids are positions + 1, a drawn room has a draw date, and every room's creator is a participant of it. */
  predicate RoomsWellFormed(rooms: seq<Room>, participants: seq<RoomParticipant>) {
    && (forall k :: 0 <= k < |rooms| ==> rooms[k].Id == k + 1)
    && (forall k :: 0 <= k < |rooms| && rooms[k].IsDrawn ==> rooms[k].DrawDate.Some?)
    && (forall k :: 0 <= k < |rooms| ==> CreatorJoined(rooms, participants, k))
  }

  /** Participant ids are positions + 1, each row names an existing room, and no identity is twice in a room. */
  predicate ParticipantsWellFormed(roomCount: nat, participants: seq<RoomParticipant>) {
    && (forall k :: 0 <= k < |participants| ==> participants[k].Id == k + 1)
    && (forall k :: 0 <= k < |participants| ==> 1 <= participants[k].RoomId <= roomCount)
    && Tables.UniqueMembership(participants)
  }

  /** Invitation ids are positions + 1. */
  predicate InvitationsWellFormed(invitations: seq<Invitation>) {
    forall k :: 0 <= k < |invitations| ==> invitations[k].Id == k + 1
  }

  /** The assignments of a drawn room are the ring over `order`, a reordering of its participants' identities. */
  ghost predicate DrawnConsistently(participants: seq<RoomParticipant>, assignments: seq<Assignment>,
                                    roomId: int, order: seq<TelegramId>)
  {
    && |order| >= 2
    && multiset(order) == multiset(Tables.MemberIds(participants, roomId))
    && Tables.Pairs(Tables.AssignmentsOf(assignments, roomId)) == Rotation.Ring(order)
  }

  /** The room at position k, if drawn, has a recorded order its assignments are consistent with. */
  ghost predicate DrawnRoomConsistent(rooms: seq<Room>, participants: seq<RoomParticipant>,
                                      assignments: seq<Assignment>, drawOrder: map<int, seq<TelegramId>>, k: int)
    requires 0 <= k < |rooms|
  {
    rooms[k].IsDrawn ==> k + 1 in drawOrder && DrawnConsistently(participants, assignments, k + 1, drawOrder[k + 1])
  }

  /** Every drawn room is consistent with its recorded order. */
  ghost predicate DrawnRoomsConsistent(rooms: seq<Room>, participants: seq<RoomParticipant>,
                                       assignments: seq<Assignment>, drawOrder: map<int, seq<TelegramId>>)
  {
    forall k :: 0 <= k < |rooms| ==> DrawnRoomConsistent(rooms, participants, assignments, drawOrder, k)
  }

  /** Only drawn rooms have assignments, and each drawn room's are consistent with its recorded order. */
  ghost predicate AssignmentsWellFormed(rooms: seq<Room>, participants: seq<RoomParticipant>,
                                        assignments: seq<Assignment>, drawOrder: map<int, seq<TelegramId>>)
  {
    && (forall a :: a in assignments ==> 1 <= a.RoomId <= |rooms| && rooms[a.RoomId - 1].IsDrawn)
    && DrawnRoomsConsistent(rooms, participants, assignments, drawOrder)
  }

  ghost predicate Invariant(rooms: seq<Room>, participants: seq<RoomParticipant>, invitations: seq<Invitation>,
                            assignments: seq<Assignment>, drawOrder: map<int, seq<TelegramId>>)
  {
    && RoomsWellFormed(rooms, participants)
    && ParticipantsWellFormed(|rooms|, participants)
    && InvitationsWellFormed(invitations)
    && AssignmentsWellFormed(rooms, participants, assignments, drawOrder)
  }

  /** Adding a row keeps every membership the table already records. */
  lemma MembershipKept(participants: seq<RoomParticipant>, row: RoomParticipant, roomId: int, telegramId: TelegramId)
    requires Tables.IsParticipant(participants, roomId, telegramId)
    ensures Tables.IsParticipant(participants + [row], roomId, telegramId)
  {
    var j :| 0 <= j < |participants| && participants[j].RoomId == roomId && participants[j].TelegramId == telegramId;
    assert (participants + [row])[j] == participants[j];
  }

  /** A new row whose (room, identity) is not in the table yet keeps memberships unique. */
  lemma UniqueMembershipAppend(participants: seq<RoomParticipant>, row: RoomParticipant)
    requires Tables.UniqueMembership(participants)
    requires !Tables.IsParticipant(participants, row.RoomId, row.TelegramId)
    ensures Tables.UniqueMembership(participants + [row])
  {
    var ps := participants + [row];
    forall i, j | 0 <= i < j < |ps|
      ensures !(ps[i].RoomId == ps[j].RoomId && ps[i].TelegramId == ps[j].TelegramId)
    {
      if j == |participants| {
        assert ps[i] == participants[i];
      }
    }
  }

  /** Every room creator stays a participant when a row is added. */
  lemma CreatorsKept(rooms: seq<Room>, participants: seq<RoomParticipant>, row: RoomParticipant)
    requires forall k :: 0 <= k < |rooms| ==> CreatorJoined(rooms, participants, k)
    ensures forall k :: 0 <= k < |rooms| ==> CreatorJoined(rooms, participants + [row], k)
  {
    forall k | 0 <= k < |rooms| ensures CreatorJoined(rooms, participants + [row], k) {
      assert CreatorJoined(rooms, participants, k);
      MembershipKept(participants, row, k + 1, rooms[k].CreatorTelegramId);
    }
  }

  /** A row added to another room keeps a drawn room consistent. */
  lemma DrawnRoomKept(participants: seq<RoomParticipant>, assignments: seq<Assignment>, roomId: int,
                      order: seq<TelegramId>, row: RoomParticipant)
    requires DrawnConsistently(participants, assignments, roomId, order)
    requires row.RoomId != roomId
    ensures DrawnConsistently(participants + [row], assignments, roomId, order)
  {
    Tables.MemberIdsAppend(participants, row, roomId);
  }

  /** A row added to a room that is not drawn keeps every drawn room consistent. */
  lemma DrawnRoomsKept(rooms: seq<Room>, participants: seq<RoomParticipant>, assignments: seq<Assignment>,
                       drawOrder: map<int, seq<TelegramId>>, row: RoomParticipant)
    requires AssignmentsWellFormed(rooms, participants, assignments, drawOrder)
    requires 1 <= row.RoomId <= |rooms| ==> !rooms[row.RoomId - 1].IsDrawn
    ensures AssignmentsWellFormed(rooms, participants + [row], assignments, drawOrder)
  {
    forall k | 0 <= k < |rooms|
      ensures DrawnRoomConsistent(rooms, participants + [row], assignments, drawOrder, k)
    {
      if rooms[k].IsDrawn {
        assert DrawnRoomConsistent(rooms, participants, assignments, drawOrder, k);
        DrawnRoomKept(participants, assignments, k + 1, drawOrder[k + 1], row);
      }
    }
  }

  /** A new undrawn room at the end of the room table keeps the assignment part of the invariant. */
  lemma UndrawnRoomAppendKeeps(rooms: seq<Room>, participants: seq<RoomParticipant>, assignments: seq<Assignment>,
                               drawOrder: map<int, seq<TelegramId>>, room: Room)
    requires AssignmentsWellFormed(rooms, participants, assignments, drawOrder)
    requires !room.IsDrawn
    ensures AssignmentsWellFormed(rooms + [room], participants, assignments, drawOrder)
  {
    var rs := rooms + [room];
    forall a | a in assignments ensures 1 <= a.RoomId <= |rs| && rs[a.RoomId - 1].IsDrawn {
      assert rs[a.RoomId - 1] == rooms[a.RoomId - 1];
    }
    forall k | 0 <= k < |rs|
      ensures DrawnRoomConsistent(rs, participants, assignments, drawOrder, k)
    {
      if k < |rooms| {
        assert rs[k] == rooms[k];
        assert DrawnRoomConsistent(rooms, participants, assignments, drawOrder, k);
      }
    }
  }

  /** Inserting a participant row for an identity not yet in an undrawn room keeps the invariant. */
  lemma AddParticipantKeeps(rooms: seq<Room>, participants: seq<RoomParticipant>, invitations: seq<Invitation>,
                            assignments: seq<Assignment>, drawOrder: map<int, seq<TelegramId>>, row: RoomParticipant)
    requires Invariant(rooms, participants, invitations, assignments, drawOrder)
    requires row.Id == |participants| + 1 && 1 <= row.RoomId <= |rooms| && !rooms[row.RoomId - 1].IsDrawn
    requires !Tables.IsParticipant(participants, row.RoomId, row.TelegramId)
    ensures Invariant(rooms, participants + [row], invitations, assignments, drawOrder)
  {
    var ps := participants + [row];
    CreatorsKept(rooms, participants, row);
    assert RoomsWellFormed(rooms, ps);
    UniqueMembershipAppend(participants, row);
    assert forall k :: 0 <= k < |participants| ==> ps[k] == participants[k];
    assert ParticipantsWellFormed(|rooms|, ps);
    DrawnRoomsKept(rooms, participants, assignments, drawOrder, row);
  }

  /** Inserting a new undrawn room together with its creator's participant row keeps the invariant. */
  lemma AddRoomKeeps(rooms: seq<Room>, participants: seq<RoomParticipant>, invitations: seq<Invitation>,
                     assignments: seq<Assignment>, drawOrder: map<int, seq<TelegramId>>,
                     room: Room, creator: RoomParticipant)
    requires Invariant(rooms, participants, invitations, assignments, drawOrder)
    requires room.Id == |rooms| + 1 && !room.IsDrawn
    requires creator.Id == |participants| + 1 && creator.RoomId == room.Id
    requires creator.TelegramId == room.CreatorTelegramId
    ensures Invariant(rooms + [room], participants + [creator], invitations, assignments, drawOrder)
    ensures Tables.MemberIds(participants + [creator], room.Id) == [room.CreatorTelegramId]
  {
    var rs := rooms + [room];
    var ps := participants + [creator];
    Tables.NoMembers(participants, room.Id);
    Tables.MemberIdsAppend(participants, creator, room.Id);
    forall k | 0 <= k < |rs| ensures CreatorJoined(rs, ps, k) {
      if k < |rooms| {
        assert CreatorJoined(rooms, participants, k);
        MembershipKept(participants, creator, k + 1, rooms[k].CreatorTelegramId);
      } else {
        assert ps[|participants|] == creator;
      }
    }
    assert !Tables.IsParticipant(participants, room.Id, creator.TelegramId);
    UniqueMembershipAppend(participants, creator);
    DrawnRoomsKept(rooms, participants, assignments, drawOrder, creator);
    UndrawnRoomAppendKeeps(rooms, ps, assignments, drawOrder, room);
  }

  /** Appending an invitation with the next id keeps the invariant. */
  lemma AddInvitationKeeps(rooms: seq<Room>, participants: seq<RoomParticipant>, invitations: seq<Invitation>,
                           assignments: seq<Assignment>, drawOrder: map<int, seq<TelegramId>>, invitation: Invitation)
    requires Invariant(rooms, participants, invitations, assignments, drawOrder)
    requires invitation.Id == |invitations| + 1
    ensures Invariant(rooms, participants, invitations + [invitation], assignments, drawOrder)
  {
  }

  /** Flipping one invitation's acceptance flag keeps the invariant. */
  lemma AcceptInvitationKeeps(rooms: seq<Room>, participants: seq<RoomParticipant>, invitations: seq<Invitation>,
                              assignments: seq<Assignment>, drawOrder: map<int, seq<TelegramId>>, k: nat)
    requires Invariant(rooms, participants, invitations, assignments, drawOrder)
    requires k < |invitations|
    ensures Invariant(rooms, participants, invitations[k := invitations[k].(IsAccepted := true)], assignments, drawOrder)
  {
  }

  /** The room table after a draw of the room at position r. */
  function MarkDrawn(rooms: seq<Room>, r: nat, now: Time): (result: seq<Room>)
    requires r < |rooms|
    ensures |result| == |rooms|
    ensures forall k :: 0 <= k < |rooms| && k != r ==> result[k] == rooms[k]
    ensures result[r].IsDrawn && result[r].DrawDate == Some(now)
    ensures result[r].(IsDrawn := rooms[r].IsDrawn, DrawDate := rooms[r].DrawDate) == rooms[r]
  {
    rooms[r := rooms[r].(IsDrawn := true, DrawDate := Some(now))]
  }

  /** After a draw, every assignment row still belongs to a drawn room. */
  lemma RowsAfterDraw(rooms: seq<Room>, assignments: seq<Assignment>, r: nat, now: Time, added: seq<Assignment>)
    requires forall a :: a in assignments ==> 1 <= a.RoomId <= |rooms| && rooms[a.RoomId - 1].IsDrawn
    requires r < |rooms|
    requires forall a :: a in added ==> a.RoomId == r + 1
    ensures forall a :: a in Tables.DeleteAssignmentsByRoom(assignments, r + 1) + added ==>
      1 <= a.RoomId <= |rooms| && MarkDrawn(rooms, r, now)[a.RoomId - 1].IsDrawn
  {
    var rs := MarkDrawn(rooms, r, now);
    forall a | a in Tables.DeleteAssignmentsByRoom(assignments, r + 1) + added
      ensures 1 <= a.RoomId <= |rooms| && rs[a.RoomId - 1].IsDrawn
    {
      if a !in added {
        assert a in Tables.DeleteAssignmentsByRoom(assignments, r + 1);
        assert rs[a.RoomId - 1] == rooms[a.RoomId - 1];
      }
    }
  }

  /** After a draw, the drawn room and every room drawn before are consistent with their orders. */
  lemma OrdersAfterDraw(rooms: seq<Room>, participants: seq<RoomParticipant>,
                        assignments: seq<Assignment>, drawOrder: map<int, seq<TelegramId>>,
                        r: nat, now: Time, order: seq<TelegramId>, added: seq<Assignment>)
    requires DrawnRoomsConsistent(rooms, participants, assignments, drawOrder)
    requires r < |rooms|
    requires |order| >= 2 && multiset(order) == multiset(Tables.MemberIds(participants, r + 1))
    requires forall a :: a in added ==> a.RoomId == r + 1
    requires Tables.Pairs(added) == Rotation.Ring(order)
    ensures DrawnRoomsConsistent(MarkDrawn(rooms, r, now), participants,
                                 Tables.DeleteAssignmentsByRoom(assignments, r + 1) + added, drawOrder[r + 1 := order])
  {
    var rs := MarkDrawn(rooms, r, now);
    var table := Tables.DeleteAssignmentsByRoom(assignments, r + 1) + added;
    var orders := drawOrder[r + 1 := order];
    forall k | 0 <= k < |rs|
      ensures DrawnRoomConsistent(rs, participants, table, orders, k)
    {
      if k == r {
        Tables.ReplaceRoomAssignments(assignments, added, r + 1);
      } else if rs[k].IsDrawn {
        assert rs[k] == rooms[k];
        assert DrawnRoomConsistent(rooms, participants, assignments, drawOrder, k);
        OtherRoomStaysConsistent(participants, assignments, drawOrder, r + 1, k + 1, added);
      }
    }
  }

  /** A drawn room other than the one being drawn keeps its rows, so it stays consistent with its order. */
  lemma OtherRoomStaysConsistent(participants: seq<RoomParticipant>, assignments: seq<Assignment>,
                                 drawOrder: map<int, seq<TelegramId>>, roomId: int, other: int,
                                 added: seq<Assignment>)
    requires other != roomId && other in drawOrder
    requires DrawnConsistently(participants, assignments, other, drawOrder[other])
    requires forall a :: a in added ==> a.RoomId == roomId
    ensures DrawnConsistently(participants, Tables.DeleteAssignmentsByRoom(assignments, roomId) + added,
                              other, drawOrder[other])
  {
    Tables.ReplaceKeepsOtherRoom(assignments, added, roomId, other);
  }

  /**
   * A draw of an undrawn room keeps the invariant: the room is marked drawn,
   * its old assignments are deleted and the ring over a reordering of its
   * participants is inserted, other rooms' rows untouched.
   */
  lemma DrawKeeps(rooms: seq<Room>, participants: seq<RoomParticipant>, invitations: seq<Invitation>,
                  assignments: seq<Assignment>, drawOrder: map<int, seq<TelegramId>>,
                  r: nat, now: Time, order: seq<TelegramId>, added: seq<Assignment>)
    requires Invariant(rooms, participants, invitations, assignments, drawOrder)
    requires r < |rooms|
    requires |order| >= 2 && multiset(order) == multiset(Tables.MemberIds(participants, r + 1))
    requires forall a :: a in added ==> a.RoomId == r + 1
    requires Tables.Pairs(added) == Rotation.Ring(order)
    ensures Invariant(MarkDrawn(rooms, r, now), participants, invitations,
                      Tables.DeleteAssignmentsByRoom(assignments, r + 1) + added, drawOrder[r + 1 := order])
  {
    RowsAfterDraw(rooms, assignments, r, now, added);
    OrdersAfterDraw(rooms, participants, assignments, drawOrder, r, now, order, added);
    var rs := MarkDrawn(rooms, r, now);
    forall k | 0 <= k < |rs| ensures CreatorJoined(rs, participants, k) {
      assert CreatorJoined(rooms, participants, k);
    }
  }

  /**
   * What the invariant promises about every drawn room: as many assignments
   * as participants, each participant giver once and recipient once, nobody
   * their own recipient, and one cycle through all participants.
   */
  lemma DrawnRoomIsSingleCycle(rooms: seq<Room>, participants: seq<RoomParticipant>, invitations: seq<Invitation>,
                               assignments: seq<Assignment>, drawOrder: map<int, seq<TelegramId>>, k: nat)
    requires Invariant(rooms, participants, invitations, assignments, drawOrder)
    requires k < |rooms| && rooms[k].IsDrawn
    ensures var members := Tables.MemberIds(participants, k + 1);
      var pairs := Tables.Pairs(Tables.AssignmentsOf(assignments, k + 1));
      && |members| >= 2
      && |pairs| == |members|
      && Rotation.OneToOne(pairs, members)
      && Rotation.NoSelfAssignment(pairs)
      && Rotation.SingleCycle(pairs, members)
  {
    assert DrawnRoomConsistent(rooms, participants, assignments, drawOrder, k);
    var order := drawOrder[k + 1];
    var members := Tables.MemberIds(participants, k + 1);
    assert |order| == |multiset(order)| == |members|;
    Tables.MemberIdsDistinct(participants, k + 1);
    Rotation.RingOfPermutation(order, members);
  }

  /**
   * Everything a successful draw of the room at position r yields: the
   * invariant holds of the new tables, the room's rows are the ring over the
   * shuffled identities, forming one cycle through its participants, and
   * every other room keeps its rows.
   */
  lemma DrawOutcome(rooms: seq<Room>, participants: seq<RoomParticipant>, invitations: seq<Invitation>,
                    assignments: seq<Assignment>, drawOrder: map<int, seq<TelegramId>>,
                    roomId: int, now: Time, shuffled: seq<RoomParticipant>, added: seq<Assignment>)
    requires Invariant(rooms, participants, invitations, assignments, drawOrder)
    requires 1 <= roomId <= |rooms|
    requires multiset(shuffled) == multiset(Tables.ParticipantsOf(participants, roomId))
    requires |Tables.ParticipantsOf(participants, roomId)| >= 2
    requires forall a :: a in added ==> a.RoomId == roomId
    requires Tables.Pairs(added) == Rotation.Ring(Tables.TelegramIds(shuffled))
    ensures var table := Tables.DeleteAssignmentsByRoom(assignments, roomId) + added;
      var order := Tables.TelegramIds(shuffled);
      && Invariant(MarkDrawn(rooms, roomId - 1, now), participants, invitations, table, drawOrder[roomId := order])
      && Tables.AssignmentsOf(table, roomId) == added
      && Tables.Pairs(Tables.AssignmentsOf(table, roomId)) == Rotation.Ring(order)
      && (forall other :: other != roomId ==>
            Tables.AssignmentsOf(table, other) == Tables.AssignmentsOf(assignments, other))
    ensures var members := Tables.MemberIds(participants, roomId);
      var pairs := Tables.Pairs(Tables.AssignmentsOf(Tables.DeleteAssignmentsByRoom(assignments, roomId) + added, roomId));
      && |pairs| == |members|
      && Rotation.OneToOne(pairs, members)
      && Rotation.NoSelfAssignment(pairs)
      && Rotation.SingleCycle(pairs, members)
  {
    var r := roomId - 1;
    var order := Tables.TelegramIds(shuffled);
    var roomParticipants := Tables.ParticipantsOf(participants, roomId);
    assert |shuffled| == |multiset(shuffled)| == |multiset(roomParticipants)| == |roomParticipants|;
    Tables.TelegramIdsOfPermutation(shuffled, roomParticipants);
    DrawKeeps(rooms, participants, invitations, assignments, drawOrder, r, now, order, added);
    var table := Tables.DeleteAssignmentsByRoom(assignments, roomId) + added;
    var rs := MarkDrawn(rooms, r, now);
    DrawnRoomIsSingleCycle(rs, participants, invitations, table, drawOrder[roomId := order], r);
    Tables.ReplaceRoomAssignments(assignments, added, roomId);
    forall other | other != roomId
      ensures Tables.AssignmentsOf(table, other) == Tables.AssignmentsOf(assignments, other)
    {
      Tables.ReplaceKeepsOtherRoom(assignments, added, roomId, other);
    }
  }

  /**
   * The lookup a participant of a drawn room makes: a participant finds an
   * assignment naming another participant as recipient; anybody else finds
   * none.
   */
  lemma LookupInDrawnRoom(participants: seq<RoomParticipant>, assignments: seq<Assignment>, roomId: int,
                          order: seq<TelegramId>, telegramId: TelegramId)
    requires Tables.UniqueMembership(participants)
    requires DrawnConsistently(participants, assignments, roomId, order)
    ensures Tables.AssignmentFor(assignments, roomId, telegramId).Some?
        <==> Tables.IsParticipant(participants, roomId, telegramId)
    ensures Tables.AssignmentFor(assignments, roomId, telegramId).Some? ==>
      var recipient := Tables.AssignmentFor(assignments, roomId, telegramId).value.RecipientTelegramId;
      recipient != telegramId && Tables.IsParticipant(participants, roomId, recipient)
  {
    var members := Tables.MemberIds(participants, roomId);
    Tables.MemberIdsDistinct(participants, roomId);
    Rotation.DistinctByMultiset(order, members);
    Tables.AssignmentForIsNext(assignments, roomId, telegramId);
    Tables.IsParticipantIffMember(participants, roomId, telegramId);
    var pairs := Rotation.Ring(order);
    assert Rotation.Givers(pairs) == order;
    assert telegramId in order <==> telegramId in members by {
      assert telegramId in order <==> telegramId in multiset(order);
      assert telegramId in members <==> telegramId in multiset(members);
    }
    var found := Tables.AssignmentFor(assignments, roomId, telegramId);
    if found.Some? {
      var i :| 0 <= i < |order| && order[i] == telegramId;
      var n := |order|;
      Rotation.RingNext(order, i);
      Rotation.SuccMod(i, n);
      var recipient := order[(i + 1) % n];
      assert found.value.RecipientTelegramId == recipient;
      assert recipient in multiset(members);
      Tables.IsParticipantIffMember(participants, roomId, recipient);
    }
  }
}
