# Secret Santa room engine

This project models the room engine of the Secret Santa Telegram bot, `SecretSantaService`. The engine:

- creates a room and enrols its creator;
- issues invitations bound to one identity;
- admits participants by invitation code or by room code;
- draws the room, after which participant i of a shuffled list gives to participant (i + 1) mod n;
- answers "whom do I give to".

The four repository tables (rooms, participants, invitations, assignments) are sequences of rows in insertion order. Each query the engine issues is a function mirroring its WHERE clause.

Modules:

- `Models`: the four row types.
- `Tables`: the repository queries and deletions, and lemmas about them.
- `Codes`: the shape of room and invitation codes.
- `Rotation`: the giver → recipient rule over a shuffled order. It proves the rule one-to-one and free of self-assignment, and that the rule forms one cycle through all members.
- `Admission`: the guard chains of the two joins and of the draw, as verdict functions. Checks appear in the service's order.
- `Store`: the invariant of the four tables, and one lemma per kind of change showing the change keeps it.
- `Service`: the class `SecretSantaService`. It holds the tables as fields and has one method per operation. Every method keeps `Valid()`. Every method states its whole new state, and that a rejected call changes nothing. For a draw, each new row's id, time, giver and recipient are stated.

Inputs:

- **The shuffle:** `OrderBy(_ => random.Next())` is an input `shuffled`, any reordering of the room's participant rows. Every property of a draw is proved for every reordering.
- **Code characters:** the `Random.Next(36)` draws that pick code characters are an input sequence of picks.
- **The clock:** `DateTime.UtcNow` is an integer parameter `now`.

Identity columns:

- Rooms, participants and invitations are never deleted, so a row's `Id` is its position + 1.
- Assignments are deleted by room, so their ids come from a counter.

Two things the invariant records:

- **Drawn rooms:** every drawn room's assignments are the ring over a reordering of its participants. A ghost map keeps that reordering.
- **Unique membership:** no identity has two participant rows in one room.

The chat front end always creates invitations bound to the room's creator (`SecretSantaBot/Services/TelegramBotService.cs:372` and `:805`). Such an invitation can never admit anybody (`Admission.CreatorBoundInvitationAdmitsNobody`). When the invitation join fails, the front end retries the same string as a room code (`SecretSantaBot/Services/TelegramBotService.cs:583`). A 12-character invitation code never equals an 8-character room code, so that retry fails too. Invitees get in only by typing the room code, which the invitation message also shows (`SecretSantaBot/Services/TelegramBotService.cs:383`). The model keeps the service as written. It shows the consequence rather than correcting it.

The model follows the code where it is looser than one might expect:

- The service's `CreateInvitationAsync` does not check that the caller is the room's creator. That check is made by the chat front end before the call.
- `CreateInvitationAsync` does not check that the room is undrawn either.
- No operation has a lock or a conditional update. Concurrent draws or joins are not guarded; see "Left out".
- Codes are not checked for uniqueness. A lookup by code finds the first row with that code.

## Model

| member | source | states |
|---|---|---|
| Service.SecretSantaService.constructor | SecretSantaBot/Services/SecretSantaService.cs:15-27 | the store starts with four empty tables and satisfies the invariant |
| Service.SecretSantaService.CreateRoom | SecretSantaBot/Services/SecretSantaService.cs:42-70 | appends an undrawn room with the next id and an 8-character code. The creator becomes its only participant, and the other tables are unchanged. The invariant is kept. |
| Service.SecretSantaService.CreateInvitation | SecretSantaBot/Services/SecretSantaService.cs:72-90 | fails with nothing changed exactly when no room has the id. Otherwise it appends one unaccepted invitation for the invitee under a 12-character code and returns that code. |
| Service.SecretSantaService.JoinRoomByCode | SecretSantaBot/Services/SecretSantaService.cs:92-122 | succeeds exactly when the invitation-join checks admit. A rejected join changes nothing. On success it appends exactly one participant row for the invitation's room and flips only that invitation to accepted. No accepted invitation is ever reset, and memberships stay unique. |
| Service.SecretSantaService.AdmitInvitee | SecretSantaBot/Services/SecretSantaService.cs:109-119 | the writes of an admitted invitation join: one participant row appended, the invitation with that id marked accepted, nothing else changed, and the invariant kept |
| Service.SecretSantaService.JoinRoomByRoomCode | SecretSantaBot/Services/SecretSantaService.cs:124-144 | succeeds exactly when the room exists, is undrawn and does not have the identity yet. A rejected join changes nothing. On success it appends exactly one participant row, and memberships stay unique. |
| Service.SecretSantaService.DrawSecretSanta | SecretSantaBot/Services/SecretSantaService.cs:146-190 | succeeds exactly when the room exists, the requester is its creator, it is undrawn and it has at least 2 participants; otherwise nothing changes. On success, only that room is marked drawn with a draw date. Its assignments become the ring over the shuffled identities, with consecutive ids from the counter and the draw's time: as many pairs as members, one-to-one, no self-assignment, one cycle through all members. Other rooms' assignments, participants and invitations are unchanged. |
| Service.SecretSantaService.CommitDraw | SecretSantaBot/Services/SecretSantaService.cs:162-187 | the part of a draw after its checks: deletes the room's rows, inserts the ring with consecutive ids and the draw's time, marks only that room drawn, and keeps the invariant and every other room's assignments |
| Service.RingRows | SecretSantaBot/Services/SecretSantaService.cs:169-183 | the loop inserts one row per shuffled position, with consecutive ids and the room's id. Row i's (giver, recipient) is (position i, position (i + 1) mod n), i.e. the pairs equal the ring over the shuffled identities. |
| Service.SecretSantaService.GetMyAssignment | SecretSantaBot/Services/SecretSantaService.cs:192-195 | the row found is the identity's own row in that room. A room that is missing or undrawn gives none. In a drawn room, a row is found exactly for participants, and its recipient is another participant of the room. |
| Codes.GenerateRoomCode | SecretSantaBot/Services/SecretSantaService.cs:197-202 | any 8 draws give a code of exactly 8 characters, all in A-Z0-9 |
| Codes.GenerateInvitationCode | SecretSantaBot/Services/SecretSantaService.cs:204-209 | any 12 draws give a code of exactly 12 characters, all in A-Z0-9 |
| Codes.CodeFromPicks | SecretSantaBot/Services/SecretSantaService.cs:199-201 | character i of the code is the alphabet letter picked by draw i, so the code has one character per draw, all in A-Z0-9 |
| Codes.PickOf | SecretSantaBot/Services/SecretSantaService.cs:199 | every character of A-Z0-9 is picked by exactly the draw that indexes it in the alphabet |
| Codes.PicksRoundTrip | SecretSantaBot/Services/SecretSantaService.cs:199-201 | the draws can be read back from the code they spell, so distinct draws give distinct codes |
| Codes.CodeRoundTrip | SecretSantaBot/Services/SecretSantaService.cs:199-201 | every string of the code shape is spelled by some draws |
| Rotation.RingNext | SecretSantaBot/Services/SecretSantaService.cs:169-172 | over distinct identities, the recipient of position i is position (i + 1) mod n |
| Rotation.FollowRing | SecretSantaBot/Services/SecretSantaService.cs:169-172 | k ≤ n steps from position i reach position i + k, wrapping past n |
| Rotation.RingRecipients | SecretSantaBot/Services/SecretSantaService.cs:172 | the recipients of the ring are the shuffled order rotated left by one |
| Rotation.RingOneToOne | SecretSantaBot/Services/SecretSantaService.cs:169-183 | every shuffled identity is giver exactly once and recipient exactly once |
| Rotation.RingNoSelfAssignment | SecretSantaBot/Services/SecretSantaService.cs:169-172 | with n ≥ 2 distinct identities, nobody is their own recipient |
| Rotation.RingReturnsAfterN | SecretSantaBot/Services/SecretSantaService.cs:169-172 | from every position, n steps return to it and no fewer do |
| Rotation.RingReaches | SecretSantaBot/Services/SecretSantaService.cs:169-172 | from every position every other position is reached in fewer than n steps |
| Rotation.RingCycleOverMembers | SecretSantaBot/Services/SecretSantaService.cs:166-172 | the ring over any reordering of the members is one cycle through all of them |
| Rotation.RingOfPermutation | SecretSantaBot/Services/SecretSantaService.cs:166-183 | for any reordering of n ≥ 2 distinct members, the ring has n pairs, is one-to-one, has no self-assignment and is a single n-cycle |
| Rotation.Next | SecretSantaBot/Repositories/AssignmentRepository.cs:16-23 | a giver has a recipient exactly when it gives in some pair |
| Tables.IsParticipant | SecretSantaBot/Repositories/ParticipantRepository.cs:68-77 | the count is positive exactly when some row has both that room and that identity |
| Tables.RoomById | SecretSantaBot/Repositories/RoomRepository.cs:16-24 | finds a room with that id, or none exactly when no room has it |
| Tables.RoomByCode | SecretSantaBot/Repositories/RoomRepository.cs:26-34 | finds the first room with that code, or none exactly when no room has it |
| Tables.InvitationByCode | SecretSantaBot/Repositories/InvitationRepository.cs:16-24 | finds the first invitation with that code, or none exactly when no invitation has it |
| Tables.AssignmentFor | SecretSantaBot/Repositories/AssignmentRepository.cs:16-24 | finds a row of that room and giver, or none exactly when there is no such row |
| Tables.ParticipantsOf | SecretSantaBot/Repositories/ParticipantRepository.cs:26-36 | holds exactly the participant rows of that room |
| Tables.AssignmentsOf | SecretSantaBot/Repositories/AssignmentRepository.cs:26-35 | holds exactly the assignment rows of that room |
| Tables.DeleteAssignmentsByRoom | SecretSantaBot/Repositories/AssignmentRepository.cs:46-51 | keeps exactly the rows of the other rooms |
| Tables.ReplaceRoomAssignments | SecretSantaBot/Services/SecretSantaService.cs:162-183 | after deleting a room's rows and inserting rows of that room only, the room sees exactly the inserted rows |
| Tables.ReplaceKeepsOtherRoom | SecretSantaBot/Services/SecretSantaService.cs:162-183 | the same delete-then-insert leaves every other room exactly its old rows |
| Tables.DeleteThenSelect | SecretSantaBot/Repositories/AssignmentRepository.cs:46-51 | after the deletion the room has no rows |
| Tables.DeleteKeepsOtherRoom | SecretSantaBot/Repositories/AssignmentRepository.cs:46-51 | the deletion leaves every other room's rows as they were |
| Tables.OnlyRoomRows | SecretSantaBot/Repositories/AssignmentRepository.cs:26-35 | selecting their room from rows all of one room gives all of them |
| Tables.NoRowsOfOtherRoom | SecretSantaBot/Repositories/AssignmentRepository.cs:26-35 | selecting any other room from rows all of one room gives none |
| Tables.ParticipantsOfAppend | SecretSantaBot/Repositories/ParticipantRepository.cs:26-47 | inserting a participant row extends only its own room's listing, at the end |
| Tables.MemberIdsAppend | SecretSantaBot/Repositories/ParticipantRepository.cs:26-47 | inserting a participant row extends only its own room's identity list |
| Tables.MemberIdsDistinct | SecretSantaBot/Repositories/ParticipantRepository.cs:68-77 | when no identity is twice in a room, a room's identities are distinct |
| Tables.IsParticipantIffMember | SecretSantaBot/Repositories/ParticipantRepository.cs:68-77 | the membership count is positive exactly when the identity is in the room's listing |
| Tables.TelegramIdsOfPermutation | SecretSantaBot/Services/SecretSantaService.cs:166 | reordering the participant rows reorders their identities the same way |
| Tables.AssignmentForIsNext | SecretSantaBot/Repositories/AssignmentRepository.cs:16-24 | the row found for a giver names the recipient the room's pairs give it |
| Admission.InvitationJoin | SecretSantaBot/Services/SecretSantaService.cs:94-107 | the code is unknown exactly when no invitation has it. A join is admitted exactly when the invitation is found and not accepted, it is bound to the joiner, its room exists and is undrawn, and the joiner is not in the room. |
| Admission.RoomCodeJoin | SecretSantaBot/Services/SecretSantaService.cs:126-132 | the code is unknown exactly when no room has it. A join is admitted exactly when the room is found and undrawn and the joiner is not in it. |
| Admission.RoomJoin | SecretSantaBot/Services/SecretSantaService.cs:101-107 | the room is missing exactly when it was not found. The checks both joins share admit exactly when the room is undrawn and the joiner is not in it. |
| Admission.Draw | SecretSantaBot/Services/SecretSantaService.cs:148-160 | the room is missing exactly when no room has the id. A draw is ready exactly when the room exists, the requester is its creator, it is undrawn and it has at least 2 participants. |
| Admission.SameInvitationAfterAccept | SecretSantaBot/Repositories/InvitationRepository.cs:49-57 | flipping an invitation to accepted does not change which invitation its code finds |
| Admission.InvitationAdmitsAtMostOnce | SecretSantaBot/Services/SecretSantaService.cs:94-119 | after an admitted invitation join, the same code is rejected as already accepted for every identity |
| Admission.RoomCodeRejoinRejected | SecretSantaBot/Services/SecretSantaService.cs:124-144 | after an admitted room-code join, the same identity joining again is rejected as already a participant |
| Admission.InvitationThenRoomCodeRejected | SecretSantaBot/Services/SecretSantaService.cs:105-132 | an identity admitted by invitation is rejected by the room-code path for the same room |
| Admission.CreatorBoundInvitationAdmitsNobody | SecretSantaBot/Services/TelegramBotService.cs:578-584 | an invitation bound to its room's creator, who is already a participant, admits nobody |
| Admission.NoSecondDraw | SecretSantaBot/Services/SecretSantaService.cs:155-187 | after a draw marks the room drawn, no further draw of it is ready, whoever asks |
| Store.MembershipKept | SecretSantaBot/Repositories/ParticipantRepository.cs:38-47 | inserting a row keeps every existing membership |
| Store.UniqueMembershipAppend | SecretSantaBot/Services/SecretSantaService.cs:105-116 | inserting only after the already-participant check keeps identities unique per room |
| Store.CreatorsKept | SecretSantaBot/Services/SecretSantaService.cs:109-116 | every room creator stays a participant when a row is added |
| Store.DrawnRoomKept | SecretSantaBot/Services/SecretSantaService.cs:102-116 | a row added to another room keeps a drawn room's assignments consistent with its members |
| Store.DrawnRoomsKept | SecretSantaBot/Services/SecretSantaService.cs:102-116 | a row added to an undrawn room keeps every drawn room consistent |
| Store.UndrawnRoomAppendKeeps | SecretSantaBot/Services/SecretSantaService.cs:46-57 | a new undrawn room keeps the assignment part of the invariant |
| Store.AddParticipantKeeps | SecretSantaBot/Services/SecretSantaService.cs:105-141 | inserting a new identity into an undrawn room keeps the invariant |
| Store.AddRoomKeeps | SecretSantaBot/Services/SecretSantaService.cs:42-70 | inserting a room with its creator's row keeps the invariant, and the creator is the room's only member |
| Store.AddInvitationKeeps | SecretSantaBot/Services/SecretSantaService.cs:79-88 | appending an invitation keeps the invariant |
| Store.AcceptInvitationKeeps | SecretSantaBot/Services/SecretSantaService.cs:118-119 | flipping an invitation to accepted keeps the invariant |
| Store.MarkDrawn | SecretSantaBot/Services/SecretSantaService.cs:185-187 | the room table after the update: only that room changes, it is drawn with the draw date, and its other columns are kept |
| Store.RowsAfterDraw | SecretSantaBot/Services/SecretSantaService.cs:163-187 | after a draw every assignment row still belongs to a drawn room |
| Store.OrdersAfterDraw | SecretSantaBot/Services/SecretSantaService.cs:163-187 | after a draw the drawn room and every earlier drawn room are consistent with their orders |
| Store.OtherRoomStaysConsistent | SecretSantaBot/Repositories/AssignmentRepository.cs:46-51 | a drawn room other than the one being drawn keeps its rows through the delete-then-insert, so it stays consistent with its recorded order |
| Store.DrawKeeps | SecretSantaBot/Services/SecretSantaService.cs:163-187 | a draw keeps the invariant |
| Store.DrawOutcome | SecretSantaBot/Services/SecretSantaService.cs:162-187 | a draw over any reordering of the room's participants keeps the invariant. The room's pairs are the ring, one-to-one, with no self-assignment and a single cycle. Other rooms keep their rows. |
| Store.DrawnRoomIsSingleCycle | SecretSantaBot/Services/SecretSantaService.cs:166-183 | every drawn room in a valid store has at least 2 members and exactly as many pairs. The pairs are one-to-one, with no self-assignment and one cycle through all members. |
| Store.LookupInDrawnRoom | SecretSantaBot/Services/SecretSantaService.cs:192-195 | in a drawn room a lookup finds a row exactly for participants, naming another participant |

## Left out

- `EnsureUserAsync` and the user table: user-profile bookkeeping that no engine operation reads.
- The chat front end, its commands, replies and keyboards. Only its invitation call is used, to state the quirk above.
- The SQL text and Dapper calls: each query is a function over in-memory tables with the same WHERE columns.
- Tables.RoomByCode and Tables.InvitationByCode compare codes by exact string equality. The database's `=` ignores trailing blanks, and under a case-insensitive collation it ignores case too, so `abcd1234` can find room `ABCD1234` there but not in the model. The front end trims the code but does not upper-case it. Database collation is not modelled.
- Service.SecretSantaService.JoinRoomByCode (with AdmitInvitee) and Service.SecretSantaService.DrawSecretSanta (with CommitDraw) are atomic in the model. The source makes several separate repository calls: the join inserts the row and then flips the invitation; the draw deletes, inserts rows one at a time and then marks the room drawn. A failure between the calls can leave a participant whose invitation is still unaccepted, or an undrawn room with some assignment rows. The model has no such failure, so its invariant allows no rows for an undrawn room, and the draw's delete never removes anything in a reachable state.
- Async execution and concurrent calls: the source has no locks or conditional updates. Each operation is modelled as one sequential step.
- `Random`: the shuffle and the code draws are inputs. Nothing is claimed about uniformity, and code uniqueness is not checked by the source.
- `DateTime.UtcNow` is an integer parameter. `ORDER BY JoinedAt` is taken as insertion order. A `QueryFirstOrDefault` without ORDER BY is taken as the first matching row in insertion order.
- Service.SecretSantaService.CreateInvitation: the `ArgumentException` thrown for a missing room is a `None` result.
- Integer widths (`int` room ids, `long` identities) are unbounded integers. No operation does arithmetic on them that could overflow.
- The room table's other update (renaming) and the repositories' other queries are not called by the engine.
