/**
 * The rows of the four tables the engine works on. Telegram identities are
 * 64-bit and table ids 32-bit in the source; both are unbounded here.
 * Timestamps are an opaque integer clock.
 */
module Models {
  import opened Wrappers

  type TelegramId = int
  type Time = int

  datatype Room = Room(
    Id: int,
    Name: string,
    CreatorTelegramId: TelegramId,
    CreatorUsername: string,
    CreatorFirstName: Option<string>,
    Code: Option<string>,
    CreatedAt: Time,
    DrawDate: Option<Time>,
    IsDrawn: bool)

  datatype RoomParticipant = RoomParticipant(
    Id: int,
    RoomId: int,
    TelegramId: TelegramId,
    Username: string,
    FirstName: Option<string>,
    WishList: Option<string>,
    JoinedAt: Time)

  datatype Invitation = Invitation(
    Id: int,
    RoomId: int,
    InvitedTelegramId: TelegramId,
    Code: string,
    CreatedAt: Time,
    IsAccepted: bool)

  datatype Assignment = Assignment(
    Id: int,
    RoomId: int,
    SantaTelegramId: TelegramId,
    RecipientTelegramId: TelegramId,
    CreatedAt: Time)
}
