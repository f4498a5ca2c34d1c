/** Chats and their `chat_user` membership rows (app/Models/Chat.php). */
module Chats {
  import opened Common

  /** The values `type` may take (validated by the store action). */
  const CHAT_TYPES: seq<string> := ["private", "group"]

  /** A `chats` row. */
  datatype ChatRow = ChatRow(id: int, name: Option<string>, chatType: string, image: Option<string>)

  /** A `chat_user` row. The table has no unique key on (chat, user), so the
      same pair may occur more than once. */
  datatype MemberRow = MemberRow(chatId: int, userId: int, isAdmin: bool, lastReadAt: Option<int>)

  /** A freshly inserted chat: an omitted type takes the default `private`, and
      there is no image. */
  function NewChat(id: int, name: Option<string>, chatType: Option<string>): (c: ChatRow)
    ensures c.chatType == chatType.GetOr("private")
    ensures c.id == id && c.name == name && c.image == None
  {
    ChatRow(id, name, chatType.GetOr("private"), None)
  }

  /** A row inserted by `attach`: an omitted `is_admin` takes the default
      false, and `last_read_at` starts null. */
  function NewMember(chatId: int, userId: int, isAdmin: Option<bool>): (m: MemberRow)
    ensures m.isAdmin == isAdmin.GetOr(false) && m.lastReadAt == None
    ensures m.chatId == chatId && m.userId == userId
  {
    MemberRow(chatId, userId, isAdmin.GetOr(false), None)
  }

  /** `isGroupChat`. */
  predicate IsGroupChat(c: ChatRow)
  {
    c.chatType == "group"
  }

  /** Of the two accepted types exactly `group` makes a group chat, and a chat
      created without a type is not one. */
  lemma GroupChatByType(c: ChatRow, id: int, name: Option<string>)
    ensures c.chatType in CHAT_TYPES ==> (IsGroupChat(c) <==> c.chatType != "private")
    ensures !IsGroupChat(NewChat(id, name, None))
  {
  }

  function InChat(chatId: int): MemberRow -> bool
  {
    (r: MemberRow) => r.chatId == chatId
  }

  function AdminIn(chatId: int): MemberRow -> bool
  {
    (r: MemberRow) => r.chatId == chatId && r.isAdmin
  }

  /** The `users` relation: the membership rows of the chat. */
  function Users(rows: seq<MemberRow>, chatId: int): seq<MemberRow>
  {
    Filter(InChat(chatId), rows)
  }

  /** The `admins` relation: the membership rows of the chat with `is_admin` set. */
  function Admins(rows: seq<MemberRow>, chatId: int): seq<MemberRow>
  {
    Filter(AdminIn(chatId), rows)
  }

  /** The user ids `users()` plucks. */
  function MemberIds(rows: seq<MemberRow>, chatId: int): set<int>
  {
    set r | r in rows && r.chatId == chatId :: r.userId
  }

  /** The user ids `admins()` plucks. */
  function AdminIds(rows: seq<MemberRow>, chatId: int): set<int>
  {
    set r | r in rows && r.chatId == chatId && r.isAdmin :: r.userId
  }

  /** `users()->where('user_id', u)->exists()`. */
  predicate IsMember(rows: seq<MemberRow>, chatId: int, userId: int)
  {
    userId in MemberIds(rows, chatId)
  }

  /** `admins()->where('user_id', u)->exists()`. */
  predicate IsAdmin(rows: seq<MemberRow>, chatId: int, userId: int)
  {
    userId in AdminIds(rows, chatId)
  }

  /** The admins are exactly the member rows with the flag set, so every admin
      is a member, row for row. */
  lemma AdminsAreFlaggedMembers(rows: seq<MemberRow>, chatId: int)
    ensures forall r :: r in Admins(rows, chatId) <==> r in Users(rows, chatId) && r.isAdmin
    ensures multiset(Admins(rows, chatId)) <= multiset(Users(rows, chatId))
    ensures AdminIds(rows, chatId) <= MemberIds(rows, chatId)
  {
    forall r ensures multiset(Admins(rows, chatId))[r] <= multiset(Users(rows, chatId))[r] {
      FilterCount(AdminIn(chatId), rows, r);
      FilterCount(InChat(chatId), rows, r);
    }
  }
}
