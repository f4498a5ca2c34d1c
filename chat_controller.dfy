/** The chat actions of app/Http/Controllers/ChatController.php, as operations
    on an in-memory store holding the `chats`, `chat_user` and `messages`
    tables. The requester's id, the clock and the user directory that the
    `exists:users,id` rule consults are parameters. */
module ChatController {
  import opened Common
  import opened Chats
  import opened Messages

  /** `paginate(50)`. */
  const PER_PAGE: int := 50

  // ---------------------------------------------------------------------------
  // Validation rules, as predicates over the request fields

  /** `users` is `required|array|min:1` and each entry `exists:users,id`. */
  predicate ValidUserList(users: seq<int>, directory: set<int>)
  {
    |users| >= 1 && forall u :: u in users ==> u in directory
  }

  /** The rules of `store`: the type is `private` or `group`, a group needs a
      name that is not blank, a given name has at most 255 characters, and the user list is valid. */
  predicate ValidChatRequest(chatType: string, name: Option<string>, users: seq<int>, directory: set<int>)
  {
    && chatType in CHAT_TYPES
    && (chatType == "group" ==> Given(name))
    && (name.Some? ==> |name.value| <= 255)
    && ValidUserList(users, directory)
  }

  /** The rules of `sendMessage`: non-blank content or a file, content of at most 1000
      characters, one of the five types, and a file for every media type.
      The file's size limit is not modelled. */
  predicate ValidMessageRequest(content: Option<string>, messageType: string, file: Option<string>)
  {
    && (Given(content) || file.Some?)
    && (content.Some? ==> |content.value| <= 1000)
    && messageType in MESSAGE_TYPES
    && (messageType in MEDIA_TYPES ==> file.Some?)
  }

  /** `required_if` and `required_without` reject a blank string as they
      reject a missing one: a group named only by white space, and a message
      whose only content is white space, fail validation. */
  lemma BlankFieldIsMissing(name: string, content: string, users: seq<int>, directory: set<int>, messageType: string)
    requires Blank(name) && Blank(content)
    ensures !ValidChatRequest("group", Some(name), users, directory)
    ensures !ValidChatRequest("group", None, users, directory)
    ensures !ValidMessageRequest(Some(content), messageType, None)
    ensures !ValidMessageRequest(None, messageType, None)
  {
  }

  // ---------------------------------------------------------------------------
  // Authorization gates

  /** The gate of `messages`, `sendMessage` and `markAsRead`: the chat exists
      and the requester has a membership row in it. */
  function MemberGate(chats: map<int, ChatRow>, rows: seq<MemberRow>, chatId: int, requester: int): Code
  {
    if chatId !in chats then NotFound
    else if !IsMember(rows, chatId, requester) then Unauthorized
    else Ok
  }

  /** The gate of `addUsers` and `removeUsers`: the chat exists, is a group,
      and the requester has an admin row in it. */
  function AdminGate(chats: map<int, ChatRow>, rows: seq<MemberRow>, chatId: int, requester: int): Code
  {
    if chatId !in chats then NotFound
    else if !IsGroupChat(chats[chatId]) || !IsAdmin(rows, chatId, requester) then Unauthorized
    else Ok
  }

  lemma MemberGateAdmitsOnlyMembers(chats: map<int, ChatRow>, rows: seq<MemberRow>, chatId: int, requester: int)
    ensures MemberGate(chats, rows, chatId, requester) == Ok <==> chatId in chats && IsMember(rows, chatId, requester)
  {
  }

  /** Only a group admin passes the admin gate; an admin is also a member. */
  lemma {:induction false} AdminGateAdmitsOnlyGroupAdmins(chats: map<int, ChatRow>, rows: seq<MemberRow>, chatId: int, requester: int)
    ensures AdminGate(chats, rows, chatId, requester) == Ok <==>
      chatId in chats && IsGroupChat(chats[chatId]) && IsAdmin(rows, chatId, requester)
    ensures AdminGate(chats, rows, chatId, requester) == Ok ==> MemberGate(chats, rows, chatId, requester) == Ok
  {
    AdminsAreFlaggedMembers(rows, chatId);
  }

  // ---------------------------------------------------------------------------
  // Table updates, as functions of the old table

  /** The non-admin rows one `attach` per listed id inserts, in list order. */
  function AttachRows(chatId: int, users: seq<int>): (r: seq<MemberRow>)
    ensures |r| == |users|
    ensures forall k :: 0 <= k < |users| ==> r[k] == NewMember(chatId, users[k], Some(false))
  {
    seq(|users|, k requires 0 <= k < |users| => NewMember(chatId, users[k], Some(false)))
  }

  lemma AttachRowsAppend(chatId: int, users: seq<int>, u: int)
    ensures AttachRows(chatId, users + [u]) == AttachRows(chatId, users) + [NewMember(chatId, u, Some(false))]
  {
  }

  /** Each listed id gets one row per occurrence in the list, and no other id
      gets any row. */
  lemma {:induction false} AttachRowsCount(chatId: int, users: seq<int>, u: int)
    ensures multiset(AttachRows(chatId, users))[NewMember(chatId, u, Some(false))] == multiset(users)[u]
    ensures forall r :: r in AttachRows(chatId, users) ==> r.chatId == chatId && r.userId in users && !r.isAdmin && r.lastReadAt == None
  {
    if users != [] {
      var last := |users| - 1;
      assert users == users[..last] + [users[last]];
      AttachRowsAppend(chatId, users[..last], users[last]);
      AttachRowsCount(chatId, users[..last], u);
    }
  }

  function NotUser(userId: int): int -> bool
  {
    u => u != userId
  }

  function NotIn(existing: set<int>): int -> bool
  {
    u => u !in existing
  }

  /** The rows `store` attaches to a new chat: the requester first, admin
      exactly when the chat is a group, then every listed id other than the
      requester as a non-admin, once per occurrence. */
  function StoreRows(chatId: int, requester: int, isGroup: bool, users: seq<int>): seq<MemberRow>
  {
    [NewMember(chatId, requester, Some(isGroup))] + AttachRows(chatId, Filter(NotUser(requester), users))
  }

  lemma {:induction false} StoreRowsAppend(chatId: int, requester: int, isGroup: bool, users: seq<int>, u: int)
    ensures StoreRows(chatId, requester, isGroup, users + [u]) ==
      StoreRows(chatId, requester, isGroup, users) + (if u != requester then [NewMember(chatId, u, Some(false))] else [])
  {
    FilterAppend(NotUser(requester), users, [u]);
    FilterSingleton(NotUser(requester), u);
    AttachRowsAppend(chatId, Filter(NotUser(requester), users), u);
  }

  /** Creating a chat leaves the requester exactly one row, in that chat,
      admin iff the chat is a group. */
  lemma {:induction false} StoreRowsCreator(chatId: int, requester: int, isGroup: bool, users: seq<int>)
    ensures forall r :: r in StoreRows(chatId, requester, isGroup, users) ==> r.chatId == chatId
    ensures forall r :: r in StoreRows(chatId, requester, isGroup, users) && r.userId == requester ==>
      r == NewMember(chatId, requester, Some(isGroup))
    ensures multiset(StoreRows(chatId, requester, isGroup, users))[NewMember(chatId, requester, Some(isGroup))] == 1
  {
    var others := Filter(NotUser(requester), users);
    var creator := NewMember(chatId, requester, Some(isGroup));
    var attached := AttachRows(chatId, others);
    AttachRowsCount(chatId, others, requester);
    assert StoreRows(chatId, requester, isGroup, users) == [creator] + attached;
    assert multiset([creator] + attached) == multiset{creator} + multiset(attached);
    assert creator !in attached;
    assert multiset(attached)[creator] == 0;
  }

  /** Creating a chat gives every listed id other than the requester one
      non-admin row per occurrence in the list, and no other row. */
  lemma {:induction false} StoreRowsOthers(chatId: int, requester: int, isGroup: bool, users: seq<int>, u: int)
    requires u != requester
    ensures multiset(StoreRows(chatId, requester, isGroup, users))[NewMember(chatId, u, Some(false))] == multiset(users)[u]
    ensures forall r :: r in StoreRows(chatId, requester, isGroup, users) && r.userId == u ==>
      r == NewMember(chatId, u, Some(false))
  {
    var others := Filter(NotUser(requester), users);
    var creator := NewMember(chatId, requester, Some(isGroup));
    var attached := AttachRows(chatId, others);
    AttachRowsCount(chatId, others, u);
    FilterCount(NotUser(requester), users, u);
    assert StoreRows(chatId, requester, isGroup, users) == [creator] + attached;
    assert multiset([creator] + attached) == multiset{creator} + multiset(attached);
  }

  /** The rows of a chat that had none are the rows inserted for it. */
  lemma {:induction false} NewChatUsers(rows: seq<MemberRow>, chatId: int, added: seq<MemberRow>)
    requires forall r :: r in rows ==> r.chatId != chatId
    requires forall r :: r in added ==> r.chatId == chatId
    ensures Users(rows + added, chatId) == added
  {
    FilterAppend(InChat(chatId), rows, added);
    FilterDropsAll(InChat(chatId), rows);
    FilterKeepsAll(InChat(chatId), added);
  }

  /** `array_diff($users, $existingUsers)`: the listed ids that are not yet
      members, in list order, duplicates within the list kept. */
  function NewUserIds(users: seq<int>, existing: set<int>): seq<int>
  {
    Filter(NotIn(existing), users)
  }

  lemma {:induction false} MemberIdsAfterAttach(rows: seq<MemberRow>, chatId: int, users: seq<int>)
    ensures MemberIds(rows + AttachRows(chatId, users), chatId) == MemberIds(rows, chatId) + (set u | u in users)
  {
    AttachRowsCount(chatId, users, 0);
    forall u | u in users
      ensures u in MemberIds(rows + AttachRows(chatId, users), chatId)
    {
      var k :| 0 <= k < |users| && users[k] == u;
      assert AttachRows(chatId, users)[k] in rows + AttachRows(chatId, users);
    }
  }

  /** `addUsers` gives an id that already has a row no new row, so it never
      duplicates an existing member; an id without a row gets one non-admin
      row per occurrence in the list. */
  lemma {:induction false} AddUsersRows(rows: seq<MemberRow>, chatId: int, users: seq<int>, u: int)
    ensures u in MemberIds(rows, chatId) ==>
      forall r :: r in AttachRows(chatId, NewUserIds(users, MemberIds(rows, chatId))) ==> r.userId != u
    ensures u !in MemberIds(rows, chatId) ==>
      multiset(AttachRows(chatId, NewUserIds(users, MemberIds(rows, chatId))))[NewMember(chatId, u, Some(false))]
      == multiset(users)[u]
  {
    var joining := NewUserIds(users, MemberIds(rows, chatId));
    AttachRowsCount(chatId, joining, u);
    FilterCount(NotIn(MemberIds(rows, chatId)), users, u);
  }

  /** After `addUsers` every listed id is a member, so repeating the call
      attaches nothing. */
  lemma {:induction false} AddUsersIdempotent(rows: seq<MemberRow>, chatId: int, users: seq<int>)
    ensures var after := rows + AttachRows(chatId, NewUserIds(users, MemberIds(rows, chatId)));
      && MemberIds(after, chatId) == MemberIds(rows, chatId) + (set u | u in users)
      && NewUserIds(users, MemberIds(after, chatId)) == []
  {
    var joining := NewUserIds(users, MemberIds(rows, chatId));
    MemberIdsAfterAttach(rows, chatId, joining);
    var after := rows + AttachRows(chatId, joining);
    forall u | u in users ensures u in MemberIds(after, chatId) {
      if u !in MemberIds(rows, chatId) {
        assert u in joining;
      }
    }
    FilterDropsAll(NotIn(MemberIds(after, chatId)), users);
  }

  function NotDetached(chatId: int, ids: set<int>): MemberRow -> bool
  {
    (r: MemberRow) => !(r.chatId == chatId && r.userId in ids)
  }

  /** `detach($users)`: deletes every row of the chat whose user is listed. */
  function Detach(rows: seq<MemberRow>, chatId: int, ids: set<int>): seq<MemberRow>
  {
    Filter(NotDetached(chatId, ids), rows)
  }

  /** After `removeUsers` no listed id has a row in the chat, and every other
      row keeps its multiplicity. */
  lemma DetachRemovesExactlyListed(rows: seq<MemberRow>, chatId: int, ids: set<int>)
    ensures MemberIds(Detach(rows, chatId, ids), chatId) == MemberIds(rows, chatId) - ids
    ensures forall r: MemberRow :: !(r.chatId == chatId && r.userId in ids) ==>
      multiset(Detach(rows, chatId, ids))[r] == multiset(rows)[r]
  {
    forall r: MemberRow | !(r.chatId == chatId && r.userId in ids)
      ensures multiset(Detach(rows, chatId, ids))[r] == multiset(rows)[r]
    {
      FilterCount(NotDetached(chatId, ids), rows, r);
    }
  }

  /** Removing ids that have no row in the chat changes nothing. */
  lemma {:induction false} DetachNonMembersIsNoOp(rows: seq<MemberRow>, chatId: int, ids: set<int>)
    requires ids !! MemberIds(rows, chatId)
    ensures Detach(rows, chatId, ids) == rows
  {
    forall r | r in rows ensures NotDetached(chatId, ids)(r) {
      if r.chatId == chatId {
        assert r.userId in MemberIds(rows, chatId);
      }
    }
    FilterKeepsAll(NotDetached(chatId, ids), rows);
  }

  /** `updateExistingPivot($userId, ['last_read_at' => now])`: every row of
      that user in that chat gets `now` as its last-read time. */
  function MarkRead(rows: seq<MemberRow>, chatId: int, userId: int, now: int): (r: seq<MemberRow>)
    ensures |r| == |rows|
    ensures forall i :: 0 <= i < |rows| ==>
      r[i].chatId == rows[i].chatId && r[i].userId == rows[i].userId && r[i].isAdmin == rows[i].isAdmin
  {
    seq(|rows|, i requires 0 <= i < |rows| =>
      if rows[i].chatId == chatId && rows[i].userId == userId then rows[i].(lastReadAt := Some(now)) else rows[i])
  }

  /** Marking read touches only that user's rows in that chat, keeps who is a
      member and who is an admin everywhere, and is idempotent. */
  lemma {:induction false} MarkReadFrame(rows: seq<MemberRow>, chatId: int, userId: int, now: int)
    ensures forall i :: 0 <= i < |rows| && rows[i].chatId == chatId && rows[i].userId == userId ==>
      MarkRead(rows, chatId, userId, now)[i].lastReadAt == Some(now)
    ensures forall i :: 0 <= i < |rows| && !(rows[i].chatId == chatId && rows[i].userId == userId) ==>
      MarkRead(rows, chatId, userId, now)[i] == rows[i]
    ensures forall c :: MemberIds(MarkRead(rows, chatId, userId, now), c) == MemberIds(rows, c)
    ensures forall c :: AdminIds(MarkRead(rows, chatId, userId, now), c) == AdminIds(rows, c)
    ensures MarkRead(MarkRead(rows, chatId, userId, now), chatId, userId, now) == MarkRead(rows, chatId, userId, now)
  {
    var r := MarkRead(rows, chatId, userId, now);
    forall c ensures MemberIds(r, c) == MemberIds(rows, c) && AdminIds(r, c) == AdminIds(rows, c) {
      forall u | u in MemberIds(rows, c) ensures u in MemberIds(r, c) {
        var x :| x in rows && x.chatId == c && x.userId == u;
        var i :| 0 <= i < |rows| && rows[i] == x;
        assert r[i] in r;
      }
      forall u | u in MemberIds(r, c) ensures u in MemberIds(rows, c) {
        var x :| x in r && x.chatId == c && x.userId == u;
        var i :| 0 <= i < |r| && r[i] == x;
        assert rows[i] in rows;
      }
      forall u | u in AdminIds(rows, c) ensures u in AdminIds(r, c) {
        var x :| x in rows && x.chatId == c && x.isAdmin && x.userId == u;
        var i :| 0 <= i < |rows| && rows[i] == x;
        assert r[i] in r;
      }
      forall u | u in AdminIds(r, c) ensures u in AdminIds(rows, c) {
        var x :| x in r && x.chatId == c && x.isAdmin && x.userId == u;
        var i :| 0 <= i < |r| && r[i] == x;
        assert rows[i] in rows;
      }
    }
  }

  // ---------------------------------------------------------------------------
  // The message list as `messages` returns it

  function OfChat(chatId: int): MessageRow -> bool
  {
    (m: MessageRow) => m.chatId == chatId
  }

  /** The `messages` relation of a chat, in insertion order. */
  function ChatMessages(messages: seq<MessageRow>, chatId: int): seq<MessageRow>
  {
    Filter(OfChat(chatId), messages)
  }

  /** The page number the paginator uses: the requested one when it is at
      least 1, else 1. */
  function CurrentPage(page: int): int
  {
    if page >= 1 then page else 1
  }

  /** Page `page` of `s`, `PER_PAGE` items to a page. */
  function Page<T>(s: seq<T>, page: int): (r: seq<T>)
    ensures var start := (CurrentPage(page) - 1) * PER_PAGE;
      |r| == if start >= |s| then 0 else if |s| - start < PER_PAGE then |s| - start else PER_PAGE
    ensures forall k :: 0 <= k < |r| ==>
      (CurrentPage(page) - 1) * PER_PAGE + k < |s| && r[k] == s[(CurrentPage(page) - 1) * PER_PAGE + k]
  {
    var start := (CurrentPage(page) - 1) * PER_PAGE;
    if start >= |s| then []
    else s[start .. if start + PER_PAGE <= |s| then start + PER_PAGE else |s|]
  }

  /** Every item sits on exactly one page: item `i` is item `i % 50` of page
      `i / 50 + 1`. */
  lemma PageHoldsEveryItem<T>(s: seq<T>, i: int)
    requires 0 <= i < |s|
    ensures i % PER_PAGE < |Page(s, i / PER_PAGE + 1)|
    ensures Page(s, i / PER_PAGE + 1)[i % PER_PAGE] == s[i]
  {
  }

  /** A message just sent to a chat is the first item of its first page. */
  lemma {:induction false} SentMessageLeadsFirstPage(messages: seq<MessageRow>, m: MessageRow)
    ensures |Page(NewestFirst(ChatMessages(messages + [m], m.chatId)), 1)| >= 1
    ensures Page(NewestFirst(ChatMessages(messages + [m], m.chatId)), 1)[0] == m
  {
    FilterAppend(OfChat(m.chatId), messages, [m]);
    FilterSingleton(OfChat(m.chatId), m);
    var listed := NewestFirst(ChatMessages(messages, m.chatId) + [m]);
    assert listed[0] == m;
    FirstPageStartsList(listed);
  }

  /** Messages stored in clock order. */
  ghost predicate MessagesChronological(messages: seq<MessageRow>)
  {
    Pairwise((a: MessageRow, b: MessageRow) => a.createdAt <= b.createdAt, messages)
  }

  /** Over messages stored in clock order, a chat's list is sorted by
      `created_at`, newest first, as `latest()` orders it. */
  lemma {:induction false} MessagesNewestFirst(messages: seq<MessageRow>, chatId: int)
    requires MessagesChronological(messages)
    ensures var r := NewestFirst(ChatMessages(messages, chatId));
      forall i, j :: 0 <= i < j < |r| ==> r[i].createdAt >= r[j].createdAt
  {
    FilterPairwise(OfChat(chatId), (a: MessageRow, b: MessageRow) => a.createdAt <= b.createdAt, messages);
  }

  lemma FirstPageStartsList<T>(s: seq<T>)
    requires |s| >= 1
    ensures |Page(s, 1)| >= 1 && Page(s, 1)[0] == s[0]
  {
  }

  // ---------------------------------------------------------------------------
  // The store

  class ChatStore {
    var chats: map<int, ChatRow>
    var members: seq<MemberRow>
    var messages: seq<MessageRow>
    var nextChatId: int
    var nextMessageId: int

    /** Keys are ids below the next id; every membership row and every
        message belongs to an existing chat; message ids grow along the list. */
    ghost predicate Valid()
      reads this
    {
      && (forall id :: id in chats ==> chats[id].id == id && id < nextChatId)
      && (forall r :: r in members ==> r.chatId in chats)
      && (forall m :: m in messages ==> m.chatId in chats && m.id < nextMessageId)
      && (forall i, j :: 0 <= i < j < |messages| ==> messages[i].id < messages[j].id)
    }

    constructor ()
      ensures Valid()
      ensures chats == map[] && members == [] && messages == []
    {
      chats, members, messages := map[], [], [];
      nextChatId, nextMessageId := 1, 1;
    }

    /** `store`: validate, create the chat, attach the requester (admin iff a
        group), then attach every other listed id as a non-admin. */
    method Store(requester: int, chatType: string, name: Option<string>, users: seq<int>, directory: set<int>)
      returns (code: Code, chat: Option<ChatRow>)
      requires Valid()
      modifies this
      ensures Valid()
      ensures code == (if ValidChatRequest(chatType, name, users, directory) then Created else Invalid)
      ensures code == Invalid ==>
        chat == None && chats == old(chats) && members == old(members) && nextChatId == old(nextChatId)
      ensures code == Created ==>
        && chat == Some(NewChat(old(nextChatId), name, Some(chatType)))
        && old(nextChatId) !in old(chats)
        && chats == old(chats)[old(nextChatId) := chat.value]
        && members == old(members) + StoreRows(old(nextChatId), requester, chatType == "group", users)
        && Users(members, old(nextChatId)) == StoreRows(old(nextChatId), requester, chatType == "group", users)
        && nextChatId == old(nextChatId) + 1
      ensures messages == old(messages) && nextMessageId == old(nextMessageId)
    {
      if !ValidChatRequest(chatType, name, users, directory) {
        return Invalid, None;
      }
      var chatId := nextChatId;
      var row := NewChat(chatId, name, Some(chatType));
      chats := chats[chatId := row];
      nextChatId := nextChatId + 1;

      members := members + [NewMember(chatId, requester, Some(chatType == "group"))];
      var i := 0;
      while i < |users|
        invariant 0 <= i <= |users|
        invariant members == old(members) + StoreRows(chatId, requester, chatType == "group", users[..i])
        invariant chats == old(chats)[chatId := row] && nextChatId == chatId + 1
        invariant messages == old(messages) && nextMessageId == old(nextMessageId)
      {
        assert users[..i + 1] == users[..i] + [users[i]];
        StoreRowsAppend(chatId, requester, chatType == "group", users[..i], users[i]);
        if users[i] != requester {
          members := members + [NewMember(chatId, users[i], Some(false))];
        }
        i := i + 1;
      }
      assert users[..i] == users;
      ghost var added := StoreRows(chatId, requester, chatType == "group", users);
      StoreRowsCreator(chatId, requester, chatType == "group", users);
      assert forall r :: r in old(members) ==> r.chatId in old(chats);
      NewChatUsers(old(members), chatId, added);
      code, chat := Created, Some(row);
    }

    /** `messages`: members get page `page` of the chat's messages, newest first. */
    method Messages(requester: int, chatId: int, page: int) returns (code: Code, items: seq<MessageRow>)
      requires Valid()
      ensures code == MemberGate(chats, members, chatId, requester)
      ensures code == Ok ==> items == Page(NewestFirst(ChatMessages(messages, chatId)), page)
      ensures code != Ok ==> items == []
    {
      code := MemberGate(chats, members, chatId, requester);
      if code != Ok {
        return code, [];
      }
      items := Page(NewestFirst(ChatMessages(messages, chatId)), page);
    }

    /** `sendMessage`: members whose request is valid append one message
        authored by them, and their own last-read time moves to `now`. */
    method SendMessage(requester: int, chatId: int, now: int,
                       content: Option<string>, messageType: string, file: Option<string>)
      returns (code: Code, message: Option<MessageRow>)
      requires Valid()
      modifies this
      ensures Valid()
      ensures code == (var gate := MemberGate(old(chats), old(members), chatId, requester);
                       if gate != Ok then gate
                       else if ValidMessageRequest(content, messageType, file) then Created
                       else Invalid)
      ensures code == Created ==>
        && message == Some(NewMessage(old(nextMessageId), chatId, requester, content, Some(messageType), file, now))
        && messages == old(messages) + [message.value]
        && members == MarkRead(old(members), chatId, requester, now)
        && nextMessageId == old(nextMessageId) + 1
      ensures code != Created ==>
        message == None && messages == old(messages) && members == old(members) && nextMessageId == old(nextMessageId)
      ensures chats == old(chats) && nextChatId == old(nextChatId)
    {
      code := MemberGate(chats, members, chatId, requester);
      if code != Ok {
        return code, None;
      }
      if !ValidMessageRequest(content, messageType, file) {
        return Invalid, None;
      }
      var m := NewMessage(nextMessageId, chatId, requester, content, Some(messageType), file, now);
      messages := messages + [m];
      nextMessageId := nextMessageId + 1;
      members := MarkRead(members, chatId, requester, now);
      code, message := Created, Some(m);
    }

    /** `addUsers`: a group admin attaches, as non-admins, the listed ids
        that are not yet members. */
    method AddUsers(requester: int, chatId: int, users: seq<int>, directory: set<int>) returns (code: Code)
      requires Valid()
      modifies this
      ensures Valid()
      ensures code == (var gate := AdminGate(old(chats), old(members), chatId, requester);
                       if gate != Ok then gate
                       else if ValidUserList(users, directory) then Ok
                       else Invalid)
      ensures code == Ok ==>
        members == old(members) + AttachRows(chatId, NewUserIds(users, MemberIds(old(members), chatId)))
      ensures code != Ok ==> members == old(members)
      ensures chats == old(chats) && messages == old(messages)
      ensures nextChatId == old(nextChatId) && nextMessageId == old(nextMessageId)
    {
      code := AdminGate(chats, members, chatId, requester);
      if code != Ok {
        return;
      }
      if !ValidUserList(users, directory) {
        return Invalid;
      }
      var existing := MemberIds(members, chatId);
      var newUsers := NewUserIds(users, existing);
      var i := 0;
      while i < |newUsers|
        invariant 0 <= i <= |newUsers|
        invariant members == old(members) + AttachRows(chatId, newUsers[..i])
        invariant chats == old(chats) && messages == old(messages)
        invariant nextChatId == old(nextChatId) && nextMessageId == old(nextMessageId)
      {
        assert newUsers[..i + 1] == newUsers[..i] + [newUsers[i]];
        AttachRowsAppend(chatId, newUsers[..i], newUsers[i]);
        members := members + [NewMember(chatId, newUsers[i], Some(false))];
        i := i + 1;
      }
      assert newUsers[..i] == newUsers;
      AttachRowsCount(chatId, newUsers, 0);
    }

    /** `removeUsers`: a group admin detaches every row of the listed ids. */
    method RemoveUsers(requester: int, chatId: int, users: seq<int>, directory: set<int>) returns (code: Code)
      requires Valid()
      modifies this
      ensures Valid()
      ensures code == (var gate := AdminGate(old(chats), old(members), chatId, requester);
                       if gate != Ok then gate
                       else if ValidUserList(users, directory) then Ok
                       else Invalid)
      ensures members == if code == Ok then Detach(old(members), chatId, set u | u in users) else old(members)
      ensures chats == old(chats) && messages == old(messages)
      ensures nextChatId == old(nextChatId) && nextMessageId == old(nextMessageId)
    {
      code := AdminGate(chats, members, chatId, requester);
      if code != Ok {
        return;
      }
      if !ValidUserList(users, directory) {
        return Invalid;
      }
      members := Detach(members, chatId, set u | u in users);
    }

    /** `markAsRead`: a member's own last-read time moves to `now`. */
    method MarkAsRead(requester: int, chatId: int, now: int) returns (code: Code)
      requires Valid()
      modifies this
      ensures Valid()
      ensures code == MemberGate(old(chats), old(members), chatId, requester)
      ensures members == if code == Ok then MarkRead(old(members), chatId, requester, now) else old(members)
      ensures chats == old(chats) && messages == old(messages)
      ensures nextChatId == old(nextChatId) && nextMessageId == old(nextMessageId)
    {
      code := MemberGate(chats, members, chatId, requester);
      if code == Ok {
        members := MarkRead(members, chatId, requester, now);
      }
    }
  }
}
