/** Concrete request sequences against the two stores, with the answers the
    model gives. Users 1, 2 and 3 stand for A, B and C. */
module Scenarios {
  import opened Common
  import opened Chats
  import opened Messages
  import opened ChatController
  import opened Statuses
  import opened StatusPrivacy
  import opened StatusController

  /** A creates the group chat "Team" with [A, B] and says "hi"; B reads it on
      page 1; C, who is no admin, cannot remove B; A can, and B is gone. */
  method TeamChat() returns (firstPage: seq<MessageRow>, byOutsider: Code, byAdmin: Code, bStays: bool)
    ensures |firstPage| == 1 && firstPage[0].userId == 1 && firstPage[0].content == Some("hi")
    ensures byOutsider == Unauthorized
    ensures byAdmin == Ok && !bStays
  {
    var store := new ChatStore();
    var chatId := CreateTeam(store);
    firstPage := SayHi(store, chatId);
    byOutsider, byAdmin, bStays := RemoveB(store, chatId);
  }

  /** The team's two rows: A as admin, B as a plain member. */
  function TeamRows(chatId: int, readByA: Option<int>): seq<MemberRow>
  {
    [MemberRow(chatId, 1, true, readByA), MemberRow(chatId, 2, false, None)]
  }

  method CreateTeam(store: ChatStore) returns (chatId: int)
    requires store.Valid() && store.members == [] && store.messages == []
    modifies store
    ensures store.Valid() && store.members == TeamRows(chatId, None) && store.messages == []
    ensures chatId in store.chats && IsGroupChat(store.chats[chatId])
  {
    assert ValidChatRequest("group", Some("Team"), [1, 2], {1, 2, 3});
    var created, chat := store.Store(1, "group", Some("Team"), [1, 2], {1, 2, 3});
    chatId := chat.value.id;
    assert Filter(NotUser(1), [1, 2]) == [2];
  }

  method SayHi(store: ChatStore, chatId: int) returns (firstPage: seq<MessageRow>)
    requires store.Valid() && store.members == TeamRows(chatId, None) && store.messages == []
    requires chatId in store.chats && IsGroupChat(store.chats[chatId])
    modifies store
    ensures store.Valid() && store.members == TeamRows(chatId, Some(100))
    ensures chatId in store.chats && IsGroupChat(store.chats[chatId])
    ensures |firstPage| == 1 && firstPage[0].userId == 1 && firstPage[0].content == Some("hi")
  {
    assert MemberGate(store.chats, store.members, chatId, 1) == Ok by {
      assert store.members[0] in store.members;
    }
    assert ValidMessageRequest(Some("hi"), "text", None);
    var sent, m := store.SendMessage(1, chatId, 100, Some("hi"), "text", None);
    assert store.messages == [m.value];
    TeamAfterSend(chatId);
    assert MemberGate(store.chats, store.members, chatId, 2) == Ok by {
      assert store.members[1] in store.members;
    }
    var code;
    code, firstPage := store.Messages(2, chatId, 1);
    OneMessagePage(m.value, chatId);
  }

  /** A chat holding one message shows it alone on page 1. */
  lemma OneMessagePage(m: MessageRow, chatId: int)
    requires m.chatId == chatId
    ensures Page(NewestFirst(ChatMessages([m], chatId)), 1) == [m]
  {
    FilterSingleton(OfChat(chatId), m);
    assert NewestFirst([m]) == [m];
  }

  method RemoveB(store: ChatStore, chatId: int) returns (byOutsider: Code, byAdmin: Code, bStays: bool)
    requires store.Valid() && store.members == TeamRows(chatId, Some(100))
    requires chatId in store.chats && IsGroupChat(store.chats[chatId])
    modifies store
    ensures byOutsider == Unauthorized
    ensures byAdmin == Ok && !bStays
  {
    var rows := store.members;
    assert !IsAdmin(rows, chatId, 3);
    byOutsider := store.RemoveUsers(3, chatId, [2], {1, 2, 3});
    assert IsAdmin(rows, chatId, 1) by {
      assert rows[0] in rows;
    }
    byAdmin := store.RemoveUsers(1, chatId, [2], {1, 2, 3});
    assert (set u | u in [2]) == {2};
    DetachRemovesExactlyListed(rows, chatId, {2});
    bStays := IsMember(store.members, chatId, 2);
  }

  /** Sending moves A's last-read time and leaves B's row alone. */
  lemma TeamAfterSend(chatId: int)
    ensures MarkRead(TeamRows(chatId, None), chatId, 1, 100) == TeamRows(chatId, Some(100))
  {
  }

  /** A's status is hidden from B by `except [B]`; C sees it and is recorded
      as a viewer; once A switches to `all`, B sees it too. */
  method ExceptThenAll() returns (byC: Code, byB: Code, byBAfter: Code, viewsOfC: nat)
    ensures byC == Ok && viewsOfC == 1
    ensures byB == Unauthorized
    ensures byBAfter == Ok
  {
    var store := new StatusStore();
    var status := PostHello(store, "except", Some([2]));
    ExceptOutcomes(status);
    byC, viewsOfC, byB := CThenB(store, status);
    byBAfter := BAfterAll(store, status);
  }

  method CThenB(store: StatusStore, status: StatusRow) returns (byC: Code, viewsOfC: nat, byB: Code)
    requires store.Valid() && store.statuses == [status] && store.privacy == [RequestedPrivacy(1, "except", Some([2]))]
    requires store.viewers == []
    requires ShowOutcome([status], [RequestedPrivacy(1, "except", Some([2]))], status.id, 3, 1100) == Ok
    requires ShowOutcome([status], [RequestedPrivacy(1, "except", Some([2]))], status.id, 2, 1200) == Unauthorized
    modifies store
    ensures store.Valid() && store.statuses == [status] && store.privacy == old(store.privacy)
    ensures byC == Ok && viewsOfC == 1 && byB == Unauthorized
  {
    var seen;
    byC, seen := store.Show(3, status.id, 1100);
    assert store.viewers == [ViewerRow(status.id, 3, 1100)];
    FilterSingleton(ViewOf(status.id, 3), ViewerRow(status.id, 3, 1100));
    viewsOfC := |Filter(ViewOf(status.id, 3), store.viewers)|;
    byB, seen := store.Show(2, status.id, 1200);
  }

  method BAfterAll(store: StatusStore, status: StatusRow) returns (byBAfter: Code)
    requires store.Valid() && store.statuses == [status] && store.privacy == [RequestedPrivacy(1, "except", Some([2]))]
    requires ShowOutcome([status], [RequestedPrivacy(1, "all", None)], status.id, 2, 1300) == Ok
    requires status.userId == 1
    modifies store
    ensures byBAfter == Ok
  {
    var updated := store.UpdatePrivacy(1, "all", None, {1, 2, 3});
    assert store.privacy == [RequestedPrivacy(1, "all", None)];
    var seen;
    byBAfter, seen := store.Show(2, status.id, 1300);
  }

  /** A posts the text status "hello" at time 1000 into an empty store. */
  method PostHello(store: StatusStore, privacyType: string, selectedUsers: Option<seq<int>>) returns (status: StatusRow)
    requires store.Valid() && store.statuses == [] && store.privacy == [] && store.viewers == []
    requires ValidPrivacyRequest(privacyType, selectedUsers, {1, 2, 3})
    modifies store
    ensures store.Valid()
    ensures store.statuses == [status] && store.privacy == [RequestedPrivacy(1, privacyType, selectedUsers)]
    ensures store.viewers == []
    ensures status.userId == 1 && status.expiresAt == 1000 + STATUS_LIFETIME
  {
    var created, posted := store.Store(1, 1000, "text", Some("hello"), None, privacyType, selectedUsers, {1, 2, 3});
    status := posted.value;
  }

  /** The three answers of `show` in the scenario, on the tables it builds. */
  lemma ExceptOutcomes(s: StatusRow)
    requires s.userId == 1 && s.expiresAt == 1000 + STATUS_LIFETIME
    ensures ShowOutcome([s], [RequestedPrivacy(1, "except", Some([2]))], s.id, 3, 1100) == Ok
    ensures ShowOutcome([s], [RequestedPrivacy(1, "except", Some([2]))], s.id, 2, 1200) == Unauthorized
    ensures ShowOutcome([s], [RequestedPrivacy(1, "all", None)], s.id, 2, 1300) == Ok
  {
  }

  /** One second after its 24 hours, a status answers 410 to a viewer the
      privacy admits, and the listing omits it. */
  method ExpiredStatus() returns (shown: Code, listed: seq<StatusRow>)
    ensures shown == Gone
    ensures listed == []
  {
    var store := new StatusStore();
    var status := PostHello(store, "all", None);
    var later := 1000 + STATUS_LIFETIME + 1;
    listed := Index(store.statuses, store.privacy, 2, later);
    assert status !in listed;
    var seen;
    shown, seen := store.Show(2, status.id, later);
  }
}
