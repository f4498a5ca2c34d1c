/** The status actions of app/Http/Controllers/StatusController.php, as
    operations on an in-memory store holding the `statuses`, `status_privacy`
    and `status_viewers` tables. The requester's id, the clock and the user
    directory that the `exists:users,id` rule consults are parameters; the
    file store is reduced to the paths it is asked to delete. */
module StatusController {
  import opened Common
  import opened StatusPrivacy
  import opened Statuses

  // ---------------------------------------------------------------------------
  // Validation rules, as predicates over the request fields

  /** The privacy rules shared by `store` and `updatePrivacy`: one of the three
      types; a non-empty list for `selected` and `except` (Laravel's `required`
      rejects an empty array); every listed id an existing user. */
  predicate ValidPrivacyRequest(privacyType: string, selectedUsers: Option<seq<int>>, directory: set<int>)
  {
    && privacyType in PRIVACY_TYPES
    && (privacyType != "all" ==> selectedUsers.Some? && |selectedUsers.value| >= 1)
    && (selectedUsers.Some? ==> forall u :: u in selectedUsers.value ==> u in directory)
  }

  /** The rules of `store`: one of the three types; non-blank content or media; content
      of at most 500 characters; media for `image` and `video`; valid privacy
      fields. The media file's size limit is not modelled. */
  predicate ValidStatusRequest(statusType: string, content: Option<string>, media: Option<string>,
                               privacyType: string, selectedUsers: Option<seq<int>>, directory: set<int>)
  {
    && statusType in STATUS_TYPES
    && (Given(content) || media.Some?)
    && (content.Some? ==> |content.value| <= 500)
    && (statusType == "image" || statusType == "video" ==> media.Some?)
    && ValidPrivacyRequest(privacyType, selectedUsers, directory)
  }

  /** `required_without:media` rejects blank content as it rejects missing
      content: a status with neither media nor non-blank text fails
      validation. */
  lemma BlankStatusIsMissing(statusType: string, content: string, privacyType: string,
                             selectedUsers: Option<seq<int>>, directory: set<int>)
    requires Blank(content)
    ensures !ValidStatusRequest(statusType, Some(content), None, privacyType, selectedUsers, directory)
    ensures !ValidStatusRequest(statusType, None, None, privacyType, selectedUsers, directory)
  {
  }

  /** The row `updateOrCreate` writes: a missing list is stored as `[]`. */
  function RequestedPrivacy(userId: int, privacyType: string, selectedUsers: Option<seq<int>>): PrivacyRow
  {
    PrivacyRow(userId, privacyType, Some(selectedUsers.GetOr([])))
  }

  // ---------------------------------------------------------------------------
  // The privacy table

  /** No author owns two privacy rows. */
  predicate UniqueAuthors(privacy: seq<PrivacyRow>)
  {
    forall i, j :: 0 <= i < j < |privacy| ==> privacy[i].userId != privacy[j].userId
  }

  /** `updateOrCreate(['user_id' => u], ...)`: the first row of the author is
      replaced; without one the row is appended. */
  function Upsert(privacy: seq<PrivacyRow>, row: PrivacyRow): seq<PrivacyRow>
  {
    if privacy == [] then [row]
    else if privacy[0].userId == row.userId then [row] + privacy[1..]
    else [privacy[0]] + Upsert(privacy[1..], row)
  }

  /** The upsert writes only the new row, and afterwards the author owns a
      row. */
  lemma {:induction false} UpsertRows(privacy: seq<PrivacyRow>, row: PrivacyRow)
    ensures forall p :: p in Upsert(privacy, row) ==> p in privacy || p == row
    ensures PrivacyUsers(Upsert(privacy, row)) == PrivacyUsers(privacy) + {row.userId}
  {
    if privacy != [] {
      var tail := privacy[1..];
      assert privacy == [privacy[0]] + tail;
      PrivacyUsersCons(privacy[0], tail);
      if privacy[0].userId != row.userId {
        UpsertRows(tail, row);
        var rest := Upsert(tail, row);
        assert Upsert(privacy, row) == [privacy[0]] + rest;
        PrivacyUsersCons(privacy[0], rest);
      } else {
        assert Upsert(privacy, row) == [row] + tail;
        PrivacyUsersCons(row, tail);
      }
    }
  }

  lemma PrivacyUsersCons(p: PrivacyRow, rest: seq<PrivacyRow>)
    ensures PrivacyUsers([p] + rest) == {p.userId} + PrivacyUsers(rest)
    ensures forall q :: q in [p] + rest <==> q == p || q in rest
  {
    assert forall q :: q in [p] + rest <==> q == p || q in rest;
  }

  /** After the upsert the author's row is the new one, every other author's
      row is as before, and a row is added only for a new author. */
  lemma {:induction false} UpsertLookup(privacy: seq<PrivacyRow>, row: PrivacyRow)
    ensures PrivacyOf(Upsert(privacy, row), row.userId) == Some(row)
    ensures forall u :: u != row.userId ==> PrivacyOf(Upsert(privacy, row), u) == PrivacyOf(privacy, u)
    ensures |Upsert(privacy, row)| == if row.userId in PrivacyUsers(privacy) then |privacy| else |privacy| + 1
  {
    if privacy != [] {
      assert privacy == [privacy[0]] + privacy[1..];
      if privacy[0].userId != row.userId {
        UpsertLookup(privacy[1..], row);
        assert row.userId in PrivacyUsers(privacy) <==> row.userId in PrivacyUsers(privacy[1..]);
      }
    }
  }

  /** Upserting keeps one row per author. */
  lemma {:induction false} UpsertKeepsAuthorsUnique(privacy: seq<PrivacyRow>, row: PrivacyRow)
    requires UniqueAuthors(privacy)
    ensures UniqueAuthors(Upsert(privacy, row))
  {
    if privacy != [] {
      var tail := privacy[1..];
      assert UniqueAuthors(tail);
      assert privacy[0].userId !in PrivacyUsers(tail) by {
        forall p | p in tail ensures p.userId != privacy[0].userId {
          var k :| 0 <= k < |tail| && tail[k] == p;
          assert privacy[k + 1] == p;
        }
      }
      if privacy[0].userId != row.userId {
        UpsertKeepsAuthorsUnique(tail, row);
        UpsertRows(tail, row);
        var r := Upsert(privacy, row);
        var rest := Upsert(tail, row);
        assert r == [privacy[0]] + rest;
        forall i, j | 0 <= i < j < |r| ensures r[i].userId != r[j].userId {
          if i == 0 {
            assert r[j] == rest[j - 1];
            assert rest[j - 1] in rest;
            assert r[j].userId in PrivacyUsers(rest);
          }
        }
      } else {
        var r := Upsert(privacy, row);
        forall i, j | 0 <= i < j < |r| ensures r[i].userId != r[j].userId {
          if i == 0 {
            assert r[j] == tail[j - 1];
            assert tail[j - 1] in tail;
          }
        }
      }
    }
  }

  /** A privacy update governs every status of the author, created before
      or after it: `show` decides by the new row alone. */
  lemma {:induction false} UpsertGovernsShow(statuses: seq<StatusRow>, privacy: seq<PrivacyRow>, row: PrivacyRow,
                                             s: StatusRow, viewer: int, now: int)
    requires FindStatus(statuses, s.id) == Some(s) && s.userId == row.userId
    ensures ShowOutcome(statuses, Upsert(privacy, row), s.id, viewer, now) ==
      if !Admits(row, viewer) then Unauthorized else if HasExpired(s, now) then Gone else Ok
  {
    UpsertLookup(privacy, row);
  }

  /** With one row per author, any row of the author is the one found. */
  lemma {:induction false} PrivacyOfUnique(privacy: seq<PrivacyRow>, p: PrivacyRow)
    requires UniqueAuthors(privacy) && p in privacy
    ensures PrivacyOf(privacy, p.userId) == Some(p)
  {
    if privacy[0] != p {
      assert p in privacy[1..];
      assert privacy[0].userId != p.userId;
      PrivacyOfUnique(privacy[1..], p);
    }
  }

  // ---------------------------------------------------------------------------
  // The view table

  /** The recording as `show` writes it,
      `firstOrCreate(['status_id', 'user_id', 'viewed_at' => now])`: the
      lookup key is the whole triple, so a row is added unless that exact
      triple is already present. */
  function FirstOrCreate(viewers: seq<ViewerRow>, row: ViewerRow): (r: seq<ViewerRow>)
    ensures row in r
    ensures forall v :: v in r <==> v in viewers || v == row
    ensures |viewers| <= |r| <= |viewers| + 1 && r[..|viewers|] == viewers
    ensures multiset(r)[row] == if row in viewers then multiset(viewers)[row] else 1
  {
    if row in viewers then viewers else viewers + [row]
  }

  /** No view row occurs twice. */
  ghost predicate DistinctViews(viewers: seq<ViewerRow>)
  {
    Pairwise((a: ViewerRow, b: ViewerRow) => a != b, viewers)
  }

  /** `firstOrCreate` never duplicates a row. */
  lemma FirstOrCreateKeepsDistinct(viewers: seq<ViewerRow>, row: ViewerRow)
    requires DistinctViews(viewers)
    ensures DistinctViews(FirstOrCreate(viewers, row))
  {
    var r := FirstOrCreate(viewers, row);
    forall i, j | 0 <= i < j < |r| ensures r[i] != r[j] {
      assert r[i] == viewers[i];
      if j < |viewers| {
        assert r[j] == viewers[j];
      }
    }
  }

  /** Recording the same triple twice records it once. */
  lemma FirstOrCreateIdempotent(viewers: seq<ViewerRow>, row: ViewerRow)
    ensures FirstOrCreate(FirstOrCreate(viewers, row), row) == FirstOrCreate(viewers, row)
  {
  }

  function ViewOf(statusId: int, userId: int): ViewerRow -> bool
  {
    (v: ViewerRow) => v.statusId == statusId && v.userId == userId
  }

  /** Because the lookup key includes `viewed_at`, a second view of the same
      status by the same user at another instant
      adds a second row for that pair: the first view does not win. */
  lemma {:induction false} LaterViewAddsSecondRow(viewers: seq<ViewerRow>, statusId: int, userId: int, t1: int, t2: int)
    requires t1 != t2
    ensures var once := FirstOrCreate(viewers, ViewerRow(statusId, userId, t1));
            var twice := FirstOrCreate(once, ViewerRow(statusId, userId, t2));
            |Filter(ViewOf(statusId, userId), twice)| >= 2
  {
    var a := ViewerRow(statusId, userId, t1);
    var b := ViewerRow(statusId, userId, t2);
    var twice := FirstOrCreate(FirstOrCreate(viewers, a), b);
    var both := Filter(ViewOf(statusId, userId), twice);
    assert a in both && b in both;
  }

  /** Two view rows of one viewer for one status. */
  predicate SamePair(a: ViewerRow, b: ViewerRow)
  {
    a.statusId == b.statusId && a.userId == b.userId
  }

  /** At most one view row per (status, viewer) pair. */
  ghost predicate UniqueViews(viewers: seq<ViewerRow>)
  {
    Pairwise((a: ViewerRow, b: ViewerRow) => !SamePair(a, b), viewers)
  }

  /** The first view row of the pair, if any. */
  function FirstViewOf(viewers: seq<ViewerRow>, statusId: int, userId: int): (r: Option<ViewerRow>)
    ensures r.Some? ==> r.value in viewers && r.value.statusId == statusId && r.value.userId == userId
    ensures r.None? <==> forall v :: v in viewers ==> !(v.statusId == statusId && v.userId == userId)
  {
    if viewers == [] then None
    else if viewers[0].statusId == statusId && viewers[0].userId == userId then Some(viewers[0])
    else
      assert viewers == [viewers[0]] + viewers[1..];
      FirstViewOf(viewers[1..], statusId, userId)
  }

  /** The recording the comment in `show` describes, keyed on the pair with
      `viewed_at` as a value (`firstOrCreate([status, user], [viewed_at])`):
      a view row is added only for a pair not yet present. */
  function RecordFirstView(viewers: seq<ViewerRow>, statusId: int, userId: int, now: int): (r: seq<ViewerRow>)
    ensures forall v :: v in r <==> v in viewers || (v == ViewerRow(statusId, userId, now) && FirstViewOf(viewers, statusId, userId).None?)
    ensures |viewers| <= |r| <= |viewers| + 1 && r[..|viewers|] == viewers
  {
    if FirstViewOf(viewers, statusId, userId).Some? then viewers else viewers + [ViewerRow(statusId, userId, now)]
  }

  /** First view wins: the pair's row carries the time of its first view, and
      any later view, at whatever instant, changes nothing. */
  lemma {:induction false} FirstViewWins(viewers: seq<ViewerRow>, statusId: int, userId: int, t1: int, t2: int)
    ensures var once := RecordFirstView(viewers, statusId, userId, t1);
      && RecordFirstView(once, statusId, userId, t2) == once
      && FirstViewOf(once, statusId, userId) ==
         if FirstViewOf(viewers, statusId, userId).Some? then FirstViewOf(viewers, statusId, userId)
         else Some(ViewerRow(statusId, userId, t1))
  {
    if FirstViewOf(viewers, statusId, userId).None? {
      FirstViewOfAppend(viewers, ViewerRow(statusId, userId, t1), statusId, userId);
    }
  }

  lemma {:induction false} FirstViewOfAppend(viewers: seq<ViewerRow>, row: ViewerRow, statusId: int, userId: int)
    requires FirstViewOf(viewers, statusId, userId).None?
    ensures FirstViewOf(viewers + [row], statusId, userId) == FirstViewOf([row], statusId, userId)
  {
    if viewers != [] {
      assert (viewers + [row])[1..] == viewers[1..] + [row];
      FirstViewOfAppend(viewers[1..], row, statusId, userId);
    }
  }

  /** Recording keeps one row per pair, and afterwards the pair has exactly
      one row. */
  lemma {:induction false} ViewRecordedOnce(viewers: seq<ViewerRow>, statusId: int, userId: int, now: int)
    requires UniqueViews(viewers)
    ensures UniqueViews(RecordFirstView(viewers, statusId, userId, now))
    ensures |Filter(ViewOf(statusId, userId), RecordFirstView(viewers, statusId, userId, now))| == 1
  {
    var r := RecordFirstView(viewers, statusId, userId, now);
    if FirstViewOf(viewers, statusId, userId).None? {
      forall i, j | 0 <= i < j < |r| ensures !SamePair(r[i], r[j]) {
        if j == |viewers| {
          assert r[i] in viewers;
        } else {
          assert r[i] == viewers[i] && r[j] == viewers[j];
        }
      }
    }
    AtMostOneRowPerPair(r, statusId, userId);
    assert FirstViewOf(r, statusId, userId).Some?;
  }

  lemma {:induction false} AtMostOneRowPerPair(viewers: seq<ViewerRow>, statusId: int, userId: int)
    requires UniqueViews(viewers)
    ensures |Filter(ViewOf(statusId, userId), viewers)| <= 1
  {
    if viewers != [] {
      var tail := viewers[1..];
      assert UniqueViews(tail) by {
        forall i, j | 0 <= i < j < |tail| ensures !SamePair(tail[i], tail[j]) {
          assert tail[i] == viewers[i + 1] && tail[j] == viewers[j + 1];
        }
      }
      if ViewOf(statusId, userId)(viewers[0]) {
        forall v | v in tail ensures !ViewOf(statusId, userId)(v) {
          var k :| 0 <= k < |tail| && tail[k] == v;
          assert viewers[k + 1] == v;
        }
        FilterDropsAll(ViewOf(statusId, userId), tail);
      } else {
        AtMostOneRowPerPair(tail, statusId, userId);
      }
    }
  }

  // ---------------------------------------------------------------------------
  // Finding a status, and the decision of `show`

  function StatusIds(statuses: seq<StatusRow>): set<int>
  {
    set s | s in statuses :: s.id
  }

  /** Route model binding: the first status with the id. */
  function FindStatus(statuses: seq<StatusRow>, id: int): (r: Option<StatusRow>)
    ensures r.Some? ==> r.value in statuses && r.value.id == id
    ensures r.None? <==> id !in StatusIds(statuses)
  {
    if statuses == [] then None
    else if statuses[0].id == id then Some(statuses[0])
    else
      assert statuses == [statuses[0]] + statuses[1..];
      FindStatus(statuses[1..], id)
  }

  /** No two statuses share an id. */
  ghost predicate UniqueIds(statuses: seq<StatusRow>)
  {
    Pairwise((a: StatusRow, b: StatusRow) => a.id != b.id, statuses)
  }

  /** A status whose id exceeds every id in the table keeps the ids unique. */
  lemma AppendFreshId(statuses: seq<StatusRow>, s: StatusRow)
    requires UniqueIds(statuses) && forall t :: t in statuses ==> t.id < s.id
    ensures UniqueIds(statuses + [s])
  {
    var r := statuses + [s];
    forall i, j | 0 <= i < j < |r| ensures r[i].id != r[j].id {
      assert r[i] == statuses[i];
      if j < |statuses| {
        assert r[j] == statuses[j];
      }
    }
  }

  lemma {:induction false} FindStatusUnique(statuses: seq<StatusRow>, s: StatusRow)
    requires UniqueIds(statuses) && s in statuses
    ensures FindStatus(statuses, s.id) == Some(s)
  {
    if statuses[0] != s {
      assert s in statuses[1..];
      assert statuses[0].id != s.id;
      FindStatusUnique(statuses[1..], s);
    }
  }

  /** The answer of `show`: the status must exist; the author's privacy row
      is consulted first (a missing row makes the call on null fail), then
      expiry. */
  function ShowOutcome(statuses: seq<StatusRow>, privacy: seq<PrivacyRow>, statusId: int, viewer: int, now: int): Code
  {
    match FindStatus(statuses, statusId)
    case None => NotFound
    case Some(s) =>
      match Privacy(privacy, s)
      case None => ServerError
      case Some(p) =>
        if !Admits(p, viewer) then Unauthorized
        else if HasExpired(s, now) then Gone
        else Ok
  }

  /** Privacy is checked before expiry: a denied viewer gets 403 at every
      instant, an admitted viewer gets 410 once the status is past, and 200
      before. */
  lemma ShowChecksPrivacyFirst(statuses: seq<StatusRow>, privacy: seq<PrivacyRow>, s: StatusRow, p: PrivacyRow, viewer: int, now: int)
    requires FindStatus(statuses, s.id) == Some(s) && Privacy(privacy, s) == Some(p)
    ensures !Admits(p, viewer) ==> ShowOutcome(statuses, privacy, s.id, viewer, now) == Unauthorized
    ensures Admits(p, viewer) && HasExpired(s, now) ==> ShowOutcome(statuses, privacy, s.id, viewer, now) == Gone
    ensures Admits(p, viewer) && !HasExpired(s, now) ==> ShowOutcome(statuses, privacy, s.id, viewer, now) == Ok
  {
  }

  // ---------------------------------------------------------------------------
  // The queries `index` and `myStatuses`

  /** `whereHas('privacy', ...)`: some privacy row of the author passes the
      listing's query. */
  predicate AuthorAdmits(privacy: seq<PrivacyRow>, author: int, viewer: int)
  {
    exists p :: p in privacy && p.userId == author && ListingAdmits(p, viewer)
  }

  function IsListed(privacy: seq<PrivacyRow>, viewer: int, now: int): StatusRow -> bool
  {
    (s: StatusRow) => s.expiresAt > now && AuthorAdmits(privacy, s.userId, viewer)
  }

  /** `index`: the statuses whose expiry lies after `now` and whose author's
      privacy row admits the viewer, newest first. */
  function Index(statuses: seq<StatusRow>, privacy: seq<PrivacyRow>, viewer: int, now: int): (r: seq<StatusRow>)
    ensures forall s :: s in r <==> s in statuses && s.expiresAt > now && AuthorAdmits(privacy, s.userId, viewer)
  {
    var listed := Filter(IsListed(privacy, viewer, now), statuses);
    NewestFirst(listed)
  }

  function ByAuthor(userId: int): StatusRow -> bool
  {
    (s: StatusRow) => s.userId == userId
  }

  /** `myStatuses`: every status of the user, live or expired, newest first. */
  function MyStatuses(statuses: seq<StatusRow>, userId: int): (r: seq<StatusRow>)
    ensures forall s :: s in r <==> s in statuses && s.userId == userId
  {
    var mine := Filter(ByAuthor(userId), statuses);
    NewestFirst(mine)
  }

  /** Row for row, `myStatuses` holds each of the user's statuses as often as
      the table does. */
  lemma {:induction false} MyStatusesComplete(statuses: seq<StatusRow>, userId: int, s: StatusRow)
    requires s.userId == userId
    ensures multiset(MyStatuses(statuses, userId))[s] == multiset(statuses)[s]
  {
    FilterCount(ByAuthor(userId), statuses, s);
  }

  /** With the rule's own preconditions (one row per author, enum types,
      non-null lists) the listing and `show` agree, except at the instant the
      status expires, which `show` still serves and `index` already omits. */
  lemma {:induction false} IndexAgreesWithShow(statuses: seq<StatusRow>, privacy: seq<PrivacyRow>, s: StatusRow, viewer: int, now: int)
    requires UniqueIds(statuses) && s in statuses
    requires UniqueAuthors(privacy)
    requires forall p :: p in privacy ==> p.privacyType in PRIVACY_TYPES && p.selectedUsers.Some?
    ensures s in Index(statuses, privacy, viewer, now) ==> ShowOutcome(statuses, privacy, s.id, viewer, now) == Ok
    ensures ShowOutcome(statuses, privacy, s.id, viewer, now) == Ok && s.expiresAt != now ==>
      s in Index(statuses, privacy, viewer, now)
  {
    FindStatusUnique(statuses, s);
    AuthorAdmitsByRule(privacy, s.userId, viewer);
  }

  /** With one well-formed row per author, the listing's `whereHas` admits
      exactly when the author's row exists and the rule admits. */
  lemma AuthorAdmitsByRule(privacy: seq<PrivacyRow>, author: int, viewer: int)
    requires UniqueAuthors(privacy)
    requires forall p :: p in privacy ==> p.privacyType in PRIVACY_TYPES && p.selectedUsers.Some?
    ensures AuthorAdmits(privacy, author, viewer) <==>
      PrivacyOf(privacy, author).Some? && Admits(PrivacyOf(privacy, author).value, viewer)
  {
    if AuthorAdmits(privacy, author, viewer) {
      var q :| q in privacy && q.userId == author && ListingAdmits(q, viewer);
      PrivacyOfUnique(privacy, q);
      ListingAgreesWithRule(q, viewer);
    }
    if PrivacyOf(privacy, author).Some? {
      ListingAgreesWithRule(PrivacyOf(privacy, author).value, viewer);
    }
  }

  /** The boundary instant: at `now == expires_at` the status is not past, so
      `show` serves it, while `index` requires `expires_at > now`. */
  lemma AtExpiryShownButNotListed(statuses: seq<StatusRow>, privacy: seq<PrivacyRow>, s: StatusRow, p: PrivacyRow, viewer: int)
    requires FindStatus(statuses, s.id) == Some(s) && Privacy(privacy, s) == Some(p) && Admits(p, viewer)
    ensures ShowOutcome(statuses, privacy, s.id, viewer, s.expiresAt) == Ok
    ensures s !in Index(statuses, privacy, viewer, s.expiresAt)
  {
  }

  /** An author without a privacy row is never listed, while `show` fails. */
  lemma NoPrivacyRowNeverListed(statuses: seq<StatusRow>, privacy: seq<PrivacyRow>, s: StatusRow, viewer: int, now: int)
    requires FindStatus(statuses, s.id) == Some(s) && s.userId !in PrivacyUsers(privacy)
    ensures s !in Index(statuses, privacy, viewer, now)
    ensures ShowOutcome(statuses, privacy, s.id, viewer, now) == ServerError
  {
  }

  /** Rows in order of creation time. */
  ghost predicate Chronological(statuses: seq<StatusRow>)
  {
    Pairwise((a: StatusRow, b: StatusRow) => a.createdAt <= b.createdAt, statuses)
  }

  /** Over rows created in clock order, both listings are sorted newest first. */
  lemma {:induction false} ListingsNewestFirst(statuses: seq<StatusRow>, privacy: seq<PrivacyRow>, viewer: int, now: int, userId: int)
    requires Chronological(statuses)
    ensures var r := Index(statuses, privacy, viewer, now);
      forall i, j :: 0 <= i < j < |r| ==> r[i].createdAt >= r[j].createdAt
    ensures var r := MyStatuses(statuses, userId);
      forall i, j :: 0 <= i < j < |r| ==> r[i].createdAt >= r[j].createdAt
  {
    FilterPairwise(IsListed(privacy, viewer, now), (a: StatusRow, b: StatusRow) => a.createdAt <= b.createdAt, statuses);
    FilterPairwise(ByAuthor(userId), (a: StatusRow, b: StatusRow) => a.createdAt <= b.createdAt, statuses);
  }

  // ---------------------------------------------------------------------------
  // Deleting a status

  function NotStatus(statusId: int): StatusRow -> bool
  {
    (s: StatusRow) => s.id != statusId
  }

  function NotOfStatus(statusId: int): ViewerRow -> bool
  {
    (v: ViewerRow) => v.statusId != statusId
  }

  /** `$status->delete()`. */
  function RemoveStatus(statuses: seq<StatusRow>, statusId: int): seq<StatusRow>
  {
    Filter(NotStatus(statusId), statuses)
  }

  /** The `onDelete('cascade')` of `status_viewers.status_id`. */
  function Cascade(viewers: seq<ViewerRow>, statusId: int): seq<ViewerRow>
  {
    Filter(NotOfStatus(statusId), viewers)
  }

  /** The files `destroy` asks the public disk to delete: the media path,
      when `hasMedia` holds, i.e. for `image` and `video` only. */
  function MediaToDelete(s: StatusRow): seq<string>
  {
    if HasMedia(s) && s.mediaUrl.Some? then [s.mediaUrl.value] else []
  }

  /** A text status that carries media keeps its file on deletion. */
  lemma TextStatusKeepsMedia(s: StatusRow)
    requires s.statusType == "text"
    ensures MediaToDelete(s) == []
  {
  }

  /** The answer of `destroy`: the status must exist and be the requester's. */
  function DestroyOutcome(statuses: seq<StatusRow>, statusId: int, requester: int): Code
  {
    match FindStatus(statuses, statusId)
    case None => NotFound
    case Some(s) => if s.userId != requester then Unauthorized else Ok
  }

  /** Deleting a status removes it; every other status is found as before. */
  lemma {:induction false} RemoveKeepsOthers(statuses: seq<StatusRow>, statusId: int, other: int)
    ensures FindStatus(RemoveStatus(statuses, statusId), statusId) == None
    ensures other != statusId ==> FindStatus(RemoveStatus(statuses, statusId), other) == FindStatus(statuses, other)
  {
    if statuses != [] {
      RemoveKeepsOthers(statuses[1..], statusId, other);
      var r := RemoveStatus(statuses, statusId);
      if statuses[0].id != statusId {
        assert r == [statuses[0]] + RemoveStatus(statuses[1..], statusId);
        assert r[1..] == RemoveStatus(statuses[1..], statusId);
      } else {
        assert r == RemoveStatus(statuses[1..], statusId);
      }
    }
  }

  /** The cascade removes the views of the deleted status and leaves the
      views of every other status as they were. */
  lemma {:induction false} CascadeKeepsOthers(viewers: seq<ViewerRow>, statusId: int, other: int)
    ensures Viewers(Cascade(viewers, statusId), statusId) == []
    ensures other != statusId ==> Viewers(Cascade(viewers, statusId), other) == Viewers(viewers, other)
  {
    if viewers != [] {
      CascadeKeepsOthers(viewers[1..], statusId, other);
      var c := Cascade(viewers, statusId);
      if viewers[0].statusId != statusId {
        assert c == [viewers[0]] + Cascade(viewers[1..], statusId);
        assert c[1..] == Cascade(viewers[1..], statusId);
      } else {
        assert c == Cascade(viewers[1..], statusId);
      }
    }
  }

  // ---------------------------------------------------------------------------
  // The store

  /** Status ids are unique and below the next id; a media status has a path. */
  ghost predicate ValidStatuses(statuses: seq<StatusRow>, nextStatusId: int)
  {
    && UniqueIds(statuses)
    && (forall s :: s in statuses ==> s.id < nextStatusId)
    && (forall s :: s in statuses && HasMedia(s) ==> s.mediaUrl.Some?)
  }

  /** One privacy row per author, each with an enum type and a non-null list. */
  ghost predicate ValidPrivacy(privacy: seq<PrivacyRow>)
  {
    && UniqueAuthors(privacy)
    && (forall p :: p in privacy ==> p.privacyType in PRIVACY_TYPES && p.selectedUsers.Some?)
  }

  /** Every view belongs to an existing status; no view row occurs twice. */
  ghost predicate ValidViews(viewers: seq<ViewerRow>, statuses: seq<StatusRow>)
  {
    && (forall v :: v in viewers ==> v.statusId in StatusIds(statuses))
    && DistinctViews(viewers)
  }

  lemma InsertKeepsStatusesValid(statuses: seq<StatusRow>, nextStatusId: int, s: StatusRow)
    requires ValidStatuses(statuses, nextStatusId)
    requires s.id == nextStatusId && (HasMedia(s) ==> s.mediaUrl.Some?)
    ensures ValidStatuses(statuses + [s], nextStatusId + 1)
  {
    AppendFreshId(statuses, s);
  }

  lemma {:induction false} UpsertKeepsPrivacyValid(privacy: seq<PrivacyRow>, row: PrivacyRow)
    requires ValidPrivacy(privacy)
    requires row.privacyType in PRIVACY_TYPES && row.selectedUsers.Some?
    ensures ValidPrivacy(Upsert(privacy, row))
    ensures PrivacyUsers(Upsert(privacy, row)) == PrivacyUsers(privacy) + {row.userId}
  {
    UpsertKeepsAuthorsUnique(privacy, row);
    UpsertRows(privacy, row);
  }

  lemma InsertKeepsViewsValid(viewers: seq<ViewerRow>, statuses: seq<StatusRow>, s: StatusRow)
    requires ValidViews(viewers, statuses)
    ensures ValidViews(viewers, statuses + [s])
  {
    assert StatusIds(statuses) <= StatusIds(statuses + [s]);
  }

  class StatusStore {
    var statuses: seq<StatusRow>
    var privacy: seq<PrivacyRow>
    var viewers: seq<ViewerRow>
    var nextStatusId: int
    /** The paths `destroy` has asked the public disk to delete. */
    var deletedMedia: seq<string>

    /** Status ids are unique and below the next id; a media status has a
        path; one privacy row per author, each with an enum type and a
        non-null list; every view belongs to an existing status. */
    ghost predicate Valid()
      reads this
    {
      && ValidStatuses(statuses, nextStatusId)
      && ValidPrivacy(privacy)
      && ValidViews(viewers, statuses)
    }

    /** Every author of a status has a privacy row, so `show` never reaches a
        missing one. */
    ghost predicate AuthorsCovered()
      reads this
    {
      forall s :: s in statuses ==> s.userId in PrivacyUsers(privacy)
    }

    constructor ()
      ensures Valid() && AuthorsCovered()
      ensures statuses == [] && privacy == [] && viewers == [] && deletedMedia == []
    {
      statuses, privacy, viewers, deletedMedia := [], [], [], [];
      nextStatusId := 1;
    }

    /** `store`: a valid request creates a status of the requester that
        expires 24 hours from `now`, and upserts the requester's privacy row. */
    method Store(requester: int, now: int, statusType: string, content: Option<string>, media: Option<string>,
                 privacyType: string, selectedUsers: Option<seq<int>>, directory: set<int>)
      returns (code: Code, status: Option<StatusRow>)
      requires Valid()
      modifies this
      ensures Valid()
      ensures code == if ValidStatusRequest(statusType, content, media, privacyType, selectedUsers, directory)
                      then Created else Invalid
      ensures code == Created ==>
        && status == Some(StatusRow(old(nextStatusId), requester, statusType, content, media, now + STATUS_LIFETIME, now))
        && statuses == old(statuses) + [status.value]
        && privacy == Upsert(old(privacy), RequestedPrivacy(requester, privacyType, selectedUsers))
        && Privacy(privacy, status.value) == Some(RequestedPrivacy(requester, privacyType, selectedUsers))
        && nextStatusId == old(nextStatusId) + 1
      ensures code == Invalid ==>
        status == None && statuses == old(statuses) && privacy == old(privacy) && nextStatusId == old(nextStatusId)
      ensures viewers == old(viewers) && deletedMedia == old(deletedMedia)
      ensures old(AuthorsCovered()) ==> AuthorsCovered()
    {
      if !ValidStatusRequest(statusType, content, media, privacyType, selectedUsers, directory) {
        return Invalid, None;
      }
      var s := StatusRow(nextStatusId, requester, statusType, content, media, now + STATUS_LIFETIME, now);
      var row := RequestedPrivacy(requester, privacyType, selectedUsers);
      InsertKeepsStatusesValid(statuses, nextStatusId, s);
      InsertKeepsViewsValid(viewers, statuses, s);
      UpsertKeepsPrivacyValid(privacy, row);
      UpsertLookup(privacy, row);
      statuses := statuses + [s];
      nextStatusId := nextStatusId + 1;
      privacy := Upsert(privacy, row);
      code, status := Created, Some(s);
    }

    /** `updatePrivacy`: a valid request upserts the requester's privacy row
        and touches no status; every status of the requester, old or new, is
        then governed by the new row. */
    method UpdatePrivacy(requester: int, privacyType: string, selectedUsers: Option<seq<int>>, directory: set<int>)
      returns (code: Code)
      requires Valid()
      modifies this
      ensures Valid()
      ensures code == if ValidPrivacyRequest(privacyType, selectedUsers, directory) then Ok else Invalid
      ensures privacy == if code == Ok then Upsert(old(privacy), RequestedPrivacy(requester, privacyType, selectedUsers))
                         else old(privacy)
      ensures code == Ok ==> forall s :: s in statuses && s.userId == requester ==>
        Privacy(privacy, s) == Some(RequestedPrivacy(requester, privacyType, selectedUsers))
      ensures statuses == old(statuses) && viewers == old(viewers)
      ensures nextStatusId == old(nextStatusId) && deletedMedia == old(deletedMedia)
      ensures old(AuthorsCovered()) ==> AuthorsCovered()
    {
      if !ValidPrivacyRequest(privacyType, selectedUsers, directory) {
        return Invalid;
      }
      var row := RequestedPrivacy(requester, privacyType, selectedUsers);
      UpsertKeepsPrivacyValid(privacy, row);
      UpsertLookup(privacy, row);
      privacy := Upsert(privacy, row);
      code := Ok;
    }

    /** `show`: privacy first, then expiry; an admitted view of a live status
        records the triple (status, viewer, now) unless present, as the code
        does, and returns the status's views. */
    method Show(viewer: int, statusId: int, now: int) returns (code: Code, seen: seq<ViewerRow>)
      requires Valid()
      modifies this
      ensures Valid()
      ensures code == ShowOutcome(old(statuses), old(privacy), statusId, viewer, now)
      ensures old(AuthorsCovered()) ==> code != ServerError
      ensures viewers == if code == Ok then FirstOrCreate(old(viewers), ViewerRow(statusId, viewer, now))
                         else old(viewers)
      ensures code == Ok ==> ViewerRow(statusId, viewer, now) in viewers
      ensures seen == if code == Ok then Viewers(viewers, statusId) else []
      ensures statuses == old(statuses) && privacy == old(privacy)
      ensures nextStatusId == old(nextStatusId) && deletedMedia == old(deletedMedia)
    {
      code := ShowOutcome(statuses, privacy, statusId, viewer, now);
      if code != Ok {
        return code, [];
      }
      FirstOrCreateKeepsDistinct(viewers, ViewerRow(statusId, viewer, now));
      viewers := FirstOrCreate(viewers, ViewerRow(statusId, viewer, now));
      seen := Viewers(viewers, statusId);
    }

    /** `destroy`: the owner deletes the status and, by cascade, its views,
        after asking the disk to delete its media when `hasMedia` holds. */
    method Destroy(requester: int, statusId: int) returns (code: Code)
      requires Valid()
      modifies this
      ensures Valid()
      ensures code == DestroyOutcome(old(statuses), statusId, requester)
      ensures code == Ok ==>
        && statuses == RemoveStatus(old(statuses), statusId)
        && viewers == Cascade(old(viewers), statusId)
        && deletedMedia == old(deletedMedia) + MediaToDelete(FindStatus(old(statuses), statusId).value)
      ensures code != Ok ==>
        statuses == old(statuses) && viewers == old(viewers) && deletedMedia == old(deletedMedia)
      ensures privacy == old(privacy) && nextStatusId == old(nextStatusId)
      ensures old(AuthorsCovered()) ==> AuthorsCovered()
    {
      code := DestroyOutcome(statuses, statusId, requester);
      if code != Ok {
        return;
      }
      var s := FindStatus(statuses, statusId).value;
      deletedMedia := deletedMedia + MediaToDelete(s);
      FilterPairwise(NotStatus(statusId), (a: StatusRow, b: StatusRow) => a.id != b.id, statuses);
      FilterPairwise(NotOfStatus(statusId), (a: ViewerRow, b: ViewerRow) => a != b, viewers);
      statuses := RemoveStatus(statuses, statusId);
      viewers := Cascade(viewers, statusId);
    }
  }
}
