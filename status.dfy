/** Status rows, their viewer rows and the relations of app/Models/Status.php. */
module Statuses {
  import opened Common
  import opened StatusPrivacy

  /** Seconds a status stays live: `now()->addHours(24)`. */
  const STATUS_LIFETIME: int := 24 * 60 * 60

  /** The values `type` may take (validated by the store action). */
  const STATUS_TYPES: seq<string> := ["text", "image", "video"]

  /** A `statuses` row; times are seconds on the injected clock. */
  datatype StatusRow = StatusRow(
    id: int,
    userId: int,
    statusType: string,
    content: Option<string>,
    mediaUrl: Option<string>,
    expiresAt: int,
    createdAt: int)

  /** A `status_viewers` row. */
  datatype ViewerRow = ViewerRow(statusId: int, userId: int, viewedAt: int)

  /** `hasMedia`: decided by the type alone. */
  predicate HasMedia(s: StatusRow)
  {
    s.statusType in ["image", "video"]
  }

  /** `hasExpired`: the expiry instant lies strictly before `now`. */
  predicate HasExpired(s: StatusRow, now: int)
  {
    s.expiresAt < now
  }

  /** The ids of the authors that own a privacy row. */
  function PrivacyUsers(privacy: seq<PrivacyRow>): set<int>
  {
    set p | p in privacy :: p.userId
  }

  /** The first privacy row whose `user_id` is `userId`. */
  function PrivacyOf(privacy: seq<PrivacyRow>, userId: int): (r: Option<PrivacyRow>)
    ensures r.Some? ==> r.value in privacy && r.value.userId == userId
    ensures r.None? <==> userId !in PrivacyUsers(privacy)
  {
    if privacy == [] then None
    else if privacy[0].userId == userId then Some(privacy[0])
    else
      assert privacy == [privacy[0]] + privacy[1..];
      PrivacyOf(privacy[1..], userId)
  }

  /** The `privacy` relation: `hasOne` keyed by `user_id` on both sides, so it
      goes through the author, not through the status. */
  function Privacy(privacy: seq<PrivacyRow>, s: StatusRow): Option<PrivacyRow>
  {
    PrivacyOf(privacy, s.userId)
  }

  /** Two statuses of one author resolve to one privacy row. */
  lemma SameAuthorSamePrivacy(privacy: seq<PrivacyRow>, s: StatusRow, t: StatusRow)
    requires s.userId == t.userId
    ensures Privacy(privacy, s) == Privacy(privacy, t)
  {
  }

  /** Expiry never reverts as time goes on. */
  lemma ExpiryIsMonotone(s: StatusRow, t: int, t': int)
    requires t <= t' && HasExpired(s, t)
    ensures HasExpired(s, t')
  {
  }

  /** `hasMedia` does not look at `media_url`. */
  lemma HasMediaIgnoresUrl(s: StatusRow, url: Option<string>)
    ensures HasMedia(s.(mediaUrl := url)) == HasMedia(s)
    ensures HasMedia(s) <==> s.statusType == "image" || s.statusType == "video"
  {
  }

  function OfStatus(statusId: int): ViewerRow -> bool
  {
    (v: ViewerRow) => v.statusId == statusId
  }

  /** The `viewers` relation: the viewer rows whose `status_id` is the status's id. */
  function Viewers(viewers: seq<ViewerRow>, statusId: int): (r: seq<ViewerRow>)
    ensures forall v :: v in r <==> v in viewers && v.statusId == statusId
  {
    Filter(OfStatus(statusId), viewers)
  }
}
