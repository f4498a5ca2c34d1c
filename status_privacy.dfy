/** The per-author visibility rule of statuses (app/Models/StatusPrivacy.php). */
module StatusPrivacy {
  import opened Common

  /** The values of the `privacy_type` enum column. */
  const PRIVACY_TYPES: seq<string> := ["all", "selected", "except"]

  /** A `status_privacy` row: one per author, holding the author's current rule.
      `selectedUsers` is the nullable JSON column `selected_users`. */
  datatype PrivacyRow = PrivacyRow(userId: int, privacyType: string, selectedUsers: Option<seq<int>>)

  /** `canUserViewStatus`: type `all` admits everyone; otherwise the viewer is
      "selected" when listed (a null list reads as empty), and type `selected`
      admits exactly the selected viewers while every other type admits exactly
      the others. */
  predicate CanUserViewStatus(privacyType: string, selectedUsers: Option<seq<int>>, viewer: int)
  {
    if privacyType == "all" then true
    else
      var isSelected := viewer in selectedUsers.GetOr([]);
      if privacyType == "selected" then isSelected else !isSelected
  }

  /** The rule applied to a stored row. */
  predicate Admits(row: PrivacyRow, viewer: int)
  {
    CanUserViewStatus(row.privacyType, row.selectedUsers, viewer)
  }

  /** The rule as the status listing's query writes it: one disjunct per enum
      value, each JSON containment test failing on a null list. */
  predicate ListingAdmits(row: PrivacyRow, viewer: int)
  {
    || row.privacyType == "all"
    || (row.privacyType == "selected" && row.selectedUsers.Some? && viewer in row.selectedUsers.value)
    || (row.privacyType == "except" && row.selectedUsers.Some? && viewer !in row.selectedUsers.value)
  }

  lemma AllAdmitsEveryone(selectedUsers: Option<seq<int>>, viewer: int)
    ensures CanUserViewStatus("all", selectedUsers, viewer)
  {
  }

  lemma SelectedAdmitsExactlyListed(selectedUsers: Option<seq<int>>, viewer: int)
    ensures CanUserViewStatus("selected", selectedUsers, viewer) <==> viewer in selectedUsers.GetOr([])
  {
  }

  /** Any type other than `all` and `selected` behaves as a deny-list. */
  lemma OtherTypesDenyListed(privacyType: string, selectedUsers: Option<seq<int>>, viewer: int)
    requires privacyType != "all" && privacyType != "selected"
    ensures CanUserViewStatus(privacyType, selectedUsers, viewer) <==> viewer !in selectedUsers.GetOr([])
  {
  }

  /** A null list is read as the empty list: `selected` then admits nobody and
      `except` admits everybody. */
  lemma NullListIsEmpty(privacyType: string, viewer: int)
    ensures CanUserViewStatus(privacyType, None, viewer) == CanUserViewStatus(privacyType, Some([]), viewer)
    ensures !CanUserViewStatus("selected", None, viewer)
    ensures CanUserViewStatus("except", None, viewer)
  {
  }

  /** For one list and one viewer, `selected` and `except` disagree. */
  lemma SelectedExceptComplementary(selectedUsers: Option<seq<int>>, viewer: int)
    ensures CanUserViewStatus("selected", selectedUsers, viewer) != CanUserViewStatus("except", selectedUsers, viewer)
  {
  }

  /** On rows the controllers write (an enum type and a non-null list) the
      listing's query and `canUserViewStatus` give the same answer. */
  lemma ListingAgreesWithRule(row: PrivacyRow, viewer: int)
    requires row.privacyType in PRIVACY_TYPES && row.selectedUsers.Some?
    ensures ListingAdmits(row, viewer) <==> Admits(row, viewer)
  {
  }

  /** On a null list the two disagree for `except`: the rule admits, the query does not. */
  lemma ListingRejectsNullExcept(userId: int, viewer: int)
    ensures Admits(PrivacyRow(userId, "except", None), viewer)
    ensures !ListingAdmits(PrivacyRow(userId, "except", None), viewer)
  {
  }
}
