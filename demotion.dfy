/** The loop both handlers run after choosing the primary: every matched row that is
    still a primary, other than the chosen one, is re-linked to it, one `update` per row. */
module Demotion {
  import opened Contacts
  import opened ContactStore
  import opened Reconciliation

  /** The demotion loop (contactService.js:42-52, index.js:94-104):
      afterwards the table is the old one with exactly the rows named by `Targets` demoted,
      and no row was added. */
  method DemoteOtherPrimaries(store: Store, matched: seq<Contact>, primaryId: nat)
    modifies store
    ensures old(store.Valid()) ==> store.Valid()
    ensures store.rows == Demoted(old(store.rows), Targets(matched, primaryId), primaryId)
    ensures store.nextId == old(store.nextId) && store.clock == old(store.clock)
  {
    ghost var rows0 := store.rows;
    DemotedNothing(rows0, matched, primaryId);
    var i := 0;
    while i < |matched|
      invariant 0 <= i <= |matched|
      invariant store.rows == Demoted(rows0, Targets(matched[..i], primaryId), primaryId)
      invariant store.nextId == old(store.nextId) && store.clock == old(store.clock)
    {
      var contact := matched[i];
      DemotionStep(rows0, matched, i, primaryId);
      if contact.linkPrecedence == Primary && contact.id != primaryId {
        store.Update(contact.id, Secondary, Some(primaryId));
      }
      i := i + 1;
    }
    assert matched[..|matched|] == matched;
  }
}
