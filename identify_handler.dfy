/** The body of the `POST /identify` handler in `index.js`: an older inline copy of the
    reconciliation whose insertion rule only asks whether the exact pair is known, and
    whose final fetch has no `orderBy`. A rejected request is the status-400 reply. */
module IdentifyHandler {
  import opened Contacts
  import opened ContactStore
  import opened Reconciliation
  import opened Demotion

  method Identify(store: Store, email: JsValue, phoneNumber: JsValue) returns (r: Result<Response>)
    requires store.Valid()
    modifies store
    ensures store.Valid()
    ensures Outcome(store.Snapshot(), r) == Reconcile(UnlessExactPair, old(store.Snapshot()), email, phoneNumber)
  {
    if !Truthy(email) && !Truthy(phoneNumber) {
      return Err(MissingContactInfo);
    }
    ghost var t0 := store.Snapshot();
    // STEP 1: every row with the email or the phone number, oldest first
    var matched := store.FindMany(MatchWhere(email, phoneNumber));
    var primary: Contact;
    if |matched| == 0 {
      primary := store.Create(Stored(email), Stored(phoneNumber), None, Primary);
      assert primary.id == ResolvedId(t0, email, phoneNumber);
    } else {
      // STEP 2: the earliest primary, or the earliest row
      var found := FirstPrimary(matched);
      primary := if found.Some? then matched[found.value] else matched[0];
      // STEP 3: every other matched primary becomes a secondary of it
      assert primary.id == ResolvedId(t0, email, phoneNumber);
      ghost var t1 := t0.(rows := Demoted(t0.rows, Targets(matched, primary.id), primary.id));
      DemoteOtherPrimaries(store, matched, primary.id);
      assert store.Snapshot() == t1;
      // STEP 4: a secondary unless the exact pair is already there
      var alreadyExists := HasExactPair(matched, email, phoneNumber);
      if !alreadyExists {
        var created := store.Create(Stored(email), Stored(phoneNumber), Some(primary.id), Secondary);
      }
      assert store.Snapshot() == if InsertsSecondary(UnlessExactPair, matched, email, phoneNumber)
        then Insert(t1, Stored(email), Stored(phoneNumber), Some(primary.id), Secondary) else t1;
    }
    ResolveCases(UnlessExactPair, t0, email, phoneNumber, matched, primary.id);
    ResolveKeepsValid(UnlessExactPair, t0, email, phoneNumber);
    ghost var t' := store.Snapshot();
    // STEP 5: the primary and every row linked to it, in store order
    var allLinkedContacts := store.FindMany(LinkedWhere(primary.id));
    // STEP 6: the response, consolidated from the re-fetched rows
    r := Ok(Consolidate(allLinkedContacts, primary.id));
    ReconcileAccepted(UnlessExactPair, t0, email, phoneNumber, t', primary.id, allLinkedContacts);
  }
}
