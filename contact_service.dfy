/** `src/services/contactService.js`: the listing filter, the manual creation of a
    primary, and `reconcileContact`, each issuing its store calls one at a time. */
module ContactService {
  import opened Contacts
  import opened ContactStore
  import opened Reconciliation
  import opened Demotion

  /** `getFilteredContacts(filters)`: an AND of the supplied non-empty filters; with no
      filter it lists the whole table. Each row is listed once; it reads and never writes. */
  method GetFilteredContacts(store: Store, email: JsValue, phoneNumber: JsValue) returns (contacts: seq<Contact>)
    requires store.Valid()
    ensures DistinctIds(contacts)
    ensures forall c :: c in contacts <==>
              && c in store.rows
              && (Truthy(email) ==> c.email == Some(email.s))
              && (Truthy(phoneNumber) ==> c.phoneNumber == Some(phoneNumber.s))
    ensures !Truthy(email) && !Truthy(phoneNumber) ==> contacts == store.rows
  {
    var conds: seq<Cond> := [];
    if Truthy(email) {
      conds := conds + [EmailIs(email.s)];
    }
    if Truthy(phoneNumber) {
      conds := conds + [PhoneIs(phoneNumber.s)];
    }
    contacts := store.FindMany(AllOf(conds));
    SelectSpec(store.rows, AllOf(conds));
    forall c ensures Selects(AllOf(conds), c) <==>
                       (Truthy(email) ==> c.email == Some(email.s)) && (Truthy(phoneNumber) ==> c.phoneNumber == Some(phoneNumber.s))
    {
      if Truthy(email) {
        assert Holds(c, conds[0]) <==> c.email == Some(email.s);
      }
      if Truthy(phoneNumber) {
        assert Holds(c, conds[|conds| - 1]) <==> c.phoneNumber == Some(phoneNumber.s);
      }
    }
    if conds == [] {
      SelectAll(store.rows, AllOf(conds));
    }
  }

  /** `createPrimaryContact({ email, phoneNumber })`: inserts a primary with the given
      values and no matching of any kind. */
  method CreatePrimaryContact(store: Store, email: JsValue, phoneNumber: JsValue) returns (c: Contact)
    requires store.Valid()
    modifies store
    ensures store.Valid()
    ensures store.Snapshot() == Insert(old(store.Snapshot()), Stored(email), Stored(phoneNumber), None, Primary)
    ensures c == Contact(old(store.nextId), Stored(email), Stored(phoneNumber), None, Primary, old(store.clock), None)
    ensures store.rows == old(store.rows) + [c]
  {
    c := store.Create(Stored(email), Stored(phoneNumber), None, Primary);
  }

  /** `reconcileContact({ email, phoneNumber })`: fails before touching the store when
      neither value is truthy; otherwise leaves the store and returns exactly what
      `Reconcile` under the service's insertion rule describes. */
  method ReconcileContact(store: Store, email: JsValue, phoneNumber: JsValue) returns (r: Result<Response>)
    requires store.Valid()
    modifies store
    ensures store.Valid()
    ensures Outcome(store.Snapshot(), r) == Reconcile(NewValueOnly, old(store.Snapshot()), email, phoneNumber)
  {
    if !Truthy(email) && !Truthy(phoneNumber) {
      return Err(MissingContactInfo);
    }
    ghost var t0 := store.Snapshot();
    var matched := store.FindMany(MatchWhere(email, phoneNumber));
    var primary: Contact;
    if |matched| == 0 {
      primary := CreatePrimaryContact(store, email, phoneNumber);
      assert primary.id == ResolvedId(t0, email, phoneNumber);
    } else {
      var found := FirstPrimary(matched);
      primary := if found.Some? then matched[found.value] else matched[0];
      assert primary.id == ResolvedId(t0, email, phoneNumber);
      ghost var t1 := t0.(rows := Demoted(t0.rows, Targets(matched, primary.id), primary.id));
      DemoteOtherPrimaries(store, matched, primary.id);
      assert store.Snapshot() == t1;
      var exactMatch := HasExactPair(matched, email, phoneNumber);
      var emailExists := EmailKnown(matched, email);
      var phoneExists := PhoneKnown(matched, phoneNumber);
      if !exactMatch && (!emailExists || !phoneExists) {
        var created := store.Create(Stored(email), Stored(phoneNumber), Some(primary.id), Secondary);
      }
      assert store.Snapshot() == if InsertsSecondary(NewValueOnly, matched, email, phoneNumber)
        then Insert(t1, Stored(email), Stored(phoneNumber), Some(primary.id), Secondary) else t1;
    }
    ResolveCases(NewValueOnly, t0, email, phoneNumber, matched, primary.id);
    ResolveKeepsValid(NewValueOnly, t0, email, phoneNumber);
    ghost var t' := store.Snapshot();
    var allLinkedContacts := store.FindMany(LinkedWhere(primary.id));
    r := Ok(Consolidate(allLinkedContacts, primary.id));
    ReconcileAccepted(NewValueOnly, t0, email, phoneNumber, t', primary.id, allLinkedContacts);
  }
}
