/** The identity-reconciliation algorithm as values: the match query, the choice of
    the primary, the demotion of the other matched primaries, the rule for inserting
    a secondary, and the consolidated response built from the re-fetched rows.
    `Reconcile` is the specification both imperative copies are proved against. The
    copies also differ in how a rejection surfaces (a thrown error or a 400 reply) and
    in whether the final fetch is ordered, but in this model only their insertion
    rule, which `Policy` names, changes the outcome. */
module Reconciliation {
  import opened Seqs
  import opened Contacts

  /** The one failure of reconciliation: 'Email or phoneNumber is required'. */
  datatype Error = MissingContactInfo

  datatype Result<T> = Ok(value: T) | Err(error: Error)

  /** The `contact` object of the response body. */
  datatype Response = Response(
    primaryContactId: nat,
    emails: seq<string>,
    phoneNumbers: seq<string>,
    secondaryContactIds: seq<nat>)

  /** When a secondary is inserted for a request that matched something:
      NewValueOnly is the service's rule (no exact pair and a value not seen before),
      UnlessExactPair the `/identify` handler's rule (no exact pair). */
  datatype Policy = NewValueOnly | UnlessExactPair

  /** The table after a call and what the call returns. */
  datatype Outcome = Outcome(table: Table, result: Result<Response>)

  /** `email || phoneNumber` is truthy. */
  predicate HasContactInfo(email: JsValue, phoneNumber: JsValue)
  {
    Truthy(email) || Truthy(phoneNumber)
  }

  // ---------------------------------------------------------------- matching

  /** The match query (contactService.js:22-30): an OR of one equality per truthy field.
      It is an empty OR, which selects nothing, exactly for a request that is rejected. */
  function MatchWhere(email: JsValue, phoneNumber: JsValue): (w: Where)
    ensures w.AnyOf? && |w.conds| <= 2
    ensures |w.conds| == 0 <==> !HasContactInfo(email, phoneNumber)
  {
    AnyOf((if Truthy(email) then [EmailIs(email.s)] else [])
        + (if Truthy(phoneNumber) then [PhoneIs(phoneNumber.s)] else []))
  }

  /** A row matches a request when it has the request's email or its phone number,
      counting only the fields the request supplies with a truthy value. */
  predicate MatchesRequest(c: Contact, email: JsValue, phoneNumber: JsValue)
  {
    || (Truthy(email) && c.email == Some(email.s))
    || (Truthy(phoneNumber) && c.phoneNumber == Some(phoneNumber.s))
  }

  /** The match query, read as the matched rows in `createdAt` order. */
  function Matches(cs: seq<Contact>, email: JsValue, phoneNumber: JsValue): seq<Contact>
  {
    Select(cs, MatchWhere(email, phoneNumber))
  }

  lemma MatchWhereMeaning(c: Contact, email: JsValue, phoneNumber: JsValue)
    ensures Selects(MatchWhere(email, phoneNumber), c) <==> MatchesRequest(c, email, phoneNumber)
  {
    var ks := MatchWhere(email, phoneNumber).conds;
    if Truthy(email) && c.email == Some(email.s) {
      assert Holds(c, ks[0]);
    }
    if Truthy(phoneNumber) && c.phoneNumber == Some(phoneNumber.s) {
      assert Holds(c, ks[|ks| - 1]);
    }
  }

  /** The match set is exactly the rows matching the request, and it comes back in
      `createdAt` order with distinct ids when the table has them. An absent or empty
      field contributes no clause, so it never matches a NULL column. */
  lemma MatchesSpec(cs: seq<Contact>, email: JsValue, phoneNumber: JsValue)
    ensures forall c :: c in Matches(cs, email, phoneNumber) <==> c in cs && MatchesRequest(c, email, phoneNumber)
    ensures SortedByCreatedAt(cs) ==> SortedByCreatedAt(Matches(cs, email, phoneNumber))
    ensures DistinctIds(cs) ==> DistinctIds(Matches(cs, email, phoneNumber))
  {
    SelectSpec(cs, MatchWhere(email, phoneNumber));
    forall c | c in cs
      ensures Selects(MatchWhere(email, phoneNumber), c) <==> MatchesRequest(c, email, phoneNumber)
    {
      MatchWhereMeaning(c, email, phoneNumber);
    }
  }

  // ---------------------------------------------------------------- choosing the primary

  /** The search for the first primary of the match set (contactService.js:39), as a position. */
  function FirstPrimary(ms: seq<Contact>): (r: Option<nat>)
    ensures r.Some? ==> r.value < |ms| && ms[r.value].linkPrecedence == Primary
    ensures r.Some? ==> forall j :: 0 <= j < r.value ==> ms[j].linkPrecedence == Secondary
    ensures r.None? ==> forall j :: 0 <= j < |ms| ==> ms[j].linkPrecedence == Secondary
  {
    if |ms| == 0 then None
    else if ms[0].linkPrecedence == Primary then Some(0)
    else
      var rest := FirstPrimary(ms[1..]);
      assert forall j :: 1 <= j < |ms| ==> ms[j] == ms[1..][j - 1];
      assert ms[0].linkPrecedence == Secondary;
      if rest.None? then None else Some(rest.value + 1)
  }

  /** The chosen row (contactService.js:39), as a position: the first
      primary of the match set, or its first row when it holds no primary. */
  function ChosenIndex(ms: seq<Contact>): (k: nat)
    requires |ms| > 0
    ensures k < |ms|
    ensures ms[k].linkPrecedence == Primary <==> exists j :: 0 <= j < |ms| && ms[j].linkPrecedence == Primary
    ensures forall j :: 0 <= j < k ==> ms[j].linkPrecedence == Secondary
    ensures ms[k].linkPrecedence == Secondary ==> k == 0
  {
    match FirstPrimary(ms)
    case Some(k) => k
    case None => 0
  }

  /** The id the call reports as `primaryContactId`: the new primary's id when nothing
      matched, the chosen row's id otherwise (no `linkedId` is followed). */
  function ResolvedId(t: Table, email: JsValue, phoneNumber: JsValue): nat
  {
    var ms := Matches(t.rows, email, phoneNumber);
    if |ms| == 0 then t.nextId else ms[ChosenIndex(ms)].id
  }

  // ---------------------------------------------------------------- demotion

  /** A row after the demoting update (contactService.js:44-50): secondary, linked to primaryId. */
  function Demote(c: Contact, primaryId: nat): Contact
  {
    c.(linkPrecedence := Secondary, linkedId := Some(primaryId))
  }

  /** The ids the demotion loop updates: every matched primary other than the chosen one. */
  function Targets(ms: seq<Contact>, primaryId: nat): set<nat>
  {
    set m | m in ms && m.linkPrecedence == Primary && m.id != primaryId :: m.id
  }

  /** The rows after the demotion loop has updated the ids in targets. */
  function Demoted(cs: seq<Contact>, targets: set<nat>, primaryId: nat): seq<Contact>
  {
    seq(|cs|, i requires 0 <= i < |cs| => if cs[i].id in targets then Demote(cs[i], primaryId) else cs[i])
  }

  /** Before the loop has looked at any matched row, nothing is demoted. */
  lemma DemotedNothing(cs: seq<Contact>, ms: seq<Contact>, primaryId: nat)
    ensures Targets(ms[..0], primaryId) == {}
    ensures Demoted(cs, {}, primaryId) == cs
  {
  }

  /** One turn of the demotion loop: looking at the next matched row issues the update
      that demotes it exactly when it is a primary other than the chosen one. */
  lemma DemotionStep(cs: seq<Contact>, ms: seq<Contact>, i: nat, primaryId: nat)
    requires i < |ms|
    ensures Demoted(cs, Targets(ms[..i + 1], primaryId), primaryId)
              == if ms[i].linkPrecedence == Primary && ms[i].id != primaryId
                 then UpdateRows(Demoted(cs, Targets(ms[..i], primaryId), primaryId), ms[i].id, Secondary, Some(primaryId))
                 else Demoted(cs, Targets(ms[..i], primaryId), primaryId)
  {
    assert ms[..i + 1] == ms[..i] + [ms[i]];
    var m := ms[i];
    if m.linkPrecedence == Primary && m.id != primaryId {
      assert Targets(ms[..i + 1], primaryId) == Targets(ms[..i], primaryId) + {m.id};
    } else {
      assert Targets(ms[..i + 1], primaryId) == Targets(ms[..i], primaryId);
    }
  }

  // ---------------------------------------------------------------- insertion rule

  /** Some matched row equals the request in both fields under `===` (contactService.js:55-57). */
  predicate HasExactPair(ms: seq<Contact>, email: JsValue, phoneNumber: JsValue)
  {
    exists i :: 0 <= i < |ms| && StrictEquals(ms[i].email, email) && StrictEquals(ms[i].phoneNumber, phoneNumber)
  }

  /** Some matched row equals the request's email under `===` (contactService.js:59). */
  predicate EmailKnown(ms: seq<Contact>, email: JsValue)
  {
    exists i :: 0 <= i < |ms| && StrictEquals(ms[i].email, email)
  }

  /** Some matched row equals the request's phone number under `===` (contactService.js:60). */
  predicate PhoneKnown(ms: seq<Contact>, phoneNumber: JsValue)
  {
    exists i :: 0 <= i < |ms| && StrictEquals(ms[i].phoneNumber, phoneNumber)
  }

  /** Whether a call whose match set is ms inserts a secondary. */
  predicate InsertsSecondary(policy: Policy, ms: seq<Contact>, email: JsValue, phoneNumber: JsValue)
  {
    match policy
    case NewValueOnly => !HasExactPair(ms, email, phoneNumber) && (!EmailKnown(ms, email) || !PhoneKnown(ms, phoneNumber))
    case UnlessExactPair => !HasExactPair(ms, email, phoneNumber)
  }

  // ---------------------------------------------------------------- consolidation

  /** The group query (contactService.js:76-86): the row with the id, or rows linked to it. */
  function LinkedWhere(primaryId: nat): Where
  {
    AnyOf([IdIs(primaryId), LinkedIdIs(primaryId)])
  }

  /** Whether row c belongs to the group reported for primaryId: it is that row, or its
      `linkedId` is primaryId. */
  predicate InGroup(c: Contact, primaryId: nat)
  {
    c.id == primaryId || c.linkedId == Some(primaryId)
  }

  /** The re-fetched group: the rows in the group of primaryId. */
  function Linked(cs: seq<Contact>, primaryId: nat): seq<Contact>
  {
    Select(cs, LinkedWhere(primaryId))
  }

  lemma LinkedSpec(cs: seq<Contact>, primaryId: nat)
    ensures forall c :: c in Linked(cs, primaryId) <==> c in cs && InGroup(c, primaryId)
    ensures SortedByCreatedAt(cs) ==> SortedByCreatedAt(Linked(cs, primaryId))
    ensures DistinctIds(cs) ==> DistinctIds(Linked(cs, primaryId))
  {
    SelectSpec(cs, LinkedWhere(primaryId));
    forall c | c in cs
      ensures Selects(LinkedWhere(primaryId), c) <==> InGroup(c, primaryId)
    {
      var ks := LinkedWhere(primaryId).conds;
      assert Holds(c, ks[0]) <==> c.id == primaryId;
      assert Holds(c, ks[1]) <==> c.linkedId == Some(primaryId);
    }
  }

  /** The email column of the rows, in row order. */
  function EmailColumn(rs: seq<Contact>): (r: seq<Option<string>>)
    ensures |r| == |rs| && forall i :: 0 <= i < |rs| ==> r[i] == rs[i].email
  {
    seq(|rs|, i requires 0 <= i < |rs| => rs[i].email)
  }

  /** The phone-number column of the rows, in row order. */
  function PhoneColumn(rs: seq<Contact>): (r: seq<Option<string>>)
    ensures |r| == |rs| && forall i :: 0 <= i < |rs| ==> r[i] == rs[i].phoneNumber
  {
    seq(|rs|, i requires 0 <= i < |rs| => rs[i].phoneNumber)
  }

  /** A value occurs in a column exactly when some row carries it. */
  lemma ColumnsMeaning(rs: seq<Contact>)
    ensures forall x :: Some(x) in EmailColumn(rs) <==> exists c :: c in rs && c.email == Some(x)
    ensures forall x :: Some(x) in PhoneColumn(rs) <==> exists c :: c in rs && c.phoneNumber == Some(x)
  {
    forall x
      ensures Some(x) in EmailColumn(rs) <==> exists c :: c in rs && c.email == Some(x)
      ensures Some(x) in PhoneColumn(rs) <==> exists c :: c in rs && c.phoneNumber == Some(x)
    {
      if Some(x) in EmailColumn(rs) {
        var i :| 0 <= i < |rs| && EmailColumn(rs)[i] == Some(x);
        assert rs[i] in rs;
      }
      if exists c :: c in rs && c.email == Some(x) {
        var c :| c in rs && c.email == Some(x);
        var i :| 0 <= i < |rs| && rs[i] == c;
        assert EmailColumn(rs)[i] == Some(x);
      }
      if Some(x) in PhoneColumn(rs) {
        var i :| 0 <= i < |rs| && PhoneColumn(rs)[i] == Some(x);
        assert rs[i] in rs;
      }
      if exists c :: c in rs && c.phoneNumber == Some(x) {
        var c :| c in rs && c.phoneNumber == Some(x);
        var i :| 0 <= i < |rs| && rs[i] == c;
        assert PhoneColumn(rs)[i] == Some(x);
      }
    }
  }

  /** A column with its falsy entries dropped (contactService.js:88-89): NULLs and `""` go. */
  function Present(vs: seq<Option<string>>): (r: seq<string>)
    decreases |vs|
  {
    if |vs| == 0 then []
    else
      var r := Present(vs[..|vs| - 1]);
      var v := vs[|vs| - 1];
      if v.Some? && v.value != "" then r + [v.value] else r
  }

  /** Present keeps exactly the non-empty values of the column. */
  lemma {:induction false} PresentMembers(vs: seq<Option<string>>)
    ensures forall x :: x in Present(vs) <==> x != "" && Some(x) in vs
    decreases |vs|
  {
    if |vs| > 0 {
      PresentMembers(vs[..|vs| - 1]);
      assert vs == vs[..|vs| - 1] + [vs[|vs| - 1]];
    }
  }

  /** Present lists first occurrences in the same relative order as the column does. */
  lemma {:induction false} PresentOrder(vs: seq<Option<string>>)
    ensures forall x :: x in Present(vs) ==> Some(x) in vs
    ensures forall x, y :: x in Present(vs) && y in Present(vs) && IndexOf(Present(vs), x) < IndexOf(Present(vs), y) ==>
              IndexOf(vs, Some(x)) < IndexOf(vs, Some(y))
    decreases |vs|
  {
    if |vs| > 0 {
      var init := vs[..|vs| - 1];
      var v := vs[|vs| - 1];
      var r := Present(init);
      var r' := Present(vs);
      PresentOrder(init);
      PresentMembers(init);
      assert vs == init + [v];
      IndexOfPrefix(vs, |vs| - 1);
      assert r' == if v.Some? && v.value != "" then r + [v.value] else r;
      IndexOfPrefix(r', |r|);
      assert r'[..|r|] == r;
      forall z | z in r' && z !in r
        ensures IndexOf(r', z) == |r|
      {
        IndexOfUnique(r', z, |r|);
      }
      forall x, y | x in r' && y in r' && IndexOf(r', x) < IndexOf(r', y)
        ensures IndexOf(vs, Some(x)) < IndexOf(vs, Some(y))
      {
        if y !in r {
          assert v == Some(y) && Some(y) !in init;
          IndexOfUnique(vs, Some(y), |vs| - 1);
        }
        assert x in r;
      }
    }
  }

  /** The id column of the rows, in row order. */
  function Ids(rs: seq<Contact>): (r: seq<nat>)
    ensures |r| == |rs| && forall i :: 0 <= i < |rs| ==> r[i] == rs[i].id
  {
    seq(|rs|, i requires 0 <= i < |rs| => rs[i].id)
  }

  /** The ids of the secondary rows, in row order (contactService.js:90-92). */
  function SecondaryIds(rs: seq<Contact>): (r: seq<nat>)
    decreases |rs|
  {
    if |rs| == 0 then []
    else
      var r := SecondaryIds(rs[..|rs| - 1]);
      if rs[|rs| - 1].linkPrecedence == Secondary then r + [rs[|rs| - 1].id] else r
  }

  /** SecondaryIds lists exactly the ids of the secondary rows. */
  lemma {:induction false} SecondaryIdsMembers(rs: seq<Contact>)
    ensures forall x :: x in SecondaryIds(rs) <==> exists c :: c in rs && c.linkPrecedence == Secondary && c.id == x
    decreases |rs|
  {
    if |rs| > 0 {
      SecondaryIdsMembers(rs[..|rs| - 1]);
      assert rs == rs[..|rs| - 1] + [rs[|rs| - 1]];
    }
  }

  /** Every listed secondary id is the id of some re-fetched row. */
  lemma {:induction false} SecondaryIdsAreIds(rs: seq<Contact>)
    ensures forall x :: x in SecondaryIds(rs) ==> x in Ids(rs)
    decreases |rs|
  {
    if |rs| > 0 {
      var init := rs[..|rs| - 1];
      SecondaryIdsAreIds(init);
      assert Ids(rs) == Ids(init) + [rs[|rs| - 1].id];
    }
  }

  /** When ids are distinct, SecondaryIds lists each once, in the rows' order. */
  lemma {:induction false} SecondaryIdsOrder(rs: seq<Contact>)
    requires DistinctIds(rs)
    ensures NoDups(SecondaryIds(rs))
    ensures forall x :: x in SecondaryIds(rs) ==> x in Ids(rs)
    ensures forall i, j :: 0 <= i < j < |SecondaryIds(rs)| ==>
              IndexOf(Ids(rs), SecondaryIds(rs)[i]) < IndexOf(Ids(rs), SecondaryIds(rs)[j])
    decreases |rs|
  {
    if |rs| > 0 {
      var init := rs[..|rs| - 1];
      var last := rs[|rs| - 1];
      assert rs == init + [last];
      assert DistinctIds(init) by {
        forall i, j | 0 <= i < j < |init| ensures init[i].id != init[j].id {
          assert init[i] == rs[i] && init[j] == rs[j];
        }
      }
      SecondaryIdsOrder(init);
      SecondaryIdsAreIds(init);
      var r := SecondaryIds(init);
      assert Ids(rs) == Ids(init) + [last.id];
      assert Ids(rs)[..|init|] == Ids(init);
      IndexOfPrefix(Ids(rs), |init|);
      if last.linkPrecedence == Secondary {
        assert last.id !in Ids(init) by {
          forall i | 0 <= i < |init| ensures Ids(init)[i] != last.id {
            assert init[i] == rs[i];
          }
        }
        IndexOfUnique(Ids(rs), last.id, |init|);
        assert last.id !in r;
      }
      var r' := SecondaryIds(rs);
      assert r' == if last.linkPrecedence == Secondary then r + [last.id] else r;
      forall i, j | 0 <= i < j < |r'|
        ensures IndexOf(Ids(rs), r'[i]) < IndexOf(Ids(rs), r'[j])
      {
        assert r'[i] == r[i] && r[i] in Ids(init);
        if j < |r| {
          assert r'[j] == r[j] && r[j] in Ids(init);
        }
      }
    }
  }

  /** The listed emails or phone numbers (contactService.js:88-89): the distinct non-empty
      values of a column, each once, in the order of their first occurrence in it. */
  lemma DistinctPresent(vs: seq<Option<string>>)
    ensures NoDups(Dedup(Present(vs)))
    ensures forall x :: x in Dedup(Present(vs)) <==> x != "" && Some(x) in vs
    ensures forall i, j :: 0 <= i < j < |Dedup(Present(vs))| ==>
              IndexOf(vs, Some(Dedup(Present(vs))[i])) < IndexOf(vs, Some(Dedup(Present(vs))[j]))
  {
    var p := Present(vs);
    var d := Dedup(p);
    PresentMembers(vs);
    PresentOrder(vs);
    forall i, j | 0 <= i < j < |d|
      ensures IndexOf(vs, Some(d[i])) < IndexOf(vs, Some(d[j]))
    {
      assert d[i] in p && d[j] in p;
      assert IndexOf(p, d[i]) < IndexOf(p, d[j]);
    }
  }

  /** The response built from the re-fetched rows rs. */
  function Consolidate(rs: seq<Contact>, primaryId: nat): Response
  {
    Response(primaryId, Dedup(Present(EmailColumn(rs))), Dedup(Present(PhoneColumn(rs))), SecondaryIds(rs))
  }

  /** `emails` and `phoneNumbers` are the distinct non-empty values of rs, listed in the
      order in which their first carrying row appears; `secondaryContactIds` lists the
      ids of the secondary rows, each once and in row order when ids are distinct. */
  lemma ConsolidateSpec(rs: seq<Contact>, primaryId: nat)
    ensures var v := Consolidate(rs, primaryId);
      && v.primaryContactId == primaryId
      && NoDups(v.emails) && NoDups(v.phoneNumbers)
      && (forall x :: x in v.emails <==> x != "" && exists c :: c in rs && c.email == Some(x))
      && (forall x :: x in v.phoneNumbers <==> x != "" && exists c :: c in rs && c.phoneNumber == Some(x))
      && (forall i, j :: 0 <= i < j < |v.emails| ==>
            IndexOf(EmailColumn(rs), Some(v.emails[i])) < IndexOf(EmailColumn(rs), Some(v.emails[j])))
      && (forall i, j :: 0 <= i < j < |v.phoneNumbers| ==>
            IndexOf(PhoneColumn(rs), Some(v.phoneNumbers[i])) < IndexOf(PhoneColumn(rs), Some(v.phoneNumbers[j])))
      && (forall x :: x in v.secondaryContactIds <==> exists c :: c in rs && c.linkPrecedence == Secondary && c.id == x)
      && (forall x :: x in v.secondaryContactIds ==> x in Ids(rs))
      && (DistinctIds(rs) ==> NoDups(v.secondaryContactIds))
      && (DistinctIds(rs) ==> forall i, j :: 0 <= i < j < |v.secondaryContactIds| ==>
            IndexOf(Ids(rs), v.secondaryContactIds[i]) < IndexOf(Ids(rs), v.secondaryContactIds[j]))
  {
    DistinctPresent(EmailColumn(rs));
    DistinctPresent(PhoneColumn(rs));
    ColumnsMeaning(rs);
    SecondaryIdsMembers(rs);
    SecondaryIdsAreIds(rs);
    if DistinctIds(rs) {
      SecondaryIdsOrder(rs);
    }
  }

  // ---------------------------------------------------------------- the whole call

  /** The table after the resolution steps of one call that passed validation: a new
      primary when nothing matched; otherwise the other matched primaries demoted under
      the chosen row and, when the insertion rule says so, a new secondary linked to it. */
  function Resolve(policy: Policy, t: Table, email: JsValue, phoneNumber: JsValue): Table
  {
    var ms := Matches(t.rows, email, phoneNumber);
    var pid := ResolvedId(t, email, phoneNumber);
    if |ms| == 0 then Insert(t, Stored(email), Stored(phoneNumber), None, Primary)
    else
      var t1 := t.(rows := Demoted(t.rows, Targets(ms, pid), pid));
      if InsertsSecondary(policy, ms, email, phoneNumber)
      then Insert(t1, Stored(email), Stored(phoneNumber), Some(pid), Secondary)
      else t1
  }

  /** Resolution keeps the table valid: demotion rewrites only link fields, and an
      insertion takes the next id and a later `createdAt`. */
  lemma ResolveKeepsValid(policy: Policy, t: Table, email: JsValue, phoneNumber: JsValue)
    requires TableValid(t)
    ensures TableValid(Resolve(policy, t, email, phoneNumber))
  {
    var ms := Matches(t.rows, email, phoneNumber);
    var pid := ResolvedId(t, email, phoneNumber);
    if |ms| > 0 {
      var t1 := t.(rows := Demoted(t.rows, Targets(ms, pid), pid));
      assert TableValid(t1);
    }
  }

  /** One reconciliation call on table t under the given insertion rule: the validation
      error, or the resolved table and the response consolidated from it. */
  function Reconcile(policy: Policy, t: Table, email: JsValue, phoneNumber: JsValue): Outcome
  {
    if !HasContactInfo(email, phoneNumber) then Outcome(t, Err(MissingContactInfo))
    else
      var pid := ResolvedId(t, email, phoneNumber);
      var t' := Resolve(policy, t, email, phoneNumber);
      Outcome(t', Ok(Consolidate(Linked(t'.rows, pid), pid)))
  }

  /** Reconcile on a request with contact information, once the resolved table, the
      primary's id and the re-fetched rows are named. */
  lemma ReconcileAccepted(policy: Policy, t: Table, email: JsValue, phoneNumber: JsValue, t': Table, pid: nat, rs: seq<Contact>)
    requires HasContactInfo(email, phoneNumber)
    requires pid == ResolvedId(t, email, phoneNumber)
    requires t' == Resolve(policy, t, email, phoneNumber)
    requires rs == Linked(t'.rows, pid)
    ensures Reconcile(policy, t, email, phoneNumber) == Outcome(t', Ok(Consolidate(rs, pid)))
  {
  }

  /** Resolve once the match set and the primary's id are named. */
  lemma ResolveCases(policy: Policy, t: Table, email: JsValue, phoneNumber: JsValue, ms: seq<Contact>, pid: nat)
    requires ms == Matches(t.rows, email, phoneNumber)
    requires pid == ResolvedId(t, email, phoneNumber)
    ensures |ms| == 0 ==> Resolve(policy, t, email, phoneNumber) == Insert(t, Stored(email), Stored(phoneNumber), None, Primary)
    ensures |ms| > 0 ==> (Resolve(policy, t, email, phoneNumber) ==
      var t1 := t.(rows := Demoted(t.rows, Targets(ms, pid), pid));
      if InsertsSecondary(policy, ms, email, phoneNumber)
      then Insert(t1, Stored(email), Stored(phoneNumber), Some(pid), Secondary)
      else t1)
  {
  }
}
