/** What one reconciliation call does to the table and what it reports, stated about
    the specification `Reconcile` that both handlers are proved to follow. */
module ReconciliationProperties {
  import opened Seqs
  import opened Contacts
  import opened Reconciliation

  // ---------------------------------------------------------------- helpers

  /** The secondary a call inserts for a request that matched rows, linked to primaryId. */
  function NewSecondary(t: Table, email: JsValue, phoneNumber: JsValue, primaryId: nat): Contact
  {
    Contact(t.nextId, Stored(email), Stored(phoneNumber), Some(primaryId), Secondary, t.clock, None)
  }

  lemma DemotedAppend(cs: seq<Contact>, c: Contact, targets: set<nat>, primaryId: nat)
    ensures Demoted(cs + [c], targets, primaryId)
         == Demoted(cs, targets, primaryId) + [if c.id in targets then Demote(c, primaryId) else c]
  {
  }

  lemma MatchesAppend(cs: seq<Contact>, c: Contact, email: JsValue, phoneNumber: JsValue)
    ensures Matches(cs + [c], email, phoneNumber)
         == Matches(cs, email, phoneNumber) + (if MatchesRequest(c, email, phoneNumber) then [c] else [])
  {
    SelectAppend(cs, c, MatchWhere(email, phoneNumber));
    MatchWhereMeaning(c, email, phoneNumber);
  }

  /** Demotion rewrites only link fields, so it neither adds rows to nor removes rows from
      a match set: matching the demoted table gives the demoted match set. */
  lemma {:induction false} MatchesDemoted(cs: seq<Contact>, targets: set<nat>, primaryId: nat,
                                          email: JsValue, phoneNumber: JsValue)
    ensures Matches(Demoted(cs, targets, primaryId), email, phoneNumber)
         == Demoted(Matches(cs, email, phoneNumber), targets, primaryId)
    decreases |cs|
  {
    if |cs| > 0 {
      var init := cs[..|cs| - 1];
      var last := cs[|cs| - 1];
      var last' := if last.id in targets then Demote(last, primaryId) else last;
      assert cs == init + [last];
      DemotedAppend(init, last, targets, primaryId);
      MatchesDemoted(init, targets, primaryId, email, phoneNumber);
      MatchesAppend(init, last, email, phoneNumber);
      MatchesAppend(Demoted(init, targets, primaryId), last', email, phoneNumber);
      assert MatchesRequest(last', email, phoneNumber) == MatchesRequest(last, email, phoneNumber);
      DemotedAppend(Matches(init, email, phoneNumber), last, targets, primaryId);
    }
  }

  /** The match set a repeated call sees: the first call's match set after its demotions,
      then the secondary it inserted, if any. */
  lemma Rematch(policy: Policy, t: Table, email: JsValue, phoneNumber: JsValue)
    requires HasContactInfo(email, phoneNumber)
    requires |Matches(t.rows, email, phoneNumber)| > 0
    ensures var ms := Matches(t.rows, email, phoneNumber);
            var pid := ResolvedId(t, email, phoneNumber);
            Matches(Resolve(policy, t, email, phoneNumber).rows, email, phoneNumber)
              == Demoted(ms, Targets(ms, pid), pid)
                 + (if InsertsSecondary(policy, ms, email, phoneNumber) then [NewSecondary(t, email, phoneNumber, pid)] else [])
  {
    var ms := Matches(t.rows, email, phoneNumber);
    var pid := ResolvedId(t, email, phoneNumber);
    var rows1 := Demoted(t.rows, Targets(ms, pid), pid);
    MatchesDemoted(t.rows, Targets(ms, pid), pid, email, phoneNumber);
    if InsertsSecondary(policy, ms, email, phoneNumber) {
      var n := NewSecondary(t, email, phoneNumber, pid);
      assert Resolve(policy, t, email, phoneNumber).rows == rows1 + [n];
      MatchesAppend(rows1, n, email, phoneNumber);
      assert MatchesRequest(n, email, phoneNumber);
    }
  }

  /** After a call, the only primary left in its (demoted) match set is the chosen row,
      so choosing again picks a row with the same id and demotes nothing. */
  lemma ChoiceIsStable(ms: seq<Contact>, extra: seq<Contact>)
    requires |ms| > 0
    requires forall j :: 0 <= j < |extra| ==> extra[j].linkPrecedence == Secondary
    ensures var pid := ms[ChosenIndex(ms)].id;
            var ms' := Demoted(ms, Targets(ms, pid), pid) + extra;
            && ms'[ChosenIndex(ms')].id == pid
            && Targets(ms', pid) == {}
  {
    var k := ChosenIndex(ms);
    var pid := ms[k].id;
    var d := Demoted(ms, Targets(ms, pid), pid);
    var ms' := d + extra;
    assert forall j :: 0 <= j < |ms'| && ms'[j].linkPrecedence == Primary ==> j < |ms| && ms'[j] == ms[j] && ms[j].id == pid by {
      forall j | 0 <= j < |ms'| && ms'[j].linkPrecedence == Primary
        ensures j < |ms| && ms'[j] == ms[j] && ms[j].id == pid
      {
        assert ms'[j] == d[j];
        assert ms[j] in ms;
      }
    }
    assert ms'[k] == d[k] == ms[k];
    var k' := ChosenIndex(ms');
    if ms[k].linkPrecedence == Secondary {
      assert k == 0;
      assert k' == 0;
    }
    assert Targets(ms', pid) == {} by {
      forall m | m in ms' && m.linkPrecedence == Primary
        ensures m.id == pid
      {
        var j :| 0 <= j < |ms'| && ms'[j] == m;
      }
    }
  }

  /** A repeated request with no `undefined` field finds its pair among the matches of the
      table the first call left, so neither insertion rule inserts again. */
  lemma PairIsKnown(policy: Policy, ms: seq<Contact>, ms': seq<Contact>, email: JsValue, phoneNumber: JsValue,
                    inserted: Contact)
    requires email != Undefined && phoneNumber != Undefined
    requires |ms'| >= |ms|
    requires forall j :: 0 <= j < |ms| ==> ms'[j].email == ms[j].email && ms'[j].phoneNumber == ms[j].phoneNumber
    requires InsertsSecondary(policy, ms, email, phoneNumber) ==>
               inserted in ms' && inserted.email == Stored(email) && inserted.phoneNumber == Stored(phoneNumber)
    ensures !InsertsSecondary(policy, ms', email, phoneNumber)
  {
    if InsertsSecondary(policy, ms, email, phoneNumber) {
      var j :| 0 <= j < |ms'| && ms'[j] == inserted;
      assert StrictEquals(ms'[j].email, email) && StrictEquals(ms'[j].phoneNumber, phoneNumber);
    } else if HasExactPair(ms, email, phoneNumber) {
      var j :| 0 <= j < |ms| && StrictEquals(ms[j].email, email) && StrictEquals(ms[j].phoneNumber, phoneNumber);
      assert StrictEquals(ms'[j].email, email) && StrictEquals(ms'[j].phoneNumber, phoneNumber);
    } else {
      assert policy == NewValueOnly && EmailKnown(ms, email) && PhoneKnown(ms, phoneNumber);
      var a :| 0 <= a < |ms| && StrictEquals(ms[a].email, email);
      var b :| 0 <= b < |ms| && StrictEquals(ms[b].phoneNumber, phoneNumber);
      assert StrictEquals(ms'[a].email, email) && StrictEquals(ms'[b].phoneNumber, phoneNumber);
    }
  }

  /** The non-empty value of a single column entry, as a list of at most one string. */
  function ValueList(v: Option<string>): seq<string>
  {
    if v.Some? && v.value != "" then [v.value] else []
  }

  lemma PresentOne(v: Option<string>)
    ensures Present([v]) == ValueList(v)
  {
    assert [v][..0] == [];
  }

  lemma DedupShort(xs: seq<string>)
    requires |xs| <= 1
    ensures Dedup(xs) == xs
  {
    if |xs| == 1 {
      assert xs[..0] == [];
    }
  }

  /** The response consolidated from a group that is a single primary row. */
  lemma ConsolidateOne(n: Contact, primaryId: nat)
    requires n.linkPrecedence == Primary
    ensures Consolidate([n], primaryId) == Response(primaryId, ValueList(n.email), ValueList(n.phoneNumber), [])
  {
    var v := Consolidate([n], primaryId);
    assert v.emails == ValueList(n.email) by {
      assert EmailColumn([n]) == [n.email];
      PresentOne(n.email);
      DedupShort(ValueList(n.email));
    }
    assert v.phoneNumbers == ValueList(n.phoneNumber) by {
      assert PhoneColumn([n]) == [n.phoneNumber];
      PresentOne(n.phoneNumber);
      DedupShort(ValueList(n.phoneNumber));
    }
    assert v.secondaryContactIds == [] by {
      assert [n][..0] == [];
      assert SecondaryIds([n]) == SecondaryIds([]);
    }
  }

  /** A row with a fresh id, appended to rows none of which links to that id, forms a
      group of its own. */
  lemma LinkedFreshRow(cs: seq<Contact>, n: Contact)
    requires forall i :: 0 <= i < |cs| ==> cs[i].id != n.id && cs[i].linkedId != Some(n.id)
    ensures Linked(cs + [n], n.id) == [n]
  {
    var w := LinkedWhere(n.id);
    forall i | 0 <= i < |cs|
      ensures !Selects(w, cs[i])
    {
      assert !Holds(cs[i], w.conds[0]) && !Holds(cs[i], w.conds[1]);
    }
    SelectNone(cs, w);
    SelectAppend(cs, n, w);
    assert Holds(n, w.conds[0]);
  }

  // ---------------------------------------------------------------- properties

  /** A repeated call after one that created a primary resolves to that primary and
      leaves the table as it is. */
  lemma RepeatAfterCreate(policy: Policy, t: Table, email: JsValue, phoneNumber: JsValue)
    requires email != Undefined && phoneNumber != Undefined
    requires HasContactInfo(email, phoneNumber)
    requires |Matches(t.rows, email, phoneNumber)| == 0
    ensures var t' := Resolve(policy, t, email, phoneNumber);
            && ResolvedId(t', email, phoneNumber) == ResolvedId(t, email, phoneNumber)
            && Resolve(policy, t', email, phoneNumber) == t'
  {
    var pid := ResolvedId(t, email, phoneNumber);
    var t' := Resolve(policy, t, email, phoneNumber);
    var n := Contact(t.nextId, Stored(email), Stored(phoneNumber), None, Primary, t.clock, None);
    assert t'.rows == t.rows + [n];
    MatchesAppend(t.rows, n, email, phoneNumber);
    assert MatchesRequest(n, email, phoneNumber);
    var ms' := Matches(t'.rows, email, phoneNumber);
    assert ms' == [n];
    assert ResolvedId(t', email, phoneNumber) == pid;
    assert Targets(ms', pid) == {};
    assert HasExactPair(ms', email, phoneNumber) by {
      assert StrictEquals(ms'[0].email, email) && StrictEquals(ms'[0].phoneNumber, phoneNumber);
    }
    DemotedNothing(t'.rows, ms', pid);
  }

  /** A repeated call after one that matched rows resolves to the same id and leaves the
      table as it is. */
  lemma RepeatAfterMerge(policy: Policy, t: Table, email: JsValue, phoneNumber: JsValue)
    requires email != Undefined && phoneNumber != Undefined
    requires HasContactInfo(email, phoneNumber)
    requires |Matches(t.rows, email, phoneNumber)| > 0
    ensures var t' := Resolve(policy, t, email, phoneNumber);
            && ResolvedId(t', email, phoneNumber) == ResolvedId(t, email, phoneNumber)
            && Resolve(policy, t', email, phoneNumber) == t'
  {
    var ms := Matches(t.rows, email, phoneNumber);
    var pid := ResolvedId(t, email, phoneNumber);
    var t' := Resolve(policy, t, email, phoneNumber);
    var ms' := Matches(t'.rows, email, phoneNumber);
    var n := NewSecondary(t, email, phoneNumber, pid);
    var extra := if InsertsSecondary(policy, ms, email, phoneNumber) then [n] else [];
    Rematch(policy, t, email, phoneNumber);
    assert ms' == Demoted(ms, Targets(ms, pid), pid) + extra;
    ChoiceIsStable(ms, extra);
    assert ResolvedId(t', email, phoneNumber) == pid;
    PairIsKnown(policy, ms, ms', email, phoneNumber, n);
    DemotedNothing(t'.rows, ms', pid);
  }

  /** Repeating a request whose fields are all present (strings or `null`) changes nothing
      and gets the same response: a call is idempotent under either insertion rule. */
  lemma RepeatIsStable(policy: Policy, t: Table, email: JsValue, phoneNumber: JsValue)
    requires email != Undefined && phoneNumber != Undefined
    ensures var o := Reconcile(policy, t, email, phoneNumber);
            Reconcile(policy, o.table, email, phoneNumber) == o
  {
    if HasContactInfo(email, phoneNumber) {
      if |Matches(t.rows, email, phoneNumber)| == 0 {
        RepeatAfterCreate(policy, t, email, phoneNumber);
      } else {
        RepeatAfterMerge(policy, t, email, phoneNumber);
      }
    }
  }

  /** A call fails, and then leaves the table exactly as it was, precisely when neither
      field is a non-empty string. */
  lemma RejectionLeavesTable(policy: Policy, t: Table, email: JsValue, phoneNumber: JsValue)
    ensures Reconcile(policy, t, email, phoneNumber).result.Err? <==> !HasContactInfo(email, phoneNumber)
    ensures !HasContactInfo(email, phoneNumber) ==> Reconcile(policy, t, email, phoneNumber) == Outcome(t, Err(MissingContactInfo))
  {
  }

  /** The chosen row is a matching row of the table; it is the oldest matching primary
      when one exists, and the oldest matching row otherwise; its id is the reported
      `primaryContactId` whatever its own precedence. */
  lemma ChosenIsOldestPrimary(t: Table, email: JsValue, phoneNumber: JsValue)
    requires TableValid(t)
    requires |Matches(t.rows, email, phoneNumber)| > 0
    ensures var ms := Matches(t.rows, email, phoneNumber);
            var c := ms[ChosenIndex(ms)];
            && c in t.rows && MatchesRequest(c, email, phoneNumber)
            && ResolvedId(t, email, phoneNumber) == c.id
            && ((exists m :: m in t.rows && MatchesRequest(m, email, phoneNumber) && m.linkPrecedence == Primary) ==>
                  && c.linkPrecedence == Primary
                  && forall m :: m in t.rows && MatchesRequest(m, email, phoneNumber) && m.linkPrecedence == Primary ==>
                       c.createdAt <= m.createdAt)
            && (c.linkPrecedence == Secondary ==>
                  forall m :: m in t.rows && MatchesRequest(m, email, phoneNumber) ==>
                    m.linkPrecedence == Secondary && c.createdAt <= m.createdAt)
  {
    var ms := Matches(t.rows, email, phoneNumber);
    var k := ChosenIndex(ms);
    MatchesSpec(t.rows, email, phoneNumber);
    assert ms[k] in ms;
    forall m | m in t.rows && MatchesRequest(m, email, phoneNumber)
      ensures m.linkPrecedence == Primary ==> ms[k].linkPrecedence == Primary && ms[k].createdAt <= m.createdAt
      ensures ms[k].linkPrecedence == Secondary ==> m.linkPrecedence == Secondary && ms[k].createdAt <= m.createdAt
    {
      var j :| 0 <= j < |ms| && ms[j] == m;
      if m.linkPrecedence == Primary {
        assert k <= j;
      }
    }
  }

  /** With no match, one primary carrying the request's values is appended with the next
      id and clock, and it is the reported primary; on a table where no row links to
      that id, the response lists only its own values and no secondaries. */
  lemma NoMatchCreatesPrimary(policy: Policy, t: Table, email: JsValue, phoneNumber: JsValue)
    requires TableValid(t)
    requires HasContactInfo(email, phoneNumber)
    requires |Matches(t.rows, email, phoneNumber)| == 0
    ensures var o := Reconcile(policy, t, email, phoneNumber);
            var n := Contact(t.nextId, Stored(email), Stored(phoneNumber), None, Primary, t.clock, None);
            && o.table == Table(t.rows + [n], t.nextId + 1, t.clock + 1)
            && o.result.Ok? && o.result.value.primaryContactId == t.nextId
            && ((forall i :: 0 <= i < |t.rows| ==> t.rows[i].linkedId != Some(t.nextId)) ==>
                  o.result.value == Response(t.nextId, ValueList(Stored(email)), ValueList(Stored(phoneNumber)), []))
  {
    var n := Contact(t.nextId, Stored(email), Stored(phoneNumber), None, Primary, t.clock, None);
    var o := Reconcile(policy, t, email, phoneNumber);
    assert o.table == Table(t.rows + [n], t.nextId + 1, t.clock + 1);
    if forall i :: 0 <= i < |t.rows| ==> t.rows[i].linkedId != Some(t.nextId) {
      LinkedFreshRow(t.rows, n);
      ConsolidateOne(n, t.nextId);
    }
  }

  /** The rows resolution leaves in place of the old ones: a matching primary other than
      the chosen row becomes a secondary linked to it, and every other row, including a
      secondary still linked to a primary that was just demoted, is untouched. */
  lemma DemotionEffect(policy: Policy, t: Table, email: JsValue, phoneNumber: JsValue)
    requires TableValid(t)
    requires |Matches(t.rows, email, phoneNumber)| > 0
    ensures var pid := ResolvedId(t, email, phoneNumber);
            var t' := Resolve(policy, t, email, phoneNumber);
            && |t'.rows| >= |t.rows|
            && forall i :: 0 <= i < |t.rows| ==>
                 t'.rows[i] == if MatchesRequest(t.rows[i], email, phoneNumber)
                                  && t.rows[i].linkPrecedence == Primary && t.rows[i].id != pid
                               then t.rows[i].(linkPrecedence := Secondary, linkedId := Some(pid))
                               else t.rows[i]
  {
    var ms := Matches(t.rows, email, phoneNumber);
    var pid := ResolvedId(t, email, phoneNumber);
    var t' := Resolve(policy, t, email, phoneNumber);
    var d := Demoted(t.rows, Targets(ms, pid), pid);
    MatchesSpec(t.rows, email, phoneNumber);
    assert t'.rows[..|t.rows|] == d;
    forall i | 0 <= i < |t.rows|
      ensures t.rows[i].id in Targets(ms, pid) <==>
                MatchesRequest(t.rows[i], email, phoneNumber) && t.rows[i].linkPrecedence == Primary && t.rows[i].id != pid
    {
      var c := t.rows[i];
      if c.id in Targets(ms, pid) {
        var m :| m in ms && m.linkPrecedence == Primary && m.id != pid && m.id == c.id;
        var j :| 0 <= j < |t.rows| && t.rows[j] == m;
        assert j == i;
      }
      if MatchesRequest(c, email, phoneNumber) && c.linkPrecedence == Primary && c.id != pid {
        assert c in ms;
      }
    }
    forall i | 0 <= i < |t.rows|
      ensures t'.rows[i] == d[i]
    {
      assert t'.rows[..|t.rows|][i] == t'.rows[i];
    }
  }

  /** How the table grows: by one row exactly when nothing matched or the insertion rule
      fires, and then by the expected row; the old rows keep their positions, ids,
      `createdAt`, email and phone number. */
  lemma InsertionRule(policy: Policy, t: Table, email: JsValue, phoneNumber: JsValue)
    requires HasContactInfo(email, phoneNumber)
    ensures var ms := Matches(t.rows, email, phoneNumber);
            var pid := ResolvedId(t, email, phoneNumber);
            var t' := Reconcile(policy, t, email, phoneNumber).table;
            var grows := |ms| == 0 || InsertsSecondary(policy, ms, email, phoneNumber);
            && |t'.rows| == |t.rows| + (if grows then 1 else 0)
            && t'.nextId == t.nextId + (if grows then 1 else 0)
            && (grows ==> t'.rows[|t.rows|] == Contact(t.nextId, Stored(email), Stored(phoneNumber),
                                                      if |ms| == 0 then None else Some(pid),
                                                      if |ms| == 0 then Primary else Secondary,
                                                      t.clock, None))
            && forall i :: 0 <= i < |t.rows| ==>
                 && t'.rows[i].id == t.rows[i].id && t'.rows[i].createdAt == t.rows[i].createdAt
                 && t'.rows[i].email == t.rows[i].email && t'.rows[i].phoneNumber == t.rows[i].phoneNumber
  {
    var ms := Matches(t.rows, email, phoneNumber);
    var t' := Reconcile(policy, t, email, phoneNumber).table;
    if |ms| > 0 {
      var pid := ResolvedId(t, email, phoneNumber);
      var d := Demoted(t.rows, Targets(ms, pid), pid);
      assert t'.rows[..|t.rows|] == d;
      forall i | 0 <= i < |t.rows|
        ensures t'.rows[i] == d[i]
      {
        assert t'.rows[..|t.rows|][i] == t'.rows[i];
      }
    } else {
      forall i | 0 <= i < |t.rows|
        ensures t'.rows[i] == t.rows[i]
      {
        assert t'.rows[..|t.rows|][i] == t'.rows[i];
      }
    }
  }

  /** A request that omits a field (`undefined`) never finds an exact pair or a known value
      for it, so whenever it matches anything a secondary is inserted, under either rule. */
  lemma OmittedFieldAlwaysInserts(policy: Policy, t: Table, email: JsValue, phoneNumber: JsValue)
    requires email == Undefined || phoneNumber == Undefined
    requires HasContactInfo(email, phoneNumber)
    ensures var ms := Matches(t.rows, email, phoneNumber);
            |ms| > 0 ==> InsertsSecondary(policy, ms, email, phoneNumber)
    ensures |Reconcile(policy, t, email, phoneNumber).table.rows| == |t.rows| + 1
  {
    InsertionRule(policy, t, email, phoneNumber);
  }

  /** Hence repeating such a request inserts again each time: the idempotence of
      `RepeatIsStable` needs its no-`undefined` hypothesis. */
  lemma OmittedFieldRepeatGrows(policy: Policy, t: Table, email: JsValue, phoneNumber: JsValue)
    requires email == Undefined || phoneNumber == Undefined
    requires HasContactInfo(email, phoneNumber)
    ensures var t' := Reconcile(policy, t, email, phoneNumber).table;
            |Reconcile(policy, t', email, phoneNumber).table.rows| == |t.rows| + 2
  {
    OmittedFieldAlwaysInserts(policy, t, email, phoneNumber);
    OmittedFieldAlwaysInserts(policy, Reconcile(policy, t, email, phoneNumber).table, email, phoneNumber);
  }

  /** The insertion rules of the two copies: the handler's inserts whenever the service's
      does, and also when both values are already known on different rows. */
  lemma PoliciesDiffer(t: Table, email: JsValue, phoneNumber: JsValue)
    requires HasContactInfo(email, phoneNumber)
    ensures var ms := Matches(t.rows, email, phoneNumber);
            && (InsertsSecondary(NewValueOnly, ms, email, phoneNumber) ==> InsertsSecondary(UnlessExactPair, ms, email, phoneNumber))
            && (InsertsSecondary(UnlessExactPair, ms, email, phoneNumber) && !InsertsSecondary(NewValueOnly, ms, email, phoneNumber)
                <==> !HasExactPair(ms, email, phoneNumber) && EmailKnown(ms, email) && PhoneKnown(ms, phoneNumber))
    ensures var ms := Matches(t.rows, email, phoneNumber);
            |ms| > 0 && !HasExactPair(ms, email, phoneNumber) && EmailKnown(ms, email) && PhoneKnown(ms, phoneNumber) ==>
              && |Reconcile(NewValueOnly, t, email, phoneNumber).table.rows| == |t.rows|
              && |Reconcile(UnlessExactPair, t, email, phoneNumber).table.rows| == |t.rows| + 1
  {
    InsertionRule(NewValueOnly, t, email, phoneNumber);
    InsertionRule(UnlessExactPair, t, email, phoneNumber);
  }

  /** The response of an accepted call is the consolidation of the group of the resolved
      table: the rows whose id or `linkedId` is the reported primary id, oldest first,
      with distinct ids. `ConsolidateSpec` says what that consolidation lists. */
  lemma ResponseDescribesGroup(policy: Policy, t: Table, email: JsValue, phoneNumber: JsValue)
    requires TableValid(t)
    requires HasContactInfo(email, phoneNumber)
    ensures var o := Reconcile(policy, t, email, phoneNumber);
            var pid := ResolvedId(t, email, phoneNumber);
            var g := Linked(o.table.rows, pid);
            && o.result == Ok(Consolidate(g, pid))
            && (forall c :: c in g <==> c in o.table.rows && InGroup(c, pid))
            && SortedByCreatedAt(g) && DistinctIds(g)
  {
    ResolveKeepsValid(policy, t, email, phoneNumber);
    LinkedSpec(Resolve(policy, t, email, phoneNumber).rows, ResolvedId(t, email, phoneNumber));
  }

  // ---------------------------------------------------------------- scenarios

  /** The group of a primary c1 and a secondary c2 linked to it, in that order. */
  lemma LinkedPair(c1: Contact, c2: Contact)
    requires c2.linkedId == Some(c1.id)
    ensures Linked([c1, c2], c1.id) == [c1, c2]
  {
    var w := LinkedWhere(c1.id);
    assert Selects(w, c1) by {
      assert Holds(c1, w.conds[0]);
    }
    assert Selects(w, c2) by {
      assert Holds(c2, w.conds[1]);
    }
    assert Select([], w) == [];
    SelectAppend([], c1, w);
    assert [c1] == [] + [c1];
    SelectAppend([c1], c2, w);
    assert [c1, c2] == [c1] + [c2];
  }

  lemma PresentPair(a: Option<string>, b: Option<string>)
    ensures Present([a, b]) == ValueList(a) + ValueList(b)
  {
    assert [a, b][..1] == [a];
    PresentOne(a);
  }

  lemma DedupPair(x: string, y: string)
    ensures Dedup([x, y]) == if x == y then [x] else [x, y]
  {
    assert [x, y][..1] == [x];
    DedupShort([x]);
  }

  /** The response consolidated from a primary followed by one secondary. */
  lemma ConsolidatePair(c1: Contact, c2: Contact, primaryId: nat)
    requires c1.linkPrecedence == Primary && c2.linkPrecedence == Secondary
    ensures Consolidate([c1, c2], primaryId)
         == Response(primaryId,
                     Dedup(ValueList(c1.email) + ValueList(c2.email)),
                     Dedup(ValueList(c1.phoneNumber) + ValueList(c2.phoneNumber)),
                     [c2.id])
  {
    var v := Consolidate([c1, c2], primaryId);
    assert v.emails == Dedup(ValueList(c1.email) + ValueList(c2.email)) by {
      assert EmailColumn([c1, c2]) == [c1.email, c2.email];
      PresentPair(c1.email, c2.email);
    }
    assert v.phoneNumbers == Dedup(ValueList(c1.phoneNumber) + ValueList(c2.phoneNumber)) by {
      assert PhoneColumn([c1, c2]) == [c1.phoneNumber, c2.phoneNumber];
      PresentPair(c1.phoneNumber, c2.phoneNumber);
    }
    assert v.secondaryContactIds == [c2.id] by {
      assert [c1, c2][..1] == [c1] && [c1][..0] == [];
      assert SecondaryIds([c1]) == SecondaryIds([]);
    }
  }

  /** A table holding one primary, and a request that shares one of its values and brings
      a new one: under either rule the call appends a secondary linked to that primary and
      reports both rows. Nothing reads `deletedAt`, so a soft-deleted primary is matched,
      chosen and reported like any other (the first and last cases of the service's tests). */
  lemma LonePrimaryGainsSecondary(policy: Policy, c1: Contact, email: JsValue, phoneNumber: JsValue, nextId: nat, clock: nat)
    requires c1.linkPrecedence == Primary && c1.linkedId == None
    requires c1.id < nextId && c1.createdAt < clock
    requires Truthy(email) && Truthy(phoneNumber)
    requires MatchesRequest(c1, email, phoneNumber)
    requires !(c1.email == Some(email.s) && c1.phoneNumber == Some(phoneNumber.s))
    ensures var c2 := Contact(nextId, Some(email.s), Some(phoneNumber.s), Some(c1.id), Secondary, clock, None);
            Reconcile(policy, Table([c1], nextId, clock), email, phoneNumber)
              == Outcome(Table([c1, c2], nextId + 1, clock + 1),
                         Ok(Response(c1.id,
                                     Dedup(ValueList(c1.email) + [email.s]),
                                     Dedup(ValueList(c1.phoneNumber) + [phoneNumber.s]),
                                     [nextId])))
  {
    var c2 := Contact(nextId, Some(email.s), Some(phoneNumber.s), Some(c1.id), Secondary, clock, None);
    var t := Table([c1], nextId, clock);
    assert Matches([c1], email, phoneNumber) == [c1] by {
      MatchesAppend([], c1, email, phoneNumber);
      assert [c1] == [] + [c1];
    }
    assert Resolve(policy, t, email, phoneNumber) == Table([c1, c2], nextId + 1, clock + 1) by {
      assert ResolvedId(t, email, phoneNumber) == c1.id;
      assert Targets([c1], c1.id) == {};
      assert InsertsSecondary(policy, [c1], email, phoneNumber);
      DemotedNothing([c1], [c1], c1.id);
    }
    LinkedPair(c1, c2);
    ConsolidatePair(c1, c2, c1.id);
  }

  /** The soft-delete case of the service's tests: a primary whose `deletedAt` is set is
      still matched by phone and chosen, and its email is reported before the new one. */
  lemma SoftDeletedPrimaryIsReported(knownEmail: string, newEmail: string, phone: string, deletedAt: nat)
    requires knownEmail != "" && newEmail != "" && phone != "" && knownEmail != newEmail
    ensures var c7 := Contact(7, Some(knownEmail), Some(phone), None, Primary, 0, Some(deletedAt));
            var o := Reconcile(NewValueOnly, Table([c7], 8, 1), Str(newEmail), Str(phone));
            && o.result.Ok?
            && o.result.value.primaryContactId == 7
            && o.result.value.emails == [knownEmail, newEmail]
            && o.result.value.secondaryContactIds == [8]
  {
    var c7 := Contact(7, Some(knownEmail), Some(phone), None, Primary, 0, Some(deletedAt));
    LonePrimaryGainsSecondary(NewValueOnly, c7, Str(newEmail), Str(phone), 8, 1);
    DedupPair(knownEmail, newEmail);
  }

  /** The first case of the service's tests: a primary known by email gains a secondary
      carrying the new phone number, and the response lists it. */
  lemma NewPhoneIsLinked(email: string, phone: string)
    requires email != "" && phone != ""
    ensures var c1 := Contact(1, Some(email), None, None, Primary, 0, None);
            var o := Reconcile(NewValueOnly, Table([c1], 2, 1), Str(email), Str(phone));
            && o.result.Ok?
            && o.result.value.primaryContactId == 1
            && o.result.value.emails == [email]
            && o.result.value.phoneNumbers == [phone]
            && o.result.value.secondaryContactIds == [2]
  {
    var c1 := Contact(1, Some(email), None, None, Primary, 0, None);
    LonePrimaryGainsSecondary(NewValueOnly, c1, Str(email), Str(phone), 2, 1);
    DedupPair(email, email);
    DedupShort([phone]);
  }

  /** No link is followed: when every matching row is a secondary, the oldest of them is
      reported as the primary, and, being a secondary in its own group, its id is also
      listed among the secondary ids. It stays a secondary, and a row the call inserts
      is linked to it. */
  lemma ReportedPrimaryMayBeSecondary(policy: Policy, t: Table, email: JsValue, phoneNumber: JsValue)
    requires TableValid(t)
    requires HasContactInfo(email, phoneNumber)
    requires var ms := Matches(t.rows, email, phoneNumber);
             |ms| > 0 && forall j :: 0 <= j < |ms| ==> ms[j].linkPrecedence == Secondary
    ensures var ms := Matches(t.rows, email, phoneNumber);
            var o := Reconcile(policy, t, email, phoneNumber);
            && o.result.Ok?
            && o.result.value.primaryContactId == ms[0].id
            && ms[0].id in o.result.value.secondaryContactIds
            && ms[0] in o.table.rows
            && (InsertsSecondary(policy, ms, email, phoneNumber) ==>
                  o.table.rows[|t.rows|].linkedId == Some(ms[0].id))
  {
    var ms := Matches(t.rows, email, phoneNumber);
    var c := ms[0];
    var o := Reconcile(policy, t, email, phoneNumber);
    var t' := Resolve(policy, t, email, phoneNumber);
    assert c in o.table.rows by {
      MatchesSpec(t.rows, email, phoneNumber);
      assert c in ms;
      var i :| 0 <= i < |t.rows| && t.rows[i] == c;
      DemotionEffect(policy, t, email, phoneNumber);
      assert t'.rows[i] == c;
    }
    assert c.id in o.result.value.secondaryContactIds by {
      ResponseDescribesGroup(policy, t, email, phoneNumber);
      var g := Linked(t'.rows, c.id);
      assert c in g;
      ConsolidateSpec(g, c.id);
    }
    InsertionRule(policy, t, email, phoneNumber);
  }
}
