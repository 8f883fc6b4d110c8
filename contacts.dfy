/** The Contact table: the one entity, the request values as JavaScript sees them,
    and the value-level meaning of the three Prisma calls the core makes
    (`findMany` with a `where` filter, `create`, `update` by id). */
module Contacts {

  datatype Option<T> = None | Some(value: T)

  /** A field of a request body as the handlers receive it: missing (`undefined`),
      an explicit `null`, or a string. */
  datatype JsValue = Undefined | Null | Str(s: string)

  /** JavaScript truthiness of a request field: only a non-empty string is truthy. */
  predicate Truthy(v: JsValue)
  {
    v.Str? && v.s != ""
  }

  /** The column value Prisma writes when the field is passed to `create`:
      `undefined` and `null` both leave the column NULL. Read back, the column is
      `===` to the field exactly when the field was not `undefined`. */
  function Stored(v: JsValue): (r: Option<string>)
    ensures r.Some? <==> v.Str?
    ensures v.Str? ==> r.value == v.s
    ensures StrictEquals(r, v) <==> v != Undefined
  {
    if v.Str? then Some(v.s) else None
  }

  /** `column === v` between a column read back from Prisma (a string or `null`)
      and a request field: `undefined` equals no column, `null` equals a NULL column. */
  predicate StrictEquals(column: Option<string>, v: JsValue)
  {
    match v
    case Undefined => false
    case Null => column.None?
    case Str(s) => column == Some(s)
  }

  datatype Precedence = Primary | Secondary

  datatype Contact = Contact(
    id: nat,
    email: Option<string>,
    phoneNumber: Option<string>,
    linkedId: Option<nat>,
    linkPrecedence: Precedence,
    createdAt: nat,
    deletedAt: Option<nat>)

  /** The whole Contact table: its rows in the order the store returns them,
      the next autoincrement id, and the clock that stamps `createdAt`. */
  datatype Table = Table(rows: seq<Contact>, nextId: nat, clock: nat)

  predicate DistinctIds(cs: seq<Contact>)
  {
    forall i, j :: 0 <= i < j < |cs| ==> cs[i].id != cs[j].id
  }

  predicate SortedByCreatedAt(cs: seq<Contact>)
  {
    forall i, j :: 0 <= i < j < |cs| ==> cs[i].createdAt <= cs[j].createdAt
  }

  /** What every table the store holds satisfies: ids are a key, rows are kept in
      `createdAt` order (so an ordered `findMany` returns rows in store order),
      and both counters are ahead of every row. */
  predicate TableValid(t: Table)
  {
    && DistinctIds(t.rows)
    && SortedByCreatedAt(t.rows)
    && (forall i :: 0 <= i < |t.rows| ==> t.rows[i].id < t.nextId && t.rows[i].createdAt < t.clock)
  }

  /** `prisma.contact.create`: a new row with the next id, stamped with the clock. */
  function Insert(t: Table, email: Option<string>, phoneNumber: Option<string>,
                  linkedId: Option<nat>, precedence: Precedence): (t': Table)
    ensures TableValid(t) ==> TableValid(t')
    ensures |t'.rows| == |t.rows| + 1 && t'.rows[..|t.rows|] == t.rows
    ensures t'.nextId > t.nextId && t'.clock > t.clock
  {
    var c := Contact(t.nextId, email, phoneNumber, linkedId, precedence, t.clock, None);
    assert (t.rows + [c])[..|t.rows|] == t.rows;
    Table(t.rows + [c], t.nextId + 1, t.clock + 1)
  }

  /** `prisma.contact.update({ where: { id }, data: { linkPrecedence, linkedId } })`:
      the row with that id gets the two link fields; every other row is untouched. */
  function UpdateRows(cs: seq<Contact>, id: nat, precedence: Precedence, linkedId: Option<nat>): (r: seq<Contact>)
    ensures |r| == |cs|
    ensures forall i :: 0 <= i < |cs| ==> r[i].id == cs[i].id && r[i].createdAt == cs[i].createdAt
    ensures forall i :: 0 <= i < |cs| && cs[i].id != id ==> r[i] == cs[i]
    ensures forall i :: 0 <= i < |cs| && cs[i].id == id ==>
              r[i] == cs[i].(linkPrecedence := precedence, linkedId := linkedId)
  {
    seq(|cs|, i requires 0 <= i < |cs| =>
      if cs[i].id == id then cs[i].(linkPrecedence := precedence, linkedId := linkedId) else cs[i])
  }

  /** One equality of a Prisma `where` filter. */
  datatype Cond = EmailIs(email: string) | PhoneIs(phoneNumber: string) | IdIs(id: nat) | LinkedIdIs(linkedId: nat)

  /** A Prisma `where` filter: `{ OR: [...] }` or a plain object of field equalities (an AND).
      An empty OR selects nothing; an empty AND selects everything. */
  datatype Where = AnyOf(conds: seq<Cond>) | AllOf(conds: seq<Cond>)

  predicate Holds(c: Contact, k: Cond)
  {
    match k
    case EmailIs(e) => c.email == Some(e)
    case PhoneIs(p) => c.phoneNumber == Some(p)
    case IdIs(id) => c.id == id
    case LinkedIdIs(l) => c.linkedId == Some(l)
  }

  predicate Selects(w: Where, c: Contact)
  {
    match w
    case AnyOf(ks) => exists i :: 0 <= i < |ks| && Holds(c, ks[i])
    case AllOf(ks) => forall i :: 0 <= i < |ks| ==> Holds(c, ks[i])
  }

  /** `findMany({ where: w })` over the rows cs: the selected rows, in the rows' order. */
  function Select(cs: seq<Contact>, w: Where): (r: seq<Contact>)
    decreases |cs|
  {
    if |cs| == 0 then []
    else
      var r := Select(cs[..|cs| - 1], w);
      if Selects(w, cs[|cs| - 1]) then r + [cs[|cs| - 1]] else r
  }

  /** Select keeps exactly the rows the filter accepts. */
  lemma {:induction false} SelectMembers(cs: seq<Contact>, w: Where)
    ensures |Select(cs, w)| <= |cs|
    ensures forall c :: c in Select(cs, w) <==> c in cs && Selects(w, c)
    decreases |cs|
  {
    if |cs| > 0 {
      SelectMembers(cs[..|cs| - 1], w);
      assert cs == cs[..|cs| - 1] + [cs[|cs| - 1]];
    }
  }

  /** Select keeps the rows' order: sortedness by `createdAt` carries over to the result. */
  lemma {:induction false} SelectSorted(cs: seq<Contact>, w: Where)
    requires SortedByCreatedAt(cs)
    ensures SortedByCreatedAt(Select(cs, w))
    decreases |cs|
  {
    if |cs| > 0 {
      var init := cs[..|cs| - 1];
      var last := cs[|cs| - 1];
      var r := Select(init, w);
      SelectSorted(init, w);
      SelectMembers(init, w);
      if Selects(w, last) {
        var r' := r + [last];
        forall i, j | 0 <= i < j < |r'|
          ensures r'[i].createdAt <= r'[j].createdAt
        {
          assert r'[i] == r[i] && r[i] in init;
          if j == |r| {
            var k :| 0 <= k < |init| && init[k] == r[i];
            assert cs[k] == r[i];
          }
        }
      }
    }
  }

  /** Select keeps distinct ids distinct. */
  lemma {:induction false} SelectDistinct(cs: seq<Contact>, w: Where)
    requires DistinctIds(cs)
    ensures DistinctIds(Select(cs, w))
    decreases |cs|
  {
    if |cs| > 0 {
      var init := cs[..|cs| - 1];
      var last := cs[|cs| - 1];
      var r := Select(init, w);
      assert DistinctIds(init) by {
        forall i, j | 0 <= i < j < |init| ensures init[i].id != init[j].id {
          assert init[i] == cs[i] && init[j] == cs[j];
        }
      }
      SelectDistinct(init, w);
      SelectMembers(init, w);
      if Selects(w, last) {
        var r' := r + [last];
        forall i, j | 0 <= i < j < |r'|
          ensures r'[i].id != r'[j].id
        {
          assert r'[i] == r[i] && r[i] in init;
          if j == |r| {
            var k :| 0 <= k < |init| && init[k] == r[i];
            assert cs[k] == r[i];
          }
        }
      }
    }
  }

  /** Select keeps exactly the rows the filter accepts, and keeps them in order:
      sortedness by `createdAt` and distinct ids carry over to the result. */
  lemma SelectSpec(cs: seq<Contact>, w: Where)
    ensures |Select(cs, w)| <= |cs|
    ensures forall c :: c in Select(cs, w) <==> c in cs && Selects(w, c)
    ensures SortedByCreatedAt(cs) ==> SortedByCreatedAt(Select(cs, w))
    ensures DistinctIds(cs) ==> DistinctIds(Select(cs, w))
  {
    SelectMembers(cs, w);
    if SortedByCreatedAt(cs) {
      SelectSorted(cs, w);
    }
    if DistinctIds(cs) {
      SelectDistinct(cs, w);
    }
  }

  /** Selecting from a table that grew by one row selects what it selected before,
      then possibly the new row. */
  lemma SelectAppend(cs: seq<Contact>, c: Contact, w: Where)
    ensures Select(cs + [c], w) == Select(cs, w) + (if Selects(w, c) then [c] else [])
  {
    assert (cs + [c])[..|cs|] == cs;
  }

  /** A filter that no row passes selects nothing. */
  lemma SelectNone(cs: seq<Contact>, w: Where)
    requires forall i :: 0 <= i < |cs| ==> !Selects(w, cs[i])
    ensures Select(cs, w) == []
  {
    SelectSpec(cs, w);
  }

  /** A filter that every row passes selects the whole table, in order. */
  lemma {:induction false} SelectAll(cs: seq<Contact>, w: Where)
    requires forall i :: 0 <= i < |cs| ==> Selects(w, cs[i])
    ensures Select(cs, w) == cs
    decreases |cs|
  {
    if |cs| > 0 {
      SelectAll(cs[..|cs| - 1], w);
      assert cs == cs[..|cs| - 1] + [cs[|cs| - 1]];
    }
  }
}
