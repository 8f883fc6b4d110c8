/** An in-memory stand-in for the Prisma client's `contact` delegate: one table of
    rows that `create` and `update` change in place and `findMany` reads. */
module ContactStore {
  import opened Contacts

  class Store {
    var rows: seq<Contact>
    var nextId: nat
    var clock: nat

    /** The table as a value. */
    function Snapshot(): Table
      reads this
    {
      Table(rows, nextId, clock)
    }

    predicate Valid()
      reads this
    {
      TableValid(Snapshot())
    }

    /** An empty table; autoincrement ids start at 1. */
    constructor ()
      ensures Valid() && rows == [] && nextId == 1 && clock == 0
    {
      rows, nextId, clock := [], 1, 0;
    }

    /** A store opened on existing data, such as rows soft-deleted by another tool. */
    constructor Seeded(t: Table)
      requires TableValid(t)
      ensures Valid() && Snapshot() == t
    {
      rows, nextId, clock := t.rows, t.nextId, t.clock;
    }

    /** `findMany({ where: w })`; rows come back in store order, which is `createdAt` order. */
    method FindMany(w: Where) returns (found: seq<Contact>)
      ensures found == Select(rows, w)
    {
      found := [];
      var i := 0;
      while i < |rows|
        invariant 0 <= i <= |rows|
        invariant found == Select(rows[..i], w)
      {
        assert rows[..i + 1][..i] == rows[..i];
        if Selects(w, rows[i]) {
          found := found + [rows[i]];
        }
        i := i + 1;
      }
      assert rows[..|rows|] == rows;
    }

    /** `create({ data: { email, phoneNumber, linkPrecedence, linkedId } })`. */
    method Create(email: Option<string>, phoneNumber: Option<string>,
                  linkedId: Option<nat>, precedence: Precedence) returns (c: Contact)
      modifies this
      ensures old(Valid()) ==> Valid()
      ensures Snapshot() == Insert(old(Snapshot()), email, phoneNumber, linkedId, precedence)
      ensures c == Contact(old(nextId), email, phoneNumber, linkedId, precedence, old(clock), None)
      ensures rows == old(rows) + [c]
    {
      c := Contact(nextId, email, phoneNumber, linkedId, precedence, clock, None);
      rows, nextId, clock := rows + [c], nextId + 1, clock + 1;
    }

    /** `update({ where: { id }, data: { linkPrecedence, linkedId } })`. */
    method Update(id: nat, precedence: Precedence, linkedId: Option<nat>)
      modifies this
      ensures old(Valid()) ==> Valid()
      ensures rows == UpdateRows(old(rows), id, precedence, linkedId)
      ensures nextId == old(nextId) && clock == old(clock)
    {
      rows := UpdateRows(rows, id, precedence, linkedId);
    }

  }
}
