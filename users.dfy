/**
 * The `users` table: rows keyed by their serial id, and the store object whose methods
 * stand for the INSERT, UPDATE and DELETE statements the controllers issue. The table keeps
 * its schema's guarantees: every key is its row's id, no two rows share an email, and the
 * serial counter is above every id handed out.
 */
module Users {
  import opened Wrappers

  /** A row as `SELECT *` returns it. */
  datatype Row = Row(id: int, name: string, email: string, password: string, createdAt: int)

  /** A row without its password column: what `RETURNING id, name, email, created_at`
      gives, and what is left after `delete user.password`. */
  datatype PublicRow = PublicRow(id: int, name: string, email: string, createdAt: int)

  function PublicView(row: Row): PublicRow {
    PublicRow(row.id, row.name, row.email, row.createdAt)
  }

  type Table = map<int, Row>

  predicate WellKeyed(t: Table) {
    forall k :: k in t ==> t[k].id == k
  }

  predicate UniqueEmails(t: Table) {
    forall j, k :: j in t && k in t && t[j].email == t[k].email ==> j == k
  }

  predicate Consistent(t: Table) {
    WellKeyed(t) && UniqueEmails(t)
  }

  /** `SELECT * FROM users WHERE email = $1` returns at least one row. */
  predicate EmailInUse(t: Table, email: string) {
    exists k :: k in t && t[k].email == email
  }

  /** Some row other than `id` holds the email: the unique constraint rejects the UPDATE. */
  predicate EmailHeldByOther(t: Table, id: int, email: string) {
    exists k :: k in t && k != id && t[k].email == email
  }

  /** `SELECT * FROM users WHERE email = $1`, first row. */
  function FindByEmail(t: Table, email: string): (r: Option<Row>)
    requires UniqueEmails(t)
    ensures r.None? <==> !EmailInUse(t, email)
    ensures forall k :: k in t && t[k].email == email ==> r == Some(t[k])
  {
    if EmailInUse(t, email) then
      var k :| k in t && t[k].email == email;
      Some(t[k])
    else None
  }

  lemma HasElement(s: set<int>)
    requires s != {}
    ensures exists y :: y in s
  {
    assert (forall y :: y !in s) ==> s == {};
  }

  lemma HasOtherElement(s: set<int>, x: int)
    requires x in s && s != {x}
    ensures exists y :: y in s && y != x
  {
    assert (forall y :: y in s ==> y == x) ==> s == {x};
  }

  lemma {:induction false} MinimumExists(s: set<int>)
    requires s != {}
    ensures exists m :: m in s && forall k :: k in s ==> m <= k
    decreases |s|
  {
    HasElement(s);
    var x :| x in s;
    if s == {x} {
      assert forall k :: k in s ==> x <= k;
    } else {
      var s' := s - {x};
      HasOtherElement(s, x);
      var y :| y in s && y != x;
      assert y in s';
      MinimumExists(s');
      var m :| m in s' && forall k :: k in s' ==> m <= k;
      var least := if x < m then x else m;
      forall k | k in s ensures least <= k {
        if k != x { assert k in s'; }
      }
      assert least in s;
    }
  }

  /** r lists the elements of s, each once, in ascending order. */
  ghost predicate AscendingEnumeration(r: seq<int>, s: set<int>) {
    && |r| == |s|
    && (forall i :: 0 <= i < |r| ==> r[i] in s)
    && (forall k :: k in s ==> k in r)
    && (forall i, j :: 0 <= i < j < |r| ==> r[i] < r[j])
  }

  lemma AscendingCons(m: int, s: set<int>, r: seq<int>)
    requires AscendingEnumeration(r, s)
    requires forall k :: k in s ==> m < k
    ensures AscendingEnumeration([m] + r, s + {m})
  {
    assert m !in s;
    var r' := [m] + r;
    forall i | 0 <= i < |r'| ensures r'[i] in s + {m} {
      if i > 0 { assert r'[i] == r[i - 1]; }
    }
    forall k | k in s + {m} ensures k in r' {
      if k != m { assert k in r; }
    }
    forall i, j | 0 <= i < j < |r'| ensures r'[i] < r'[j] {
      assert r'[j] == r[j - 1];
      if i > 0 { assert r'[i] == r[i - 1]; }
    }
  }

  /** The keys in ascending order. */
  function SortedKeys(s: set<int>): (r: seq<int>)
    ensures AscendingEnumeration(r, s)
    decreases |s|
  {
    if s == {} then []
    else
      MinimumExists(s);
      var m :| m in s && forall k :: k in s ==> m <= k;
      var rest := SortedKeys(s - {m});
      AscendingCons(m, s - {m}, rest);
      assert s - {m} + {m} == s;
      [m] + rest
  }

  /** The rows at the given keys, in the keys' order. */
  function RowsAt(t: Table, ks: seq<int>): (r: seq<Row>)
    requires forall i :: 0 <= i < |ks| ==> ks[i] in t
    ensures |r| == |ks| && forall i :: 0 <= i < |ks| ==> r[i] == t[ks[i]]
  {
    if ks == [] then [] else [t[ks[0]]] + RowsAt(t, ks[1..])
  }

  lemma RowsAtListsTable(t: Table, ks: seq<int>)
    requires WellKeyed(t) && AscendingEnumeration(ks, t.Keys)
    ensures var r := RowsAt(t, ks);
      && |r| == |t|
      && (forall i, j :: 0 <= i < j < |r| ==> r[i].id < r[j].id)
      && (forall i :: 0 <= i < |r| ==> r[i].id in t && t[r[i].id] == r[i])
      && (forall k :: k in t ==> t[k] in r)
  {
    var r := RowsAt(t, ks);
    assert |t.Keys| == |t|;
    assert forall i :: 0 <= i < |r| ==> r[i].id == ks[i];
    forall k | k in t ensures t[k] in r {
      var i :| 0 <= i < |ks| && ks[i] == k;
      assert r[i] == t[k];
    }
  }

  /** `SELECT … FROM users ORDER BY id ASC`. */
  function RowsById(t: Table): (r: seq<Row>)
    requires WellKeyed(t)
    ensures |r| == |t|
    ensures forall i, j :: 0 <= i < j < |r| ==> r[i].id < r[j].id
    ensures forall i :: 0 <= i < |r| ==> r[i].id in t && t[r[i].id] == r[i]
    ensures forall k :: k in t ==> t[k] in r
  {
    var ks := SortedKeys(t.Keys);
    RowsAtListsTable(t, ks);
    RowsAt(t, ks)
  }

  class UserStore {
    var rows: Table
    /** The next value of the `id` column's serial sequence. */
    var nextId: int

    ghost predicate Valid()
      reads this
    {
      Consistent(rows) && 1 <= nextId && forall k :: k in rows ==> 1 <= k < nextId
    }

    constructor ()
      ensures Valid() && rows == map[] && nextId == 1
    {
      rows := map[];
      nextId := 1;
    }

    /** `INSERT INTO users (name, email, password) VALUES (…)`; created_at is `now`. None when
        the email's unique constraint refuses the row. */
    method Insert(name: string, email: string, password: string, now: int) returns (row: Option<Row>)
      requires Valid()
      modifies this
      ensures Valid()
      ensures EmailInUse(old(rows), email) ==> row == None && rows == old(rows) && nextId == old(nextId)
      ensures !EmailInUse(old(rows), email) ==>
        && old(nextId) !in old(rows)
        && row == Some(Row(old(nextId), name, email, password, now))
        && rows == old(rows)[old(nextId) := row.value]
        && nextId == old(nextId) + 1
    {
      if EmailInUse(rows, email) {
        return None;
      }
      var r := Row(nextId, name, email, password, now);
      rows := rows[nextId := r];
      nextId := nextId + 1;
      row := Some(r);
    }

    /** `UPDATE users SET name, email, password WHERE id = $4`. None when no row has the id or
        when the unique constraint refuses the new email. */
    method Update(id: int, name: string, email: string, password: string) returns (row: Option<Row>)
      requires Valid()
      modifies this
      ensures Valid() && nextId == old(nextId)
      ensures id !in old(rows) || EmailHeldByOther(old(rows), id, email) ==>
        row == None && rows == old(rows)
      ensures id in old(rows) && !EmailHeldByOther(old(rows), id, email) ==>
        && row == Some(old(rows)[id].(name := name, email := email, password := password))
        && rows == old(rows)[id := row.value]
    {
      if id !in rows || EmailHeldByOther(rows, id, email) {
        return None;
      }
      var r := rows[id].(name := name, email := email, password := password);
      rows := rows[id := r];
      row := Some(r);
    }

    /** `DELETE FROM users WHERE id = $1`; the result is the statement's row count. */
    method Delete(id: int) returns (count: nat)
      requires Valid()
      modifies this
      ensures Valid() && nextId == old(nextId)
      ensures count == if id in old(rows) then 1 else 0
      ensures rows == old(rows) - {id}
    {
      count := if id in rows then 1 else 0;
      rows := rows - {id};
    }
  }
}
