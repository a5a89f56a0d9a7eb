/** The two SQLite tables of the switcher:
      accounts (email TEXT PRIMARY KEY, name TEXT, is_active INTEGER)
      ssh_keys (email TEXT PRIMARY KEY, private_key BLOB, public_key BLOB)
    `accounts` is a sequence of rows in rowid order, which is the order in
    which an unordered SELECT hands rows back; `ssh_keys` is only ever read by
    key, so it is a map. Each function is one SQL statement. */
module Tables {
  import opened Common

  /** One row of `accounts`; `is_active` only ever holds 0 or 1. */
  datatype Row = Row(email: Email, name: string, isActive: bool)

  type Rows = seq<Row>

  type KeyTable = map<Email, KeyPair>

  /** The primary keys present in `accounts`. */
  function Emails(t: Rows): set<Email> {
    set x | x in t :: x.email
  }

  /** The e-mails of the rows with is_active = 1. */
  function ActiveEmails(t: Rows): set<Email> {
    set x | x in t && x.isActive :: x.email
  }

  /** The PRIMARY KEY constraint: no e-mail occurs in two rows. */
  predicate UniqueEmails(t: Rows) {
    forall i, j :: 0 <= i < |t| && 0 <= j < |t| && t[i].email == t[j].email ==> i == j
  }

  /** At most one account is active: every active row carries the same e-mail
      (with unique e-mails, that is one row). */
  predicate AtMostOneActive(t: Rows) {
    forall x, y :: x in t && y in t && x.isActive && y.isActive ==> x.email == y.email
  }

  /** `SELECT ... FROM accounts WHERE email = ?`: the first row with that key. */
  function Find(t: Rows, e: Email): (o: Option<Row>)
    ensures o.Some? ==> o.value in t && o.value.email == e
    ensures o.None? <==> e !in Emails(t)
  {
    if |t| == 0 then None
    else if t[0].email == e then Some(t[0])
    else
      assert forall x :: x in t[1..] ==> x in t;
      assert Emails(t) == {t[0].email} + Emails(t[1..]) by {
        assert t == [t[0]] + t[1..];
      }
      Find(t[1..], e)
  }

  /** `UPDATE accounts SET is_active = 0`: every row keeps its key and name and
      is inactive afterwards. */
  function SetAllInactive(t: Rows): (r: Rows)
    ensures |r| == |t|
    ensures forall i :: 0 <= i < |t| ==>
      r[i].email == t[i].email && r[i].name == t[i].name && !r[i].isActive
  {
    seq(|t|, i requires 0 <= i < |t| => t[i].(isActive := false))
  }

  /** `UPDATE accounts SET is_active = 1 WHERE email = ?`: the matching rows
      become active, every other row is left exactly as it was. */
  function SetActiveWhere(t: Rows, e: Email): (r: Rows)
    ensures |r| == |t|
    ensures forall i :: 0 <= i < |t| ==>
      r[i].email == t[i].email && r[i].name == t[i].name
      && r[i].isActive == (t[i].isActive || t[i].email == e)
  {
    seq(|t|, i requires 0 <= i < |t| => if t[i].email == e then t[i].(isActive := true) else t[i])
  }

  /** `DELETE FROM accounts WHERE email = ?`: a row survives exactly when its
      key differs from `e`. */
  function DeleteWhere(t: Rows, e: Email): (r: Rows)
    ensures forall x :: x in r <==> x in t && x.email != e
    ensures Emails(r) == Emails(t) - {e}
    ensures |r| <= |t|
  {
    if |t| == 0 then []
    else
      var rest := DeleteWhere(t[1..], e);
      assert forall x :: x in t <==> x == t[0] || x in t[1..] by {
        assert t == [t[0]] + t[1..];
      }
      if t[0].email == e then rest else [t[0]] + rest
  }

  /** `SELECT email, name FROM accounts WHERE is_active = 0`, in table order. */
  function SelectInactive(t: Rows): (r: Rows)
    ensures forall x :: x in r <==> x in t && !x.isActive
    ensures |r| <= |t|
  {
    if |t| == 0 then []
    else
      var rest := SelectInactive(t[1..]);
      assert forall x :: x in t <==> x == t[0] || x in t[1..] by {
        assert t == [t[0]] + t[1..];
      }
      if t[0].isActive then rest else [t[0]] + rest
  }

  /** `INSERT INTO accounts VALUES (...)`: appends the row, unless its key is
      taken, in which case the PRIMARY KEY constraint rejects it and the table
      is unchanged. */
  function Insert(t: Rows, row: Row): (r: Rows)
    ensures Emails(r) == Emails(t) + {row.email}
    ensures row.email !in Emails(t) ==> |r| == |t| + 1 && r[..|t|] == t && r[|t|] == row
    ensures row.email in Emails(t) ==> r == t
  {
    if row.email in Emails(t) then t else t + [row]
  }

  /** `INSERT INTO ssh_keys VALUES (...)`, with the same PRIMARY KEY rule. */
  function InsertKey(k: KeyTable, e: Email, kp: KeyPair): (r: KeyTable)
    ensures r.Keys == k.Keys + {e}
    ensures e !in k ==> r[e] == kp
    ensures forall x :: x in k ==> r[x] == k[x]
  {
    if e in k then k else k[e := kp]
  }

  /** Deleting by key keeps every key distinct. */
  lemma {:induction false} DeleteWherePreservesUnique(t: Rows, e: Email)
    requires UniqueEmails(t)
    ensures UniqueEmails(DeleteWhere(t, e))
  {
    if |t| > 0 {
      var tail := t[1..];
      assert UniqueEmails(tail) by {
        forall i, j | 0 <= i < |tail| && 0 <= j < |tail| && tail[i].email == tail[j].email
          ensures i == j
        {
          assert t[i + 1].email == t[j + 1].email;
        }
      }
      DeleteWherePreservesUnique(tail, e);
      var rest := DeleteWhere(tail, e);
      if t[0].email != e {
        assert forall x :: x in tail ==> x.email != t[0].email by {
          forall k | 0 <= k < |tail|
            ensures tail[k].email != t[0].email
          {
            assert tail[k] == t[k + 1];
          }
        }
        var r := [t[0]] + rest;
        assert forall j :: 1 <= j < |r| ==> r[j] == rest[j - 1];
        forall i, j | 0 <= i < |r| && 0 <= j < |r| && r[i].email == r[j].email
          ensures i == j
        {
          if i > 0 && j > 0 {
            assert rest[i - 1].email == rest[j - 1].email;
          }
        }
      }
    }
  }

  /** Filtering on is_active keeps every key distinct. */
  lemma {:induction false} SelectInactivePreservesUnique(t: Rows)
    requires UniqueEmails(t)
    ensures UniqueEmails(SelectInactive(t))
  {
    if |t| > 0 {
      var tail := t[1..];
      assert UniqueEmails(tail) by {
        forall i, j | 0 <= i < |tail| && 0 <= j < |tail| && tail[i].email == tail[j].email
          ensures i == j
        {
          assert t[i + 1].email == t[j + 1].email;
        }
      }
      SelectInactivePreservesUnique(tail);
      var rest := SelectInactive(tail);
      if !t[0].isActive {
        assert forall x :: x in tail ==> x.email != t[0].email by {
          forall k | 0 <= k < |tail|
            ensures tail[k].email != t[0].email
          {
            assert tail[k] == t[k + 1];
          }
        }
        var r := [t[0]] + rest;
        assert forall j :: 1 <= j < |r| ==> r[j] == rest[j - 1];
        forall i, j | 0 <= i < |r| && 0 <= j < |r| && r[i].email == r[j].email
          ensures i == j
        {
          if i > 0 && j > 0 {
            assert rest[i - 1].email == rest[j - 1].email;
          }
        }
      }
    }
  }

  /** Two tables whose rows agree index by index on their keys have the same
      key set. */
  lemma SameEmails(t: Rows, r: Rows)
    requires |t| == |r|
    requires forall i :: 0 <= i < |t| ==> r[i].email == t[i].email
    ensures Emails(r) == Emails(t)
  {
    forall e | e in Emails(t) ensures e in Emails(r) {
      var x :| x in t && x.email == e;
      var i :| 0 <= i < |t| && t[i] == x;
      assert r[i] in r;
    }
    forall e | e in Emails(r) ensures e in Emails(t) {
      var x :| x in r && x.email == e;
      var i :| 0 <= i < |r| && r[i] == x;
      assert t[i] in t;
    }
  }

  /** The two UPDATEs of an activation keep the keys, keep them unique, and
      leave exactly `e` active (nothing, when `e` has no row). */
  lemma ActivateRows(t: Rows, e: Email)
    requires UniqueEmails(t)
    ensures var r := SetActiveWhere(SetAllInactive(t), e);
      && Emails(r) == Emails(t)
      && UniqueEmails(r)
      && AtMostOneActive(r)
      && ActiveEmails(r) == (if e in Emails(t) then {e} else {})
  {
    var r := SetActiveWhere(SetAllInactive(t), e);
    SameEmails(t, r);
    forall x | x in r && x.isActive ensures x.email == e {
      var i :| 0 <= i < |r| && r[i] == x;
    }
    if e in Emails(t) {
      var x :| x in t && x.email == e;
      var i :| 0 <= i < |t| && t[i] == x;
      assert r[i] in r && r[i].isActive;
    }
  }

  /** The two statements of an add (deactivate all, insert the new row
      active) on a fresh key: keys stay unique, the new key joins them, every
      old row is kept but inactive, and the new row is the only active one. */
  lemma AddRows(t: Rows, row: Row)
    requires UniqueEmails(t) && row.email !in Emails(t) && row.isActive
    ensures var r := Insert(SetAllInactive(t), row);
      && r == SetAllInactive(t) + [row]
      && Emails(r) == Emails(t) + {row.email}
      && UniqueEmails(r)
      && AtMostOneActive(r)
      && ActiveEmails(r) == {row.email}
      && row in r
      && forall x :: x in t ==> x.(isActive := false) in r
  {
    var off := SetAllInactive(t);
    SameEmails(t, off);
    var r := Insert(off, row);
    assert r == off + [row];
    forall x | x in t ensures x.(isActive := false) in r {
      var i :| 0 <= i < |t| && t[i] == x;
      assert r[i] == x.(isActive := false);
    }
    forall x | x in r && x.isActive ensures x == row {
      var i :| 0 <= i < |r| && r[i] == x;
    }
    assert r[|off|] in r;
  }

  /** A table has no keys exactly when it has no rows. */
  lemma EmailsEmpty(t: Rows)
    ensures Emails(t) == {} <==> t == []
  {
    if t != [] {
      assert t[0] in t;
      assert t[0].email in Emails(t);
    }
  }

  /** With unique keys, a row is determined by its e-mail: `Find` returns the
      one row of the table that carries it. */
  lemma FindUnique(t: Rows, x: Row)
    requires UniqueEmails(t)
    requires x in t
    ensures Find(t, x.email) == Some(x)
  {
    var y := Find(t, x.email).value;
    var i :| 0 <= i < |t| && t[i] == x;
    var j :| 0 <= j < |t| && t[j] == y;
  }

  /** With unique keys, "at most one active e-mail" is "at most one active
      row". */
  lemma AtMostOneActiveRow(t: Rows, i: int, j: int)
    requires UniqueEmails(t) && AtMostOneActive(t)
    requires 0 <= i < |t| && 0 <= j < |t| && t[i].isActive && t[j].isActive
    ensures i == j
  {
    assert t[i] in t && t[j] in t;
  }
}
