/**
 * The `users` table: the shape of one row, the constraints the schema declares, and the
 * meaning of the queries and row edits the data-access layer performs on it.
 *
 * The table is a sequence of rows in the order the database engine returns them; nothing
 * here depends on that order beyond a page being a contiguous run of it.
 */
module Models {
  import opened Wrappers

  /** One row: `id` is the primary key, `name` and `email` are NOT NULL, the rest nullable. */
  datatype User = User(
    id: int,
    name: string,
    email: string,
    phone: Option<string>,
    address: Option<string>,
    age: Option<int>,
    profilePicture: Option<string>)

  /** The failures the data-access layer surfaces instead of raising. */
  datatype CrudError =
    | NotFound        // no row has the requested id
    | DuplicateEmail  // the UNIQUE constraint on `email` rejects the commit

  /** Python truthiness of an optional string: `None` and `""` are false. */
  predicate Truthy(s: Option<string>) {
    s.Some? && s.value != ""
  }

  // ---------------------------------------------------------------------------------------
  // Column assignment, as `setattr(user, field, value)` does it
  // ---------------------------------------------------------------------------------------

  /** One `(field, value)` pair of a request schema's `.dict().items()`. */
  datatype Attribute =
    | SetName(string)
    | SetEmail(string)
    | SetPhone(Option<string>)
    | SetAddress(Option<string>)
    | SetAge(Option<int>)
    | SetProfilePicture(Option<string>)

  /** `setattr(u, field, value)` for one pair. */
  function SetAttr(u: User, a: Attribute): (r: User)
    ensures r.id == u.id
  {
    match a
    case SetName(v) => u.(name := v)
    case SetEmail(v) => u.(email := v)
    case SetPhone(v) => u.(phone := v)
    case SetAddress(v) => u.(address := v)
    case SetAge(v) => u.(age := v)
    case SetProfilePicture(v) => u.(profilePicture := v)
  }

  /** The row after the pairs of `items` have been assigned in order; the key is never touched. */
  function ApplyAll(u: User, items: seq<Attribute>): (r: User)
    ensures r.id == u.id
  {
    if items == [] then u else SetAttr(ApplyAll(u, items[..|items| - 1]), items[|items| - 1])
  }

  /** Assigning one more pair after a prefix is the fold over the longer prefix. */
  lemma ApplyAllSnoc(u: User, items: seq<Attribute>, k: nat)
    requires k < |items|
    ensures ApplyAll(u, items[..k + 1]) == SetAttr(ApplyAll(u, items[..k]), items[k])
  {
    assert items[..k + 1][..k] == items[..k];
  }

  // ---------------------------------------------------------------------------------------
  // Table constraints
  // ---------------------------------------------------------------------------------------

  /** PRIMARY KEY: no two rows share an id. */
  predicate UniqueIds(rows: seq<User>) {
    forall i, j :: 0 <= i < j < |rows| ==> rows[i].id != rows[j].id
  }

  /** UNIQUE on `email`. */
  predicate UniqueEmails(rows: seq<User>) {
    forall i, j :: 0 <= i < j < |rows| ==> rows[i].email != rows[j].email
  }

  /** Every id was drawn from the key sequence, which starts at 1 and is now at `nextId`. */
  predicate IdsBelow(rows: seq<User>, nextId: int) {
    forall i :: 0 <= i < |rows| ==> 1 <= rows[i].id < nextId
  }

  /** The constraints every committed state of the table meets; the next key is then free. */
  predicate TableInvariant(rows: seq<User>, nextId: int)
    ensures TableInvariant(rows, nextId) ==> !HasId(rows, nextId)
  {
    1 <= nextId && UniqueIds(rows) && UniqueEmails(rows) && IdsBelow(rows, nextId)
  }

  predicate HasId(rows: seq<User>, id: int) {
    exists i :: 0 <= i < |rows| && rows[i].id == id
  }

  predicate EmailTaken(rows: seq<User>, email: string) {
    exists i :: 0 <= i < |rows| && rows[i].email == email
  }

  /** Some row other than the one keyed `id` already holds `email`. */
  predicate EmailTakenByOther(rows: seq<User>, email: string, id: int) {
    exists i :: 0 <= i < |rows| && rows[i].email == email && rows[i].id != id
  }

  /** The next value of the key sequence is not the id of any row. */
  lemma NextIdIsFresh(rows: seq<User>, nextId: int)
    requires IdsBelow(rows, nextId)
    ensures !HasId(rows, nextId)
  {
  }

  /** Inserting a row keyed by the next id, with an email not yet taken, keeps every constraint. */
  lemma InsertKeepsInvariant(rows: seq<User>, nextId: int, u: User)
    requires TableInvariant(rows, nextId)
    requires u.id == nextId && !EmailTaken(rows, u.email)
    ensures TableInvariant(rows + [u], nextId + 1)
  {
    var s := rows + [u];
    forall i, j | 0 <= i < j < |s| ensures s[i].id != s[j].id && s[i].email != s[j].email {
      if j == |rows| {
        assert s[i] == rows[i];
      }
    }
  }

  // ---------------------------------------------------------------------------------------
  // Queries
  // ---------------------------------------------------------------------------------------

  function Min(a: int, b: int): int {
    if a <= b then a else b
  }

  /** `query(User).offset(skip).limit(limit).all()`. */
  function Window(rows: seq<User>, skip: nat, limit: nat): (r: seq<User>)
    ensures |r| == if skip >= |rows| then 0 else Min(limit, |rows| - skip)
    ensures r == [] <==> (skip >= |rows| || limit == 0)
    ensures forall i :: 0 <= i < |r| ==> r[i] == rows[skip + i]
  {
    if skip >= |rows| then [] else rows[skip..skip + Min(limit, |rows| - skip)]
  }

  /** Two consecutive pages are the page of their combined size: paging misses and repeats nothing. */
  lemma ConsecutivePages(rows: seq<User>, skip: nat, a: nat, b: nat)
    ensures Window(rows, skip, a) + Window(rows, skip + a, b) == Window(rows, skip, a + b)
  {
    var w1, w2, w := Window(rows, skip, a), Window(rows, skip + a, b), Window(rows, skip, a + b);
    assert |w1 + w2| == |w|;
    forall i | 0 <= i < |w| ensures (w1 + w2)[i] == w[i] {
      if i >= |w1| {
        assert (w1 + w2)[i] == w2[i - |w1|];
      }
    }
  }

  /** `query(User).filter(User.id == id).first()`. */
  function Lookup(rows: seq<User>, id: int): (r: Option<User>)
    ensures r.Some? <==> HasId(rows, id)
    ensures r.Some? ==> r.value.id == id && r.value in rows
  {
    if rows == [] then None
    else if rows[0].id == id then Some(rows[0])
    else
      var rest := Lookup(rows[1..], id);
      assert HasId(rows[1..], id) ==> HasId(rows, id) by {
        if HasId(rows[1..], id) {
          var i :| 0 <= i < |rows| - 1 && rows[1..][i].id == id;
          assert rows[i + 1].id == id;
        }
      }
      assert HasId(rows, id) ==> HasId(rows[1..], id) by {
        if HasId(rows, id) {
          var i :| 0 <= i < |rows| && rows[i].id == id;
          assert rows[1..][i - 1].id == id;
        }
      }
      rest
  }

  /** With unique keys the row a lookup finds is the one that has the id. */
  lemma {:induction false} LookupAt(rows: seq<User>, i: nat)
    requires UniqueIds(rows) && i < |rows|
    ensures Lookup(rows, rows[i].id) == Some(rows[i])
  {
    if i > 0 {
      assert rows[0].id != rows[i].id;
      assert UniqueIds(rows[1..]) by {
        forall a, b | 0 <= a < b < |rows| - 1 ensures rows[1..][a].id != rows[1..][b].id {
          assert rows[1..][a] == rows[a + 1] && rows[1..][b] == rows[b + 1];
        }
      }
      assert rows[1..][i - 1] == rows[i];
      LookupAt(rows[1..], i - 1);
    }
  }

  /** A row appended under a fresh key is found by its id, and every other lookup is as before. */
  lemma {:induction false} LookupAfterInsert(rows: seq<User>, u: User, id: int)
    requires !HasId(rows, u.id)
    ensures Lookup(rows + [u], u.id) == Some(u)
    ensures id != u.id ==> Lookup(rows + [u], id) == Lookup(rows, id)
  {
    if rows != [] {
      assert (rows + [u])[1..] == rows[1..] + [u];
      assert (rows + [u])[0] == rows[0];
      assert !HasId(rows[1..], u.id) by {
        forall k | 0 <= k < |rows| - 1 ensures rows[1..][k].id != u.id {
          assert rows[1..][k] == rows[k + 1];
        }
      }
      LookupAfterInsert(rows[1..], u, id);
    }
  }

  // ---------------------------------------------------------------------------------------
  // Row edits
  // ---------------------------------------------------------------------------------------

  /** The table after the row keyed `id` has been overwritten by `u`. */
  function ReplaceRow(rows: seq<User>, id: int, u: User): (r: seq<User>)
    ensures |r| == |rows|
    ensures forall i :: 0 <= i < |rows| ==> r[i] == if rows[i].id == id then u else rows[i]
  {
    if rows == [] then []
    else [if rows[0].id == id then u else rows[0]] + ReplaceRow(rows[1..], id, u)
  }

  /** After the overwrite the id finds the new row and every other id finds what it found before. */
  lemma {:induction false} ReplaceRowLookup(rows: seq<User>, id: int, u: User, other: int)
    requires HasId(rows, id) && u.id == id
    ensures Lookup(ReplaceRow(rows, id, u), id) == Some(u)
    ensures other != id ==> Lookup(ReplaceRow(rows, id, u), other) == Lookup(rows, other)
  {
    var r := ReplaceRow(rows, id, u);
    assert r[0] == if rows[0].id == id then u else rows[0];
    assert r[1..] == ReplaceRow(rows[1..], id, u);
    if rows[0].id != id {
      assert HasId(rows[1..], id) by {
        var k :| 0 <= k < |rows| && rows[k].id == id;
        assert rows[1..][k - 1].id == id;
      }
      ReplaceRowLookup(rows[1..], id, u, other);
    } else if other != id {
      ReplaceRowOthers(rows[1..], id, u, other);
    }
  }

  /** Overwriting rows keyed `id` leaves a lookup of any other id as it was. */
  lemma {:induction false} ReplaceRowOthers(rows: seq<User>, id: int, u: User, other: int)
    requires u.id == id && other != id
    ensures Lookup(ReplaceRow(rows, id, u), other) == Lookup(rows, other)
  {
    if rows != [] {
      var r := ReplaceRow(rows, id, u);
      assert r[0] == if rows[0].id == id then u else rows[0];
      assert r[1..] == ReplaceRow(rows[1..], id, u);
      ReplaceRowOthers(rows[1..], id, u, other);
    }
  }

  /** Overwriting a row with one that keeps its key and takes no other row's email keeps every constraint. */
  lemma ReplaceKeepsInvariant(rows: seq<User>, nextId: int, id: int, u: User)
    requires TableInvariant(rows, nextId)
    requires HasId(rows, id) && u.id == id && !EmailTakenByOther(rows, u.email, id)
    ensures TableInvariant(ReplaceRow(rows, id, u), nextId)
  {
    var r := ReplaceRow(rows, id, u);
    forall i, j | 0 <= i < j < |r| ensures r[i].id != r[j].id && r[i].email != r[j].email {
      if rows[i].id == id {
        assert rows[j].id != id;
      } else if rows[j].id == id {
        assert rows[i].id != id;
      }
    }
    assert IdsBelow(r, nextId) by {
      forall i | 0 <= i < |r| ensures 1 <= r[i].id < nextId {
        if rows[i].id == id {
          assert r[i].id == rows[i].id;
        }
      }
    }
  }

  /** `db.delete(row)` of the rows keyed `id`. */
  function RemoveId(rows: seq<User>, id: int): (r: seq<User>)
    ensures |r| <= |rows|
    ensures forall u :: u in r <==> u in rows && u.id != id
  {
    if rows == [] then []
    else if rows[0].id == id then RemoveId(rows[1..], id)
    else [rows[0]] + RemoveId(rows[1..], id)
  }

  /** After the removal the id finds nothing and every other id finds what it found before. */
  lemma {:induction false} RemoveIdLookup(rows: seq<User>, id: int, other: int)
    ensures Lookup(RemoveId(rows, id), id) == None
    ensures other != id ==> Lookup(RemoveId(rows, id), other) == Lookup(rows, other)
  {
    if rows != [] {
      RemoveIdLookup(rows[1..], id, other);
      if rows[0].id != id {
        assert ([rows[0]] + RemoveId(rows[1..], id))[1..] == RemoveId(rows[1..], id);
      }
    }
  }

  /** With unique keys removing a present id removes exactly one row; an absent id removes none. */
  lemma {:induction false} RemoveIdCount(rows: seq<User>, id: int)
    requires UniqueIds(rows)
    ensures HasId(rows, id) ==> |RemoveId(rows, id)| == |rows| - 1
    ensures !HasId(rows, id) ==> RemoveId(rows, id) == rows
  {
    if rows != [] {
      var tail := rows[1..];
      assert UniqueIds(tail) by {
        forall a, b | 0 <= a < b < |tail| ensures tail[a].id != tail[b].id {
          assert tail[a] == rows[a + 1] && tail[b] == rows[b + 1];
        }
      }
      RemoveIdCount(tail, id);
      if rows[0].id == id {
        assert !HasId(tail, id) by {
          forall k | 0 <= k < |tail| ensures tail[k].id != id {
            assert tail[k] == rows[k + 1];
          }
        }
      } else {
        assert HasId(rows, id) <==> HasId(tail, id) by {
          if HasId(rows, id) {
            var k :| 0 <= k < |rows| && rows[k].id == id;
            assert tail[k - 1].id == id;
          }
          if HasId(tail, id) {
            var k :| 0 <= k < |tail| && tail[k].id == id;
            assert rows[k + 1].id == id;
          }
        }
        assert rows == [rows[0]] + tail;
      }
    }
  }

  /** The rows after the first satisfy every constraint, and none shares the first row's key or email. */
  lemma TailInvariant(rows: seq<User>, nextId: int)
    requires TableInvariant(rows, nextId) && rows != []
    ensures TableInvariant(rows[1..], nextId)
    ensures forall v :: v in rows[1..] ==> v.id != rows[0].id && v.email != rows[0].email
  {
    var tail := rows[1..];
    forall a, b | 0 <= a < b < |tail|
      ensures tail[a].id != tail[b].id && tail[a].email != tail[b].email
    {
      assert tail[a] == rows[a + 1] && tail[b] == rows[b + 1];
    }
    forall a | 0 <= a < |tail| ensures 1 <= tail[a].id < nextId {
      assert tail[a] == rows[a + 1];
    }
    forall v | v in tail ensures v.id != rows[0].id && v.email != rows[0].email {
      var k :| 0 <= k < |tail| && tail[k] == v;
      assert rows[k + 1] == v;
    }
  }

  /** A row whose key and email no other row has can be put in front of a valid table. */
  lemma ConsKeepsInvariant(x: User, s: seq<User>, nextId: int)
    requires TableInvariant(s, nextId) && 1 <= x.id < nextId
    requires forall v :: v in s ==> v.id != x.id && v.email != x.email
    ensures TableInvariant([x] + s, nextId)
  {
    var r := [x] + s;
    forall a, b | 0 <= a < b < |r| ensures r[a].id != r[b].id && r[a].email != r[b].email {
      assert r[b] == s[b - 1];
      if a > 0 {
        assert r[a] == s[a - 1];
      }
    }
    forall a | 0 <= a < |r| ensures 1 <= r[a].id < nextId {
      if a > 0 {
        assert r[a] == s[a - 1];
      }
    }
  }

  /** Removing rows keeps every constraint. */
  lemma {:induction false} RemoveKeepsInvariant(rows: seq<User>, nextId: int, id: int)
    requires TableInvariant(rows, nextId)
    ensures TableInvariant(RemoveId(rows, id), nextId)
  {
    if rows != [] {
      TailInvariant(rows, nextId);
      RemoveKeepsInvariant(rows[1..], nextId, id);
      if rows[0].id != id {
        ConsKeepsInvariant(rows[0], RemoveId(rows[1..], id), nextId);
      }
    }
  }
}
