/**
 * The backend's data-access layer on the `users` table. Each mutating call is one committed
 * transaction: a call that fails leaves the table as it was.
 *
 * What sets this tree apart is `update_user`: its request schema carries `profile_picture`
 * (default `None`), so the `setattr` loop overwrites the stored picture with it, and only a
 * truthy new upload path puts a picture back.
 */
module BackendCrud {
  import opened Wrappers
  import opened Models
  import opened Schemas

  /** The row `update_user` leaves: every request field assigned, then the upload path if truthy. */
  function Overwritten(u: User, updated: UserCreate, profilePicture: Option<string>): (r: User)
    ensures r.id == u.id
    ensures Truthy(profilePicture) ==> r.profilePicture == profilePicture
  {
    var v := ApplyAll(u, DictItems(updated));
    if Truthy(profilePicture) then v.(profilePicture := profilePicture) else v
  }

  /** `update_user` replaces every column but the key; the picture is the upload or the request's. */
  lemma OverwrittenFields(u: User, updated: UserCreate, profilePicture: Option<string>)
    ensures Overwritten(u, updated, profilePicture) ==
      User(u.id, updated.name, updated.email, updated.phone, updated.address, updated.age,
           if Truthy(profilePicture) then profilePicture else updated.profilePicture)
  {
    DictItemsOverwrite(u, updated);
  }

  /** An update from the form with no upload clears the stored picture, whatever it was. */
  lemma PictureClearedWithoutUpload(u: User, name: string, email: string, phone: Option<string>,
                                    address: Option<string>, age: Option<int>, profilePicture: Option<string>)
    requires !Truthy(profilePicture)
    ensures Overwritten(u, FromForm(name, email, phone, address, age), profilePicture).profilePicture == None
  {
    OverwrittenFields(u, FromForm(name, email, phone, address, age), profilePicture);
  }

  /** The session's view of the `users` table and of the key sequence. */
  class UserStore {
    var rows: seq<User>
    var nextId: int

    predicate Valid()
      reads this
    {
      TableInvariant(rows, nextId)
    }

    /** An empty table whose key sequence starts at 1. */
    constructor ()
      ensures Valid() && rows == [] && nextId == 1
    {
      rows := [];
      nextId := 1;
    }

    /**
     * `create_user`: a new row from the request, its picture the upload path, its key the next
     * one. A taken email fails at commit and nothing is stored.
     */
    method CreateUser(user: UserCreate, profilePicture: Option<string> := None) returns (r: Result<User, CrudError>)
      requires Valid()
      modifies this
      ensures Valid()
      ensures EmailTaken(old(rows), user.email) ==>
                r == Failure(DuplicateEmail) && rows == old(rows) && nextId == old(nextId)
      ensures !EmailTaken(old(rows), user.email) ==>
                && r.Success?
                && r.value == User(old(nextId), user.name, user.email, user.phone, user.address, user.age, profilePicture)
                && !HasId(old(rows), r.value.id)
                && rows == old(rows) + [r.value]
                && nextId == old(nextId) + 1
    {
      if EmailTaken(rows, user.email) {
        return Failure(DuplicateEmail);
      }
      var u := User(nextId, user.name, user.email, user.phone, user.address, user.age, profilePicture);
      NextIdIsFresh(rows, nextId);
      InsertKeepsInvariant(rows, nextId, u);
      rows := rows + [u];
      nextId := nextId + 1;
      r := Success(u);
    }

    /** `get_users`: at most `limit` rows, the contiguous run starting at position `skip`. */
    function GetUsers(skip: nat := 0, limit: nat := 10): (r: seq<User>)
      reads this
      ensures |r| <= limit
      ensures skip >= |rows| || limit == 0 ==> r == []
      ensures skip < |rows| ==> |r| == Min(limit, |rows| - skip)
      ensures forall i :: 0 <= i < |r| ==> r[i] == rows[skip + i]
    {
      Window(rows, skip, limit)
    }

    /** `get_user`: the row with the id, or `None` when there is none. */
    function GetUser(userId: int): (r: Option<User>)
      reads this
      ensures r.Some? <==> HasId(rows, userId)
      ensures r.Some? ==> r.value.id == userId && r.value in rows
    {
      Lookup(rows, userId)
    }

    /**
     * `update_user`: the row is fetched, the request's fields are assigned one by one, a truthy
     * upload path replaces the picture, and the row is written back. An absent id fails (the
     * source raises on `setattr(None, ...)`); an email held by another row fails at commit.
     */
    method UpdateUser(userId: int, updated: UserCreate, profilePicture: Option<string> := None) returns (r: Result<User, CrudError>)
      requires Valid()
      modifies this
      ensures Valid() && nextId == old(nextId)
      ensures !HasId(old(rows), userId) ==> r == Failure(NotFound) && rows == old(rows)
      ensures HasId(old(rows), userId) && EmailTakenByOther(old(rows), updated.email, userId) ==>
                r == Failure(DuplicateEmail) && rows == old(rows)
      ensures HasId(old(rows), userId) && !EmailTakenByOther(old(rows), updated.email, userId) ==>
                && r.Success?
                && r.value == Overwritten(Lookup(old(rows), userId).value, updated, profilePicture)
                && r.value == User(userId, updated.name, updated.email, updated.phone, updated.address, updated.age,
                                   if Truthy(profilePicture) then profilePicture else updated.profilePicture)
                && rows == ReplaceRow(old(rows), userId, r.value)
    {
      var found := Lookup(rows, userId);
      if found.None? {
        return Failure(NotFound);
      }
      var user := found.value;
      var items := DictItems(updated);
      for k := 0 to |items|
        invariant rows == old(rows) && nextId == old(nextId)
        invariant user == ApplyAll(found.value, items[..k])
      {
        ApplyAllSnoc(found.value, items, k);
        user := SetAttr(user, items[k]);
      }
      assert items[..|items|] == items;
      if Truthy(profilePicture) {
        user := user.(profilePicture := profilePicture);
      }
      OverwrittenFields(found.value, updated, profilePicture);
      if EmailTakenByOther(rows, user.email, userId) {
        return Failure(DuplicateEmail);
      }
      ReplaceKeepsInvariant(rows, nextId, userId, user);
      rows := ReplaceRow(rows, userId, user);
      r := Success(user);
    }

    /** `delete_user`: the row with the id is removed; an absent id fails (`db.delete(None)` raises). */
    method DeleteUser(userId: int) returns (r: Outcome<CrudError>)
      requires Valid()
      modifies this
      ensures Valid() && nextId == old(nextId)
      ensures !HasId(old(rows), userId) ==> r == Fail(NotFound) && rows == old(rows)
      ensures HasId(old(rows), userId) ==>
                && r == Pass
                && rows == RemoveId(old(rows), userId)
                && |rows| == |old(rows)| - 1
    {
      var found := Lookup(rows, userId);
      if found.None? {
        return Fail(NotFound);
      }
      RemoveIdCount(rows, userId);
      RemoveKeepsInvariant(rows, nextId, userId);
      rows := RemoveId(rows, userId);
      r := Pass;
    }
  }

  /** An upload on create is cleared by a later update from the form that comes without one. */
  method PictureClearedScenario(store: UserStore)
    requires store.Valid() && store.rows == []
    modifies store
    ensures store.Valid()
  {
    var created := store.CreateUser(FromForm("A", "a@x.com", None, None, None), Some("uploads/p.jpg"));
    assert created.Success? && created.value.profilePicture == Some("uploads/p.jpg");
    var u := created.value;
    assert store.rows == [u] && store.rows[0].id == u.id;
    var updated := store.UpdateUser(u.id, FromForm("B", "a@x.com", None, None, None), None);
    assert updated.Success? && updated.value.profilePicture == None;
  }

  /**
   * The round trip of the tests: create a user from the form, read it back, change its email,
   * read the change back, delete it, and find it gone.
   */
  method CreateUpdateDeleteScenario(store: UserStore)
    requires store.Valid() && store.rows == []
    modifies store
    ensures store.Valid() && store.rows == []
  {
    var created := store.CreateUser(FromForm("A", "a@x.com", None, None, None), None);
    assert created.Success? && created.value.profilePicture == None;
    var u := created.value;
    LookupAfterInsert([], u, u.id);
    assert store.GetUser(u.id) == Some(u);

    var updated := store.UpdateUser(u.id, FromForm("A", "b@x.com", None, None, None), None);
    assert updated.Success? && updated.value.email == "b@x.com";
    ReplaceRowLookup([u], u.id, updated.value, u.id);
    assert store.GetUser(u.id) == Some(updated.value);

    var deleted := store.DeleteUser(u.id);
    assert deleted == Pass;
    assert store.GetUser(u.id) == None;
  }
}
