/** The Innobot tree's request schema: it has no `profile_picture` field. */
module InnobotSchemas {
  import opened Wrappers
  import opened Models

  /** The Innobot create/update request body. */
  datatype UserCreate = UserCreate(
    name: string,
    email: string,
    phone: Option<string>,
    address: Option<string>,
    age: Option<int>)

  /** `updated.dict().items()`, in field declaration order: five pairs, none for the picture. */
  function DictItems(c: UserCreate): (items: seq<Attribute>)
    ensures |items| == 5 && forall i :: 0 <= i < |items| ==> !items[i].SetProfilePicture?
  {
    [SetName(c.name), SetEmail(c.email), SetPhone(c.phone), SetAddress(c.address), SetAge(c.age)]
  }

  /** Assigning the five pairs overwrites those columns and leaves the key and the picture alone. */
  lemma DictItemsOverwrite(u: User, c: UserCreate)
    ensures ApplyAll(u, DictItems(c)) == User(u.id, c.name, c.email, c.phone, c.address, c.age, u.profilePicture)
  {
    var items := DictItems(c);
    assert items[..0] == [];
    ApplyAllSnoc(u, items, 0);
    ApplyAllSnoc(u, items, 1);
    ApplyAllSnoc(u, items, 2);
    ApplyAllSnoc(u, items, 3);
    ApplyAllSnoc(u, items, 4);
    assert items[..5] == items;
  }
}
