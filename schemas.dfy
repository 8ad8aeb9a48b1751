/**
 * The backend's request and response schemas: the fields a create or update request carries,
 * and the rewrite of a stored picture path into the absolute URL a response shows.
 */
module Schemas {
  import opened Wrappers
  import opened Models

  /** The backend's create/update request body; `profilePicture` defaults to `None`. */
  datatype UserCreate = UserCreate(
    name: string,
    email: string,
    phone: Option<string>,
    address: Option<string>,
    age: Option<int>,
    profilePicture: Option<string>)

  /** The request as the endpoints build it: from form fields, with no picture. */
  function FromForm(name: string, email: string, phone: Option<string>, address: Option<string>, age: Option<int>): (c: UserCreate)
    ensures c.profilePicture == None
  {
    UserCreate(name, email, phone, address, age, None)
  }

  /** `updated.dict().items()`, in field declaration order: six pairs, `profile_picture` last. */
  function DictItems(c: UserCreate): (items: seq<Attribute>)
    ensures |items| == 6 && items[5] == SetProfilePicture(c.profilePicture)
  {
    [SetName(c.name), SetEmail(c.email), SetPhone(c.phone), SetAddress(c.address), SetAge(c.age),
     SetProfilePicture(c.profilePicture)]
  }

  /** Assigning the six pairs in order overwrites every column but the key with the request's values. */
  lemma DictItemsOverwrite(u: User, c: UserCreate)
    ensures ApplyAll(u, DictItems(c)) == User(u.id, c.name, c.email, c.phone, c.address, c.age, c.profilePicture)
  {
    var items := DictItems(c);
    assert items[..0] == [];
    ApplyAllSnoc(u, items, 0);
    ApplyAllSnoc(u, items, 1);
    ApplyAllSnoc(u, items, 2);
    ApplyAllSnoc(u, items, 3);
    ApplyAllSnoc(u, items, 4);
    ApplyAllSnoc(u, items, 5);
    assert items[..6] == items;
  }

  // ---------------------------------------------------------------------------------------
  // Absolute picture URLs
  // ---------------------------------------------------------------------------------------

  /** The prefix put in front of a relative picture path. */
  const BaseUrl: string := "http://localhost:8000/"

  predicate StartsWith(s: string, prefix: string) {
    |prefix| <= |s| && s[..|prefix|] == prefix
  }

  /** `s.replace("\\", "/")`. */
  function ReplaceBackslashes(s: string): (r: string)
    ensures |r| == |s|
    ensures forall i :: 0 <= i < |s| ==> r[i] == if s[i] == '\\' then '/' else s[i]
  {
    if s == [] then [] else [if s[0] == '\\' then '/' else s[0]] + ReplaceBackslashes(s[1..])
  }

  /** `UserOut.add_base_url`: a truthy value that does not start with `http` is made absolute. */
  function AddBaseUrl(value: Option<string>): (r: Option<string>)
    ensures !Truthy(value) ==> r == value
    ensures value.Some? && StartsWith(value.value, "http") ==> r == value
    ensures Truthy(value) && !StartsWith(value.value, "http") ==>
              && r.Some?
              && |r.value| == 22 + |value.value|
              && StartsWith(r.value, BaseUrl)
              && forall i :: 0 <= i < |value.value| ==>
                   r.value[22 + i] == if value.value[i] == '\\' then '/' else value.value[i]
  {
    if Truthy(value) && !StartsWith(value.value, "http") then
      Some(BaseUrl + ReplaceBackslashes(value.value))
    else
      value
  }

  /** A rewritten value holds no backslash: path separators all became `/`. */
  lemma RewrittenHasNoBackslash(value: Option<string>)
    requires Truthy(value) && !StartsWith(value.value, "http")
    ensures AddBaseUrl(value).Some? && '\\' !in AddBaseUrl(value).value
  {
    var r := AddBaseUrl(value).value;
    forall i | 0 <= i < |r| ensures r[i] != '\\' {
      if i >= 22 {
        assert r[i] == if value.value[i - 22] == '\\' then '/' else value.value[i - 22];
      } else {
        assert r[..22] == BaseUrl;
        assert r[i] == BaseUrl[i];
      }
    }
  }

  /** A truthy value gives a truthy URL that starts with `http`. */
  lemma TruthyGivesHttp(value: Option<string>)
    requires Truthy(value)
    ensures Truthy(AddBaseUrl(value)) && StartsWith(AddBaseUrl(value).value, "http")
  {
    if !StartsWith(value.value, "http") {
      var r := AddBaseUrl(value).value;
      assert r[..4] == r[..22][..4];
    }
  }

  /** Normalising twice is normalising once. */
  lemma AddBaseUrlIdempotent(value: Option<string>)
    ensures AddBaseUrl(AddBaseUrl(value)) == AddBaseUrl(value)
  {
    if Truthy(value) {
      TruthyGivesHttp(value);
    }
  }
}
