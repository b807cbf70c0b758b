/**
 * The user queries and the profile update: `getCurrentUser`, `editProfile`, `getOtherUsers`
 * and `search`. The caller's id is the one the authentication middleware put on the request.
 */
module UserController {
  import opened Common
  import opened Models
  import opened Collections
  import opened Store

  const UserNotFound := "user not found"
  const QueryRequired := "query is required"

  /** `User.findById(userId)`: the position of the user with that id. */
  function FindUser(users: seq<User>, userId: UserId): (r: Option<nat>)
    ensures r.Some? ==> r.value < |users| && users[r.value].id == userId
    ensures r.None? ==> forall j | 0 <= j < |users| :: users[j].id != userId
    ensures UsersValid(users) ==> (r.Some? <==> userId < |users|)
    ensures UsersValid(users) && r.Some? ==> r.value == userId
  {
    var r := FindFirst(users, (u: User) => u.id == userId);
    assert UsersValid(users) && userId < |users| ==> users[userId].id == userId;
    assert UsersValid(users) && r.Some? ==> users[r.value].id == r.value;
    r
  }

  /** `getCurrentUser`: the caller's record without its password, or 400 when there is none. */
  function GetCurrentUser(users: seq<User>, userId: UserId): (r: Response<PublicUser>)
    ensures r.Fail? <==> forall j | 0 <= j < |users| :: users[j].id != userId
    ensures r.Fail? ==> r == Fail(400, UserNotFound)
    ensures r.Ok? ==> r.status == 200 && r.body.id == userId
                      && exists j | 0 <= j < |users| :: r.body == WithoutPassword(users[j])
  {
    match FindUser(users, userId)
    case None => Fail(400, UserNotFound)
    case Some(i) => Ok(200, WithoutPassword(users[i]))
  }

  /**
   * The record `findByIdAndUpdate(userId, { name, image }, { new: true })` returns: an absent
   * name or image leaves that field as it was, and the update stamps `updatedAt`.
   */
  function ProfileUpdate(u: User, name: Option<string>, image: Option<string>, now: Time): (r: User)
    ensures r.name == (if name.Some? then name else u.name)
    ensures r.image == image.GetOr(u.image)
    ensures r.updatedAt == now
    ensures r.(name := u.name, image := u.image, updatedAt := u.updatedAt) == u
  {
    u.(name := if name.Some? then name else u.name, image := image.GetOr(u.image), updatedAt := now)
  }

  /** A profile update leaves ids, required fields and uniqueness as they were. */
  lemma {:induction false} ProfileUpdateKeepsUsersValid(users: seq<User>, i: nat, name: Option<string>,
                                                        image: Option<string>, now: Time)
    requires UsersValid(users) && i < |users|
    ensures UsersValid(users[i := ProfileUpdate(users[i], name, image, now)])
  {
    var after := users[i := ProfileUpdate(users[i], name, image, now)];
    assert forall j | 0 <= j < |users| ::
      after[j].id == users[j].id && after[j].userName == users[j].userName
      && after[j].email == users[j].email && after[j].password == users[j].password;
  }

  /**
   * `editProfile`: take the name from the body and the image from the upload (absent when no
   * file came or the upload failed), update the caller's record and answer with it, password
   * included; 400 and no change when the caller has no record.
   */
  method EditProfile(db: Database, userId: UserId, name: Option<string>, upload: Option<string>, now: Time)
    returns (res: Response<User>)
    requires db.Valid()
    modifies db`users
    ensures db.Valid()
    ensures userId < |old(db.users)| ==>
              && db.users == old(db.users)[userId := ProfileUpdate(old(db.users)[userId], name, upload, now)]
              && res == Ok(200, db.users[userId])
    ensures userId >= |old(db.users)| ==> db.users == old(db.users) && res == Fail(400, UserNotFound)
  {
    var image := upload;
    var found := FindUser(db.users, userId);
    if found.None? {
      return Fail(400, UserNotFound);
    }
    var i := found.value;
    var user := ProfileUpdate(db.users[i], name, image, now);
    ProfileUpdateKeepsUsersValid(db.users, i, name, image, now);
    db.users := db.users[i := user];
    res := Ok(200, user);
  }

  /** A profile edit touches the caller's record only, and in it only the name, image and update time. */
  lemma {:induction false} EditProfileTouchesOnlyCaller(users: seq<User>, userId: UserId, name: Option<string>,
                                                        image: Option<string>, now: Time)
    requires userId < |users|
    ensures var after := users[userId := ProfileUpdate(users[userId], name, image, now)];
      && |after| == |users|
      && (forall j | 0 <= j < |users| && j != userId :: after[j] == users[j])
      && after[userId].id == users[userId].id
      && after[userId].userName == users[userId].userName
      && after[userId].email == users[userId].email
      && after[userId].password == users[userId].password
      && after[userId].createdAt == users[userId].createdAt
  {
    var u := users[userId];
    var r := ProfileUpdate(u, name, image, now);
    assert r.(name := u.name, image := u.image, updatedAt := u.updatedAt) == u;
  }

  /** `select("-password")` applied to every record of a result. */
  function WithoutPasswords(users: seq<User>): (r: seq<PublicUser>)
    ensures |r| == |users|
    ensures forall k | 0 <= k < |users| :: r[k] == WithoutPassword(users[k])
  {
    seq(|users|, k requires 0 <= k < |users| => WithoutPassword(users[k]))
  }

  /** `User.find({ _id: { $ne: userId } }).select("-password")`. */
  function GetOtherUsers(users: seq<User>, userId: UserId): (r: Response<seq<PublicUser>>)
    ensures r.Ok? && r.status == 200 && |r.body| <= |users|
  {
    Ok(200, WithoutPasswords(Filter(users, (u: User) => u.id != userId)))
  }

  /**
   * `getOtherUsers` answers 200 with one password-free entry per stored user other than the
   * caller, and with no entry for the caller.
   */
  lemma {:induction false} GetOtherUsersLists(users: seq<User>, userId: UserId)
    ensures GetOtherUsers(users, userId).Ok? && GetOtherUsers(users, userId).status == 200
    ensures forall u | u in users && u.id != userId :: WithoutPassword(u) in GetOtherUsers(users, userId).body
    ensures forall p | p in GetOtherUsers(users, userId).body ::
              p.id != userId && exists u | u in users :: p == WithoutPassword(u)
  {
    var p := (u: User) => u.id != userId;
    var others := Filter(users, p);
    var r := GetOtherUsers(users, userId).body;
    forall u | u in users && u.id != userId ensures WithoutPassword(u) in r {
      FilterMembership(users, p, u);
      var k :| 0 <= k < |others| && others[k] == u;
      assert r[k] == WithoutPassword(u);
    }
    forall q | q in r ensures q.id != userId && exists u | u in users :: q == WithoutPassword(u) {
      var k :| 0 <= k < |r| && r[k] == q;
      FilterMembership(users, p, others[k]);
    }
  }

  /**
   * The filter `$or: [{ name: { $regex: query, $options: "i" } }, { userName: … }]`, with
   * `matches(field, query)` standing for the case-insensitive regex test; a record without a
   * name matches only through its `userName`.
   */
  predicate SearchHit(u: User, query: string, matches: (string, string) -> bool) {
    (u.name.Some? && matches(u.name.value, query)) || matches(u.userName, query)
  }

  /** `search`: 400 for a missing or empty query, otherwise the matching records as stored. */
  function Search(users: seq<User>, query: Option<string>, matches: (string, string) -> bool)
    : (r: Response<seq<User>>)
    ensures r.Fail? <==> query.None? || query.value == ""
    ensures r.Fail? ==> r == Fail(400, QueryRequired)
    ensures r.Ok? ==> r.status == 200 && |r.body| <= |users|
  {
    if query.None? || query.value == "" then Fail(400, QueryRequired)
    else Ok(200, Filter(users, (u: User) => SearchHit(u, query.value, matches)))
  }

  /**
   * A missing or empty query is refused; otherwise the answer holds exactly the stored
   * records that match, passwords and the caller included.
   */
  lemma {:induction false} SearchFinds(users: seq<User>, query: Option<string>, matches: (string, string) -> bool)
    ensures Search(users, query, matches).Fail? <==> query.None? || query.value == ""
    ensures Search(users, query, matches).Fail? ==> Search(users, query, matches) == Fail(400, QueryRequired)
    ensures Search(users, query, matches).Ok? ==>
              && Search(users, query, matches).status == 200
              && forall u :: u in Search(users, query, matches).body <==> u in users && SearchHit(u, query.value, matches)
  {
    if query.Some? && query.value != "" {
      forall u ensures u in Search(users, query, matches).body <==> u in users && SearchHit(u, query.value, matches) {
        FilterMembership(users, (u: User) => SearchHit(u, query.value, matches), u);
      }
    }
  }
}
