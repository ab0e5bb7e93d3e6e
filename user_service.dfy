/**
 * `UserService`: emails are stored normalised (trimmed, then lower-cased)
 * and no two users share one; names are stored trimmed.
 */
module UserService {
  import opened Common
  import opened Text
  import opened Domain
  import opened Repositories

  datatype UserResponse = UserResponse(id: int, name: string, email: string)

  /** `normalizeEmail`: a null email becomes "", any other is trimmed and
      lower-cased.  The result is always in the stored form. */
  function NormalizeEmail(email: Option<string>): (r: string)
    ensures IsNormalizedEmail(r)
    ensures email.None? ==> r == []
    ensures email.Some? ==>
      && |r| == |Trim(email.value)|
      && forall i :: 0 <= i < |r| ==> r[i] == LowerChar(Trim(email.value)[i])
  {
    match email
    case None => []
    case Some(e) =>
      var t := Trim(e);
      var r := Lower(t);
      assert r != [] ==> r[0] == LowerChar(t[0]) && r[|r| - 1] == LowerChar(t[|t| - 1]);
      r
  }

  /** `existsByEmail`. */
  predicate EmailTaken(users: map<int, User>, email: string) {
    exists k :: k in users && users[k].email == email
  }

  /** The stored form is exactly the strings that trimming and lower-casing
      leave alone. */
  lemma NormalizedForm(e: string)
    ensures IsNormalizedEmail(e) <==> Trim(e) == e && Lower(e) == e
  {
    if IsNormalizedEmail(e) {
      TrimOfTrimmed(e);
      LowerOfLower(e);
    }
    if Trim(e) == e && Lower(e) == e {
      assert forall i :: 0 <= i < |e| ==> Lower(e)[i] == LowerChar(e[i]);
    }
  }

  /** An address already in the stored form is returned unchanged. */
  lemma NormalizeFixpoint(e: string)
    requires IsNormalizedEmail(e)
    ensures NormalizeEmail(Some(e)) == e
  {
    NormalizedForm(e);
  }

  /** Normalising twice is normalising once. */
  lemma NormalizeIdempotent(email: Option<string>)
    ensures NormalizeEmail(Some(NormalizeEmail(email))) == NormalizeEmail(email)
  {
    NormalizedForm(NormalizeEmail(email));
  }

  /** Emails that differ only in the case of their letters, or in white
      space around them, normalise to the same string, so they collide. */
  lemma VariantsCollide(e: string)
    ensures NormalizeEmail(Some(Upper(e))) == NormalizeEmail(Some(e))
    ensures NormalizeEmail(Some(Lower(e))) == NormalizeEmail(Some(e))
    ensures NormalizeEmail(Some([' '] + e + [' '])) == NormalizeEmail(Some(e))
  {
    TrimLowerCommute(e);
    TrimLowerCommute(Upper(e));
    TrimLowerCommute(Lower(e));
    LowerOfUpper(e);
    LowerIdempotent(e);
    TrimPadded(e);
  }

  /** The unit test's request: " A@B.COM " is stored as "a@b.com". */
  lemma NormalizeExample(s: string)
    requires s == " A@B.COM "
    ensures NormalizeEmail(Some(s)) == "a@b.com"
  {
    calc {
      NormalizeEmail(Some(s));
      { assert s == [' '] + "A@B.COM" + [' ']; VariantsCollide("A@B.COM"); }
      NormalizeEmail(Some("A@B.COM"));
      { NormalizeBareExample(); }
      "a@b.com";
    }
  }

  lemma NormalizeBareExample()
    ensures NormalizeEmail(Some("A@B.COM")) == "a@b.com"
  {
    TrimOfTrimmed("A@B.COM");
    assert Lower("A@B.COM") == "a@b.com";
  }

  /** `create`: Conflict when the normalised email is taken; otherwise the
      user is stored under the next id with trimmed name and normalised
      email. */
  method Create(db: Database, name: string, email: string) returns (r: Result<UserResponse>)
    requires db.Valid()
    modifies db`users, db`nextUserId
    ensures db.Valid()
    ensures EmailTaken(old(db.users), NormalizeEmail(Some(email))) ==>
      r == Err(Conflict) && db.users == old(db.users) && db.nextUserId == old(db.nextUserId)
    ensures !EmailTaken(old(db.users), NormalizeEmail(Some(email))) ==>
      var id := old(db.nextUserId);
      && id !in old(db.users)
      && db.users == old(db.users)[id := User(Trim(name), NormalizeEmail(Some(email)))]
      && db.nextUserId == id + 1
      && r == Ok(UserResponse(id, Trim(name), NormalizeEmail(Some(email))))
  {
    var normalized := NormalizeEmail(Some(email));
    if EmailTaken(db.users, normalized) {
      return Err(Conflict);
    }
    var u := User(Trim(name), normalized);
    var id := db.nextUserId;
    db.users := db.users[id := u];
    db.nextUserId := id + 1;
    r := Ok(UserResponse(id, u.name, u.email));
  }

  /** `update`: NotFound for a missing user; Conflict when the normalised
      email is new for this user and another user holds it; otherwise name
      and email are replaced.  Keeping one's own email never conflicts. */
  method Update(db: Database, id: int, name: string, email: string) returns (r: Result<UserResponse>)
    requires db.Valid()
    modifies db`users
    ensures db.Valid()
    ensures id !in old(db.users) ==> r == Err(NotFound) && db.users == old(db.users)
    ensures id in old(db.users) ==>
      var normalized := NormalizeEmail(Some(email));
      if old(db.users)[id].email != normalized && EmailTaken(old(db.users), normalized) then
        r == Err(Conflict) && db.users == old(db.users)
      else
        && db.users == old(db.users)[id := User(Trim(name), normalized)]
        && r == Ok(UserResponse(id, Trim(name), normalized))
  {
    if id !in db.users {
      return Err(NotFound);
    }
    var u := db.users[id];
    var normalized := NormalizeEmail(Some(email));
    if u.email != normalized && EmailTaken(db.users, normalized) {
      return Err(Conflict);
    }
    u := u.(name := Trim(name));
    u := u.(email := normalized);
    db.users := db.users[id := u];
    r := Ok(UserResponse(id, u.name, u.email));
  }

  /** `delete`: NotFound for a missing user; otherwise exactly that user is
      removed. */
  method Delete(db: Database, id: int) returns (r: Result<()>)
    requires db.Valid()
    modifies db`users
    ensures db.Valid()
    ensures id !in old(db.users) ==> r == Err(NotFound) && db.users == old(db.users)
    ensures id in old(db.users) ==> r == Ok(()) && db.users == old(db.users) - {id}
  {
    if id !in db.users {
      return Err(NotFound);
    }
    db.users := db.users - {id};
    r := Ok(());
  }
}
