/**
 * The request handlers of the budget API over an in-memory store. The
 * store holds the `users` and `entries` tables as rows in insertion order
 * and the next id each table will assign. Every handler that needs a caller
 * resolves the bearer token first and fails before touching the tables
 * when that fails.
 */
module Api {
  import opened Wrappers
  import opened Auth
  import opened Models
  import opened Schemas
  import opened Queries

  /** The failures a handler reports, one per `detail` message. */
  datatype Error =
    | UsernameExists         // 400 "Username exists"
    | IncorrectCredentials   // 400 "Incorrect username or password"
    | InvalidAuthentication  // 401 "Invalid authentication"
    | UserNotFound           // 401 "User not found"
    | InvalidEntryType       // the `type` is not one of the enum's two tags
    | EntryNotFound          // 404 "Entry not found"

  /** The body returned by a successful login. */
  datatype TokenResponse = TokenResponse(accessToken: Token, tokenType: string)

  class Store {
    var users: seq<User>
    var entries: seq<Entry>
    var nextUserId: int
    var nextEntryId: int

    /** The schema's constraints hold and every id is below the id its table assigns next. */
    predicate Valid()
      reads this
    {
      && TablesValid(users, entries)
      && 1 <= nextUserId && 1 <= nextEntryId
      && (forall i :: 0 <= i < |users| ==> 1 <= users[i].id < nextUserId)
      && (forall k :: 0 <= k < |entries| ==> 1 <= entries[k].id < nextEntryId)
    }

    /** An empty database. */
    constructor ()
      ensures Valid()
      ensures users == [] && entries == [] && nextUserId == 1 && nextEntryId == 1
    {
      users, entries := [], [];
      nextUserId, nextEntryId := 1, 1;
    }

    /** Resolve a bearer token to the user named by its `sub` claim. */
    function CurrentUser(token: Token): (r: Result<User, Error>)
      reads this
      ensures r == Failure(InvalidAuthentication) <==> Decode(token).None?
      ensures r == Failure(UserNotFound) <==>
                Decode(token).Some? && !HasUsername(users, Decode(token).value)
      ensures r.Failure? ==> r.error in {InvalidAuthentication, UserNotFound}
      ensures r.Success? ==> r.value in users && Decode(token) == Some(r.value.username)
    {
      match Decode(token)
      case None => Failure(InvalidAuthentication)
      case Some(sub) =>
        match FindUser(users, sub)
        case None => Failure(UserNotFound)
        case Some(u) => Success(u)
    }

    /** Create a user with a new username and the digest of its password. */
    method Register(user: UserCreate) returns (r: Result<string, Error>)
      requires Valid()
      modifies this
      ensures Valid()
      ensures old(HasUsername(users, user.username)) ==> r == Failure(UsernameExists) && unchanged(this)
      ensures !old(HasUsername(users, user.username)) ==>
                && r == Success("User registered")
                && users == old(users) + [User(old(nextUserId), user.username, Hash(user.password))]
                && nextUserId == old(nextUserId) + 1
                && entries == old(entries) && nextEntryId == old(nextEntryId)
    {
      if FindUser(users, user.username).Some? {
        return Failure(UsernameExists);
      }
      var hashed := Hash(user.password);
      var u := User(nextUserId, user.username, hashed);
      OwnersExistAddUser(users, entries, u);
      users := users + [u];
      nextUserId := nextUserId + 1;
      r := Success("User registered");
    }

    /**
     * Issue a token for a username and password. An unknown username and a
     * wrong password fail with the same error.
     */
    function Login(username: string, password: string): (r: Result<TokenResponse, Error>)
      reads this
      requires UniqueUsernames(users)
      ensures r.Failure? ==> r.error == IncorrectCredentials
      ensures r.Success? <==>
                exists i :: 0 <= i < |users| && users[i].username == username
                                              && Verify(password, users[i].passwordHash)
      ensures r.Success? ==> Decode(r.value.accessToken) == Some(username)
      ensures r.Success? ==> r.value.tokenType == "bearer"
    {
      match FindUser(users, username)
      case None => Failure(IncorrectCredentials)
      case Some(u) =>
        if !Verify(password, u.passwordHash) then
          assert forall i :: 0 <= i < |users| && users[i].username == username ==> users[i] == u by {
            forall i | 0 <= i < |users| && users[i].username == username
              ensures users[i] == u
            {
              FindUserUnique(users, i);
            }
          }
          Failure(IncorrectCredentials)
        else
          DecodeEncode(u.username);
          Success(TokenResponse(Encode(u.username), "bearer"))
    }

    /** Store a new entry owned by the caller and return it in wire form. */
    method CreateEntry(token: Token, entry: EntryCreate) returns (r: Result<WireEntry, Error>)
      requires Valid()
      modifies this
      ensures Valid()
      ensures old(CurrentUser(token)).Failure? ==> r == Failure(old(CurrentUser(token)).error)
      ensures old(CurrentUser(token)).Success? && ParseEntryType(entry.kind).None? ==>
                r == Failure(InvalidEntryType)
      ensures r.Success? <==> old(CurrentUser(token)).Success? && ParseEntryType(entry.kind).Some?
      ensures r.Failure? ==> unchanged(this)
      ensures r.Success? ==>
                && old(CurrentUser(token)).Success?
                && |entries| == |old(entries)| + 1
                && entries[..|old(entries)|] == old(entries)
                && entries[|old(entries)|].id == old(nextEntryId)
                && entries[|old(entries)|].userId == old(CurrentUser(token)).value.id
                && (forall k :: 0 <= k < |old(entries)| ==> old(entries)[k].id != old(nextEntryId))
                && r.value == ToWire(entries[|old(entries)|])
                && r.value == WireEntry(old(nextEntryId), entry)
                && nextEntryId == old(nextEntryId) + 1
                && users == old(users) && nextUserId == old(nextUserId)
      ensures r.Success? ==>
                forall uid :: OwnedBy(entries, uid) ==
                  OwnedBy(old(entries), uid) + (if uid == old(CurrentUser(token)).value.id
                                                then [entries[|old(entries)|]] else [])
    {
      var caller := CurrentUser(token);
      if caller.Failure? {
        return Failure(caller.error);
      }
      var row := NewEntry(entry, nextEntryId, caller.value.id);
      if row.None? {
        return Failure(InvalidEntryType);
      }
      assert HasUser(users, caller.value.id);
      ghost var before := entries;
      entries := entries + [row.value];
      nextEntryId := nextEntryId + 1;
      r := Success(ToWire(row.value));
      forall uid
        ensures OwnedBy(entries, uid) ==
                OwnedBy(before, uid) + (if uid == caller.value.id then [row.value] else [])
      {
        OwnedByAppend(before, row.value, uid);
      }
    }

    /** The caller's entries in wire form. */
    function ListEntries(token: Token): (r: Result<seq<WireEntry>, Error>)
      reads this
      ensures r.Failure? <==> CurrentUser(token).Failure?
      ensures r.Failure? ==> r.error == CurrentUser(token).error
      ensures r.Success? ==>
                forall w :: w in r.value <==>
                  exists k :: 0 <= k < |entries| && entries[k].userId == CurrentUser(token).value.id
                                                 && ToWire(entries[k]) == w
      ensures r.Success? && UniqueEntryIds(entries) ==>
                forall i, j :: 0 <= i < j < |r.value| ==> r.value[i] != r.value[j]
    {
      match CurrentUser(token)
      case Failure(e) => Failure(e)
      case Success(u) =>
        var owned := OwnedBy(entries, u.id);
        var listed := ToWireAll(owned);
        assert forall k :: 0 <= k < |entries| && entries[k].userId == u.id ==>
                 ToWire(entries[k]) in listed by {
          forall k | 0 <= k < |entries| && entries[k].userId == u.id
            ensures ToWire(entries[k]) in listed
          {
            assert entries[k] in owned;
            var j :| 0 <= j < |owned| && owned[j] == entries[k];
            assert listed[j] == ToWire(entries[k]);
          }
        }
        OwnedByUniqueIds(entries, u.id);
        Success(listed)
    }

    /** Remove the entry with id `entryId` if the caller owns it. */
    method DeleteEntry(token: Token, entryId: int) returns (r: Result<string, Error>)
      requires Valid()
      modifies this
      ensures Valid()
      ensures old(CurrentUser(token)).Failure? ==> r == Failure(old(CurrentUser(token)).error)
      ensures old(CurrentUser(token)).Success? &&
              !HasOwnedEntry(old(entries), entryId, old(CurrentUser(token)).value.id) ==>
                r == Failure(EntryNotFound)
      ensures r.Success? <==>
                old(CurrentUser(token)).Success? &&
                HasOwnedEntry(old(entries), entryId, old(CurrentUser(token)).value.id)
      ensures r.Failure? ==> unchanged(this)
      ensures r.Success? ==>
                && r.value == "Entry deleted"
                && old(CurrentUser(token)).Success?
                && (exists i :: 0 <= i < |old(entries)|
                      && old(entries)[i].id == entryId
                      && old(entries)[i].userId == old(CurrentUser(token)).value.id
                      && entries == old(entries)[..i] + old(entries)[i + 1..])
                && (forall e :: e in entries <==> e in old(entries) && e.id != entryId)
                && users == old(users) && nextUserId == old(nextUserId) && nextEntryId == old(nextEntryId)
      ensures r.Success? ==>
                forall uid :: uid != old(CurrentUser(token)).value.id ==>
                  OwnedBy(entries, uid) == OwnedBy(old(entries), uid)
    {
      var caller := CurrentUser(token);
      if caller.Failure? {
        return Failure(caller.error);
      }
      var found := FindEntry(entries, entryId, caller.value.id);
      if found.None? {
        return Failure(EntryNotFound);
      }
      var i := found.value;
      TablesValidRemoveEntry(users, entries, i);
      RemoveEntryAt(entries, i);
      forall uid | uid != caller.value.id
        ensures OwnedBy(entries[..i] + entries[i + 1..], uid) == OwnedBy(entries, uid)
      {
        OwnedByRemoveForeign(entries, i, uid);
      }
      entries := entries[..i] + entries[i + 1..];
      r := Success("Entry deleted");
    }
  }

  /**
   * A user logs in with the password they registered with, the token names
   * them, and every other password fails with the login error.
   */
  lemma RegisteredPasswordLogsIn(s: Store, i: nat, password: string)
    requires s.Valid()
    requires i < |s.users| && s.users[i].passwordHash == Hash(password)
    ensures s.Login(s.users[i].username, password).Success?
    ensures Decode(s.Login(s.users[i].username, password).value.accessToken) == Some(s.users[i].username)
    ensures forall other :: other != password ==>
              s.Login(s.users[i].username, other) == Failure(IncorrectCredentials)
  {
    var name := s.users[i].username;
    assert Verify(password, s.users[i].passwordHash);
    forall other | other != password
      ensures s.Login(name, other) == Failure(IncorrectCredentials)
    {
      forall j | 0 <= j < |s.users| && s.users[j].username == name
        ensures !Verify(other, s.users[j].passwordHash)
      {
        assert j == i;
        VerifyHash(other, password);
      }
    }
  }

  /** The token a successful login returns resolves to the user who logged in. */
  lemma LoginTokenResolves(s: Store, username: string, password: string)
    requires s.Valid()
    requires s.Login(username, password).Success?
    ensures s.CurrentUser(s.Login(username, password).value.accessToken).Success?
    ensures s.CurrentUser(s.Login(username, password).value.accessToken).value.username == username
    ensures Verify(password, s.CurrentUser(s.Login(username, password).value.accessToken).value.passwordHash)
  {
  }

  /** No entry owned by another user is ever in the caller's list. */
  lemma ListExcludesForeign(s: Store, token: Token, k: nat)
    requires s.Valid()
    requires s.CurrentUser(token).Success?
    requires k < |s.entries| && s.entries[k].userId != s.CurrentUser(token).value.id
    ensures ToWire(s.entries[k]) !in s.ListEntries(token).value
  {
  }
}
