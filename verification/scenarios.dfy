/**
 * Clients of the store that chain handler calls, showing what the handler
 * contracts alone let a caller conclude.
 */
module Scenarios {
  import opened Wrappers
  import opened Auth
  import opened Models
  import opened Schemas
  import opened Queries
  import opened Api

  /** The groceries expense used by the end-to-end run. */
  function Groceries(): (input: EntryCreate)
  {
    EntryBase(Date(2024, 1, 1), "Expense", "Groceries", 45.50)
  }

  /**
   * Register a new username, log in with the same password and resolve the
   * token: the caller is the user just created.
   */
  method SignUp(s: Store, name: string, password: string) returns (token: Token)
    requires s.Valid()
    requires !HasUsername(s.users, name)
    modifies s
    ensures s.Valid()
    ensures s.users == old(s.users) + [User(old(s.nextUserId), name, Hash(password))]
    ensures s.nextUserId == old(s.nextUserId) + 1
    ensures s.entries == old(s.entries) && s.nextEntryId == old(s.nextEntryId)
    ensures Decode(token) == Some(name)
    ensures s.CurrentUser(token) == Success(User(old(s.nextUserId), name, Hash(password)))
  {
    var reg := s.Register(UserCreate(name, password));
    var last := |s.users| - 1;
    RegisteredPasswordLogsIn(s, last, password);
    var login := s.Login(name, password);
    token := login.value.accessToken;
    LoginTokenResolves(s, name, password);
    FindUserUnique(s.users, last);
  }

  /** Create an entry for the caller and read back the stored row. */
  method Add(s: Store, token: Token, input: EntryCreate, row: Entry) returns (created: Result<WireEntry, Error>)
    requires s.Valid()
    requires s.CurrentUser(token).Success?
    requires ParseEntryType(input.kind).Some?
    requires row == NewEntry(input, s.nextEntryId, s.CurrentUser(token).value.id).value
    modifies s
    ensures s.Valid()
    ensures created == Success(WireEntry(old(s.nextEntryId), input))
    ensures s.entries == old(s.entries) + [row]
    ensures s.users == old(s.users) && s.nextEntryId == old(s.nextEntryId) + 1
  {
    created := s.CreateEntry(token, input);
    ToWireLosesOnlyOwner(s.entries[|s.entries| - 1], row);
  }

  /**
   * Register, log in, create an entry, list it, delete it and list again,
   * starting from an empty database.
   */
  method EndToEnd() returns (created: Result<WireEntry, Error>, listed: Result<seq<WireEntry>, Error>,
                             deleted: Result<string, Error>, after: Result<seq<WireEntry>, Error>)
    ensures created == Success(WireEntry(1, Groceries()))
    ensures listed == Success([WireEntry(1, Groceries())])
    ensures deleted == Success("Entry deleted")
    ensures after == Success([])
  {
    var s := new Store();
    var token := SignUp(s, "alice", "pw1");
    var row := Entry(1, Date(2024, 1, 1), Expense, "Groceries", 45.50, 1);
    created := Add(s, token, Groceries(), row);
    assert OwnedBy(s.entries, 1) == [row];
    assert ToWireAll([row]) == [WireEntry(1, Groceries())];
    listed := s.ListEntries(token);
    assert HasOwnedEntry(s.entries, 1, 1);
    deleted := s.DeleteEntry(token, 1);
    assert s.entries == [];
    after := s.ListEntries(token);
  }

  /** The row the groceries request becomes as the first entry of user 1. */
  function GroceriesRow(): (row: Entry)
    ensures ToWire(row) == WireEntry(1, Groceries())
  {
    Entry(1, Date(2024, 1, 1), Expense, "Groceries", 45.50, 1)
  }

  /** On an empty database, sign up alice and bob and let alice add the groceries entry. */
  method SetUpTwoUsers(s: Store) returns (alice: Token, bob: Token)
    requires s.Valid()
    requires s.users == [] && s.entries == [] && s.nextUserId == 1 && s.nextEntryId == 1
    modifies s
    ensures s.Valid()
    ensures s.entries == [GroceriesRow()]
    ensures s.CurrentUser(alice).Success? && s.CurrentUser(alice).value.id == 1
    ensures s.CurrentUser(bob).Success? && s.CurrentUser(bob).value.id == 2
  {
    alice := SignUp(s, "alice", "pw1");
    bob := SignUp(s, "bob", "pw2");
    var created := Add(s, alice, Groceries(), GroceriesRow());
  }

  /**
   * Two users: the second sees none of the first's entries and cannot
   * delete them, and the owner still lists the entry afterwards.
   */
  method Isolation() returns (bobList: Result<seq<WireEntry>, Error>, bobDelete: Result<string, Error>,
                              aliceList: Result<seq<WireEntry>, Error>)
    ensures bobList == Success([])
    ensures bobDelete == Failure(EntryNotFound)
    ensures aliceList == Success([WireEntry(1, Groceries())])
  {
    var s := new Store();
    var alice, bob := SetUpTwoUsers(s);
    var row := GroceriesRow();
    assert OwnedBy(s.entries, 2) == [];
    bobList := s.ListEntries(bob);
    assert !HasOwnedEntry(s.entries, 1, 2);
    bobDelete := s.DeleteEntry(bob, 1);
    assert OwnedBy(s.entries, 1) == [row];
    assert ToWireAll([row]) == [WireEntry(1, Groceries())];
    aliceList := s.ListEntries(alice);
  }

  /** The owner deletes an entry once; a second delete of the same id fails. */
  method DeleteTwice() returns (first: Result<string, Error>, second: Result<string, Error>)
    ensures first == Success("Entry deleted")
    ensures second == Failure(EntryNotFound)
  {
    var s := new Store();
    var alice, bob := SetUpTwoUsers(s);
    assert s.entries[0] == GroceriesRow() == Entry(1, Date(2024, 1, 1), Expense, "Groceries", 45.50, 1);
    assert HasOwnedEntry(s.entries, 1, 1);
    first := s.DeleteEntry(alice, 1);
    assert s.entries == [];
    second := s.DeleteEntry(alice, 1);
  }

  /**
   * A create by one user appends the new entry to that user's list and
   * leaves another user's list as it was.
   */
  method CreateKeepsOtherLists(s: Store, creator: Token, viewer: Token, input: EntryCreate)
    returns (r: Result<WireEntry, Error>)
    requires s.Valid()
    requires s.CurrentUser(creator).Success? && s.CurrentUser(viewer).Success?
    requires s.CurrentUser(creator).value.id != s.CurrentUser(viewer).value.id
    modifies s
    ensures s.Valid()
    ensures s.ListEntries(viewer) == old(s.ListEntries(viewer))
    ensures r.Success? ==> s.ListEntries(creator) == Success(old(s.ListEntries(creator)).value + [r.value])
  {
    ghost var c := s.CurrentUser(creator).value.id;
    ghost var v := s.CurrentUser(viewer).value.id;
    ghost var before := s.entries;
    assert old(s.ListEntries(viewer)) == Success(ToWireAll(OwnedBy(before, v)));
    assert old(s.ListEntries(creator)) == Success(ToWireAll(OwnedBy(before, c)));
    r := s.CreateEntry(creator, input);
    assert s.CurrentUser(viewer).value.id == v && s.CurrentUser(creator).value.id == c;
    assert s.ListEntries(viewer) == Success(ToWireAll(OwnedBy(s.entries, v)));
    if r.Success? {
      var added := s.entries[|before|];
      assert OwnedBy(s.entries, v) == OwnedBy(before, v);
      assert OwnedBy(s.entries, c) == OwnedBy(before, c) + [added];
      ToWireAllAppend(OwnedBy(before, c), [added]);
      assert s.ListEntries(creator) == Success(ToWireAll(OwnedBy(before, c) + [added]));
      assert ToWireAll([added]) == [r.value];
    }
  }

  /** A delete by one user leaves another user's list as it was, whether it succeeds or not. */
  method DeleteKeepsOtherLists(s: Store, deleter: Token, viewer: Token, entryId: int)
    returns (r: Result<string, Error>)
    requires s.Valid()
    requires s.CurrentUser(deleter).Success? && s.CurrentUser(viewer).Success?
    requires s.CurrentUser(deleter).value.id != s.CurrentUser(viewer).value.id
    modifies s
    ensures s.Valid()
    ensures s.ListEntries(viewer) == old(s.ListEntries(viewer))
  {
    r := s.DeleteEntry(deleter, entryId);
  }

  /** Of two registrations with one username, the second fails and changes nothing. */
  method RegisterTwice(s: Store, name: string, first: string, second: string)
    returns (r1: Result<string, Error>, r2: Result<string, Error>)
    requires s.Valid()
    requires !HasUsername(s.users, name)
    modifies s
    ensures s.Valid()
    ensures r1 == Success("User registered")
    ensures r2 == Failure(UsernameExists)
    ensures s.users == old(s.users) + [User(old(s.nextUserId), name, Hash(first))]
    ensures s.nextUserId == old(s.nextUserId) + 1
    ensures s.entries == old(s.entries) && s.nextEntryId == old(s.nextEntryId)
    ensures s.Login(name, first).Success? && s.Login(name, second).Success? == (first == second)
  {
    r1 := s.Register(UserCreate(name, first));
    ghost var i := |s.users| - 1;
    r2 := s.Register(UserCreate(name, second));
    RegisteredPasswordLogsIn(s, i, first);
  }
}
