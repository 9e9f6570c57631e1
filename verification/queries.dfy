/**
 * The table queries the request handlers run: the user with a given
 * username, the entries with a given owner, and the entry with a given id
 * and owner. Tables are sequences of rows in insertion order, so "first"
 * is the earliest matching row.
 */
module Queries {
  import opened Wrappers
  import opened Models

  /** The first user whose username is `name`. */
  function FindUser(us: seq<User>, name: string): (r: Option<User>)
    ensures r.Some? <==> HasUsername(us, name)
    ensures r.Some? ==> r.value in us && r.value.username == name
  {
    if us == [] then None
    else if us[0].username == name then Some(us[0])
    else
      var r := FindUser(us[1..], name);
      assert HasUsername(us[1..], name) <==> HasUsername(us, name) by {
        if HasUsername(us, name) {
          var i :| 0 <= i < |us| && us[i].username == name;
          assert us[1..][i - 1] == us[i];
        }
      }
      r
  }

  /** With unique usernames, the user found is the only one with that name. */
  lemma FindUserUnique(us: seq<User>, i: nat)
    requires UniqueUsernames(us)
    requires i < |us|
    ensures FindUser(us, us[i].username) == Some(us[i])
  {
  }

  /** The entries owned by `uid`, in table order. */
  function OwnedBy(es: seq<Entry>, uid: int): (r: seq<Entry>)
    ensures forall e :: e in r <==> e in es && e.userId == uid
    ensures |r| <= |es|
  {
    if es == [] then []
    else
      assert es == [es[0]] + es[1..];
      (if es[0].userId == uid then [es[0]] else []) + OwnedBy(es[1..], uid)
  }

  /** Each of `uid`'s entries occurs in the list exactly as often as in the table; no other entry occurs. */
  lemma {:induction false} OwnedByMultiplicity(es: seq<Entry>, uid: int, e: Entry)
    ensures multiset(OwnedBy(es, uid))[e] == if e.userId == uid then multiset(es)[e] else 0
  {
    if es != [] {
      assert es == [es[0]] + es[1..];
      assert multiset(es) == multiset([es[0]]) + multiset(es[1..]);
      OwnedByMultiplicity(es[1..], uid, e);
    }
  }

  /** With unique entry ids, a user's list holds no id twice, so no entry twice. */
  lemma {:induction false} OwnedByUniqueIds(es: seq<Entry>, uid: int)
    ensures UniqueEntryIds(es) ==> UniqueEntryIds(OwnedBy(es, uid))
  {
    if es != [] && UniqueEntryIds(es) {
      var rest := OwnedBy(es[1..], uid);
      OwnedByUniqueIds(es[1..], uid);
      forall e | e in rest
        ensures e.id != es[0].id
      {
        var k :| 0 <= k < |es[1..]| && es[1..][k] == e;
        assert es[k + 1] == e;
      }
    }
  }

  /** Appending an entry adds it at the end of its owner's list and changes no other list. */
  lemma {:induction false} OwnedByAppend(es: seq<Entry>, e: Entry, uid: int)
    ensures OwnedBy(es + [e], uid) == OwnedBy(es, uid) + (if e.userId == uid then [e] else [])
  {
    if es != [] {
      assert (es + [e])[1..] == es[1..] + [e];
      OwnedByAppend(es[1..], e, uid);
    }
  }

  /** Removing an entry owned by someone else leaves `uid`'s list unchanged. */
  lemma {:induction false} OwnedByRemoveForeign(es: seq<Entry>, i: nat, uid: int)
    requires i < |es|
    requires es[i].userId != uid
    ensures OwnedBy(es[..i] + es[i + 1..], uid) == OwnedBy(es, uid)
  {
    if i == 0 {
      assert es[..0] + es[1..] == es[1..];
    } else {
      var rest := es[..i] + es[i + 1..];
      assert rest[0] == es[0];
      assert rest[1..] == es[1..][..i - 1] + es[1..][i..];
      OwnedByRemoveForeign(es[1..], i - 1, uid);
    }
  }

  /** Some entry has id `id` and owner `uid`. */
  predicate HasOwnedEntry(es: seq<Entry>, id: int, uid: int)
  {
    exists k :: 0 <= k < |es| && es[k].id == id && es[k].userId == uid
  }

  /** The index of the first entry whose id is `id` and whose owner is `uid`. */
  function FindEntry(es: seq<Entry>, id: int, uid: int): (r: Option<nat>)
    ensures r.Some? ==> r.value < |es| && es[r.value].id == id && es[r.value].userId == uid
    ensures r.None? <==> !HasOwnedEntry(es, id, uid)
  {
    if es == [] then None
    else if es[0].id == id && es[0].userId == uid then Some(0)
    else
      match FindEntry(es[1..], id, uid)
      case None =>
        assert forall k :: 1 <= k < |es| ==> es[k] == es[1..][k - 1];
        None
      case Some(j) => Some(j + 1)
  }

  /** An entry owned by someone else is never found for `uid`, whatever its id. */
  lemma ForeignEntryNotFound(es: seq<Entry>, i: nat, uid: int)
    requires UniqueEntryIds(es)
    requires i < |es| && es[i].userId != uid
    ensures FindEntry(es, es[i].id, uid) == None
  {
  }

  /** Removing the row at `i` removes exactly the entry with that row's id. */
  lemma RemoveEntryAt(es: seq<Entry>, i: nat)
    requires UniqueEntryIds(es)
    requires i < |es|
    ensures forall k :: 0 <= k < i ==> (es[..i] + es[i + 1..])[k] == es[k]
    ensures forall k :: i < k < |es| ==> (es[..i] + es[i + 1..])[k - 1] == es[k]
    ensures forall e :: e in es[..i] + es[i + 1..] <==> e in es && e.id != es[i].id
  {
  }
}
