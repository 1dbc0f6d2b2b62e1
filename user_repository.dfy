/** The storage gateway: the user table, keyed by id, and the six operations
    the service layer calls on it. The database set becomes a map from id to
    name; saving changes becomes the map update itself. */
module Repositories {
  import opened Models
  import opened Text

  // ---------------------------------------------------------------------
  // Specification of the listing: records in ascending id order
  // ---------------------------------------------------------------------

  ghost predicate StrictlyIncreasing(s: seq<int>) {
    forall i, j :: 0 <= i < j < |s| ==> s[i] < s[j]
  }

  /** Ids strictly ascend along the list, so no id occurs twice. */
  ghost predicate SortedById(s: seq<User>) {
    forall i, j :: 0 <= i < j < |s| ==> s[i].userId < s[j].userId
  }

  /** Every element of `s` is a stored record and every stored record is an
      element of `s`. */
  ghost predicate HoldsExactly(s: seq<User>, users: map<int, string>) {
    && (forall i :: 0 <= i < |s| ==> s[i].userId in users && users[s[i].userId] == s[i].userName)
    && (forall id :: id in users ==> User(id, users[id]) in s)
  }

  lemma {:induction false} LeastExists(ks: set<int>)
    requires ks != {}
    ensures exists m :: m in ks && forall k :: k in ks ==> m <= k
  {
    if forall k :: k !in ks {
      assert false;
    }
    var x :| x in ks;
    var rest := ks - {x};
    if rest == {} {
      forall k | k in ks ensures x <= k {
        assert k !in rest;
      }
    } else {
      LeastExists(rest);
      var m :| m in rest && forall k :: k in rest ==> m <= k;
      var least := if x < m then x else m;
      forall k | k in ks ensures least <= k {
        if k != x {
          assert k in rest;
        }
      }
      assert least in ks;
    }
  }

  /** The smallest id of a non-empty set of ids. */
  function Least(ks: set<int>): (m: int)
    requires ks != {}
    ensures m in ks && forall k :: k in ks ==> m <= k
  {
    LeastExists(ks);
    var m :| m in ks && forall k :: k in ks ==> m <= k;
    m
  }

  /** The ids of `ks` in ascending order, each once. */
  function SortedKeys(ks: set<int>): (r: seq<int>)
    ensures |r| == |ks|
    ensures StrictlyIncreasing(r)
    ensures forall k :: k in ks <==> k in r
    decreases ks
  {
    if ks == {} then []
    else
      var m := Least(ks);
      [m] + SortedKeys(ks - {m})
  }

  /** The table's records ordered by id, as the listing query returns them.
      Its contract is the whole promise of that query: ascending ids, every
      record once, nothing else. */
  function Listing(users: map<int, string>): (r: seq<User>)
    ensures |r| == |users|
    ensures SortedById(r)
    ensures HoldsExactly(r, users)
  {
    var ks := SortedKeys(users.Keys);
    var r := seq(|ks|, i requires 0 <= i < |ks| => User(ks[i], users[ks[i]]));
    assert forall id :: id in users ==> User(id, users[id]) in r by {
      forall id | id in users ensures User(id, users[id]) in r {
        var i :| 0 <= i < |ks| && ks[i] == id;
        assert r[i] == User(id, users[id]);
      }
    }
    r
  }

  lemma {:induction false} StrictlyIncreasingUnique(s: seq<int>, t: seq<int>)
    requires StrictlyIncreasing(s) && StrictlyIncreasing(t)
    requires forall x :: x in s <==> x in t
    ensures s == t
  {
    if s != [] {
      assert s[0] in s;
    }
    if t != [] {
      assert t[0] in t;
    }
    if s != [] && t != [] {
      assert s[0] == t[0];
      forall x ensures x in s[1..] <==> x in t[1..] {
        assert x in s[1..] <==> x in s && x != s[0] by {
          if x in s[1..] {
            var i :| 0 <= i < |s[1..]| && s[1..][i] == x;
            assert s[i + 1] == x;
          }
          if x in s && x != s[0] {
            var i :| 0 <= i < |s| && s[i] == x;
            assert s[1..][i - 1] == x;
          }
        }
        assert x in t[1..] <==> x in t && x != t[0] by {
          if x in t[1..] {
            var i :| 0 <= i < |t[1..]| && t[1..][i] == x;
            assert t[i + 1] == x;
          }
          if x in t && x != t[0] {
            var i :| 0 <= i < |t| && t[i] == x;
            assert t[1..][i - 1] == x;
          }
        }
      }
      StrictlyIncreasingUnique(s[1..], t[1..]);
    }
  }

  /** The ids of a list of records, in list order. */
  function Ids(s: seq<User>): (r: seq<int>)
    ensures |r| == |s| && forall i :: 0 <= i < |s| ==> r[i] == s[i].userId
  {
    seq(|s|, i requires 0 <= i < |s| => s[i].userId)
  }

  lemma IdsOfExactListing(users: map<int, string>, s: seq<User>)
    requires HoldsExactly(s, users)
    ensures forall x :: x in Ids(s) <==> x in users
  {
  }

  /** The listing order is the only one: any list that holds exactly the
      table's records in ascending id order is the listing. */
  lemma ListingIsUnique(users: map<int, string>, s: seq<User>)
    requires SortedById(s) && HoldsExactly(s, users)
    ensures s == Listing(users)
  {
    var l := Listing(users);
    IdsOfExactListing(users, s);
    IdsOfExactListing(users, l);
    StrictlyIncreasingUnique(Ids(s), Ids(l));
    forall i | 0 <= i < |s| ensures s[i] == l[i] {
      assert Ids(s)[i] == Ids(l)[i];
    }
  }

  // ---------------------------------------------------------------------
  // Specification of the duplicate-name check
  // ---------------------------------------------------------------------

  /** Some stored name equals `name` once both are lower-cased. */
  ghost predicate NameTaken(users: map<int, string>, name: string) {
    exists id :: id in users && Lower(users[id]) == Lower(name)
  }

  /** The check ignores the case of the name asked about. */
  lemma NameTakenFoldsCase(users: map<int, string>, name: string)
    ensures NameTaken(users, name) <==> NameTaken(users, Lower(name))
  {
  }

  /** A name is taken exactly when any spelling of it that differs only in
      letter case is taken. */
  lemma NameTakenIgnoresCase(users: map<int, string>, s: string, t: string)
    requires |s| == |t|
    requires forall i :: 0 <= i < |s| ==> CasePartners(s[i], t[i])
    ensures NameTaken(users, s) <==> NameTaken(users, t)
  {
    LowerIgnoresCase(s, t);
  }

  // ---------------------------------------------------------------------
  // The table
  // ---------------------------------------------------------------------

  class UserRepository {
    /** The stored records: id to name. */
    var users: map<int, string>
    /** The store's source of fresh ids. */
    var nextId: int

    /** Every stored id is positive and below the next id the store hands
        out, so a new record never reuses a key. */
    ghost predicate Valid()
      reads this
    {
      0 < nextId && forall id :: id in users ==> 0 < id < nextId
    }

    constructor ()
      ensures Valid() && users == map[]
    {
      users := map[];
      nextId := 1;
    }

    /** Stores a new record under an id the store picks; the caller's id is
        not looked at. Returns the caller's record carrying the new id. */
    method CreateUser(user: User) returns (created: User)
      requires Valid()
      modifies this
      ensures Valid()
      ensures created.userName == user.userName
      ensures created.userId !in old(users)
      ensures created.userId == old(nextId)
      ensures users == old(users)[created.userId := user.userName]
      ensures |users| == |old(users)| + 1
    {
      // Mapping the API record onto a table entity drops its id.
      var name := user.userName;
      var id := nextId;
      users := users[id := name];
      nextId := nextId + 1;
      created := User(id, name);
    }

    /** Removes the record stored under `id`, if there is one. */
    method DeleteUser(id: int) returns (deleted: bool)
      requires Valid()
      modifies this
      ensures Valid() && nextId == old(nextId)
      ensures deleted <==> id in old(users)
      ensures users == old(users) - {id}
      ensures !deleted ==> users == old(users)
    {
      if id in users {
        users := users - {id};
        deleted := true;
      } else {
        deleted := false;
      }
    }

    /** The record stored under `id`, or nothing. */
    method GetUserById(id: int) returns (found: Option<User>)
      ensures found.Some? <==> id in users
      ensures found.Some? ==> found.value == User(id, users[id])
    {
      if id in users {
        found := Some(User(id, users[id]));
      } else {
        found := None;
      }
    }

    /** All records ordered by id, or nothing when the table is empty. */
    method GetUsers() returns (listed: Option<seq<User>>)
      ensures listed.None? <==> users == map[]
      ensures listed.Some? ==> SortedById(listed.value) && HoldsExactly(listed.value, users)
      ensures listed.Some? ==> listed.value == Listing(users)
    {
      var rows := Listing(users);
      if |rows| == 0 {
        listed := None;
      } else {
        listed := Some(rows);
      }
    }

    /** Replaces the name stored under `id` with the name of `user`. Fails
        when there is no such record or no user is given. The id of `user`
        is not looked at. */
    method UpdateUser(id: int, user: Option<User>) returns (updated: bool)
      requires Valid()
      modifies this
      ensures Valid() && nextId == old(nextId)
      ensures updated <==> id in old(users) && user.Some?
      ensures updated ==> users == old(users)[id := user.value.userName]
      ensures !updated ==> users == old(users)
      ensures users.Keys == old(users).Keys
    {
      var dbUser := if id in users then Some(User(id, users[id])) else None;
      if dbUser.None? || dbUser.value.userId != id {
        return false;
      }
      if user.Some? {
        users := users[id := user.value.userName];
        return true;
      }
      return false;
    }

    /** Whether some stored name matches `name`, ignoring case. */
    method UserExists(name: string) returns (taken: bool)
      ensures taken <==> NameTaken(users, name)
    {
      taken := Lower(name) in (set id | id in users :: Lower(users[id]));
    }
  }

  // ---------------------------------------------------------------------
  // Properties that relate several calls
  // ---------------------------------------------------------------------

  /** A lookup right after a create finds the new record under the returned
      id, with the name that was given. */
  method CreateThenLookup(repo: UserRepository, user: User) returns (created: User, found: Option<User>)
    requires repo.Valid()
    modifies repo
    ensures found == Some(User(created.userId, user.userName))
  {
    created := repo.CreateUser(user);
    found := repo.GetUserById(created.userId);
  }

  /** A lookup right after a delete of the same id finds nothing. */
  method DeleteThenLookup(repo: UserRepository, id: int) returns (found: Option<User>)
    requires repo.Valid()
    modifies repo
    ensures found == None
  {
    var _ := repo.DeleteUser(id);
    found := repo.GetUserById(id);
  }
}
