/**
 * The user service (service/UserService.java): registration, lookup, score
 * update with badge awarding, deletion and the listing by score, over a
 * store that maps each user id to its record.
 */
module UserServiceModel {
  import opened Badges
  import opened Users
  import opened UserRepository

  /** The three ways a service call is refused. */
  datatype Error =
    | Conflict         // the id to register is already taken
    | NotFound         // no user has the given id
    | InvalidArgument  // the new score lies outside [0, 100]

  datatype Result<T> = Ok(value: T) | Err(error: Error)

  datatype Option<T> = None | Some(value: T)

  /** A call the service makes on the user repository, in the order made. */
  datatype StoreCall =
    | ExistsById(id: string)
    | FindById(id: string)
    | Save(user: User)
    | DeleteById(id: string)
    | FindAllSorted

  /** The primary-key invariant: every record is stored under its own id. */
  predicate KeyedById(store: map<string, User>)
  {
    forall id :: id in store ==> store[id].userId == id
  }

  /** A user after a score update: the new score, and the badges it earns added. */
  function Rescored(u: User, newScore: int): User
  {
    u.(score := newScore, badges := u.badges + Earned(newScore))
  }

  /**
   * An update keeps the user's id and name, sets the score to exactly the
   * new one, and never takes a badge away, even when the score drops.
   */
  lemma RescoredKeepsBadges(u: User, newScore: int)
    ensures Rescored(u, newScore).userId == u.userId
    ensures Rescored(u, newScore).username == u.username
    ensures Rescored(u, newScore).score == newScore
    ensures u.badges <= Rescored(u, newScore).badges
  {
  }

  /** Repeating an update with the same score changes nothing more. */
  lemma RescoredIdempotent(u: User, newScore: int)
    ensures Rescored(Rescored(u, newScore), newScore) == Rescored(u, newScore)
  {
  }

  /** An in-range update leaves the user sound, whatever its state before. */
  lemma RescoredSound(u: User, newScore: int)
    requires 0 <= newScore <= 100
    ensures Sound(Rescored(u, newScore))
  {
  }

  /**
   * The awarding table as the unit tests exercise it: from no badges, score
   * 15 gives the ninja badge, 45 adds the champion badge, 75 gives all
   * three; a user holding all three at score 90 keeps them at score 20.
   */
  lemma RescoredExamples(u: User)
    requires u.badges == {}
    ensures Rescored(u, 15).badges == {CodeNinja}
    ensures Rescored(u, 45).badges == {CodeNinja, CodeChamp}
    ensures Rescored(u, 75).badges == {CodeNinja, CodeChamp, CodeMaster}
    ensures Rescored(u.(score := 90, badges := AllBadges), 20).badges == AllBadges
    ensures Rescored(u.(score := 90, badges := AllBadges), 20).score == 20
  {
    EarnedByBand(15);
    EarnedByBand(45);
    EarnedByBand(75);
    EarnedByBand(20);
  }

  /** The user service over its store. */
  class UserService {
    /** The repository contents: user id to user record. */
    var store: map<string, User>
    /** Every repository call made so far. */
    ghost var calls: seq<StoreCall>

    ghost predicate Valid()
      reads this
    {
      KeyedById(store)
    }

    /** Every stored user has a score in range and the badges it earns. */
    ghost predicate AllSound()
      reads this
    {
      forall id :: id in store ==> Sound(store[id])
    }

    /** A service over the injected repository. */
    constructor (repository: map<string, User>)
      requires KeyedById(repository)
      ensures Valid()
      ensures store == repository && calls == []
    {
      store := repository;
      calls := [];
    }

    /**
     * Registers a new user with score 0 and no badges; refused with
     * Conflict, without writing, when the id is taken.
     */
    method RegisterUser(userId: string, username: string) returns (r: Result<User>)
      requires Valid()
      modifies this
      ensures Valid()
      ensures old(userId in store) ==>
        && r == Err(Conflict)
        && store == old(store)
        && calls == old(calls) + [ExistsById(userId)]
      ensures old(userId !in store) ==>
        && r == Ok(NewUser(userId, username))
        && store == old(store)[userId := NewUser(userId, username)]
        && calls == old(calls) + [ExistsById(userId), Save(NewUser(userId, username))]
      ensures old(AllSound()) ==> AllSound()
    {
      calls := calls + [ExistsById(userId)];
      if userId in store {
        return Err(Conflict);
      }
      var newUser := NewUser(userId, username);
      NewUserSound(userId, username);
      calls := calls + [Save(newUser)];
      store := store[userId := newUser];
      r := Ok(newUser);
    }

    /** The user stored under `userId`, if any; the store is not changed. */
    method GetUserById(userId: string) returns (r: Option<User>)
      requires Valid()
      modifies this
      ensures store == old(store)
      ensures calls == old(calls) + [FindById(userId)]
      ensures r.Some? <==> userId in store
      ensures r.Some? ==> r.value == store[userId] && r.value.userId == userId
    {
      calls := calls + [FindById(userId)];
      if userId in store {
        r := Some(store[userId]);
      } else {
        r := None;
      }
    }

    /**
     * Sets a user's score and awards the badges it earns. A score outside
     * [0, 100] is refused before the repository is touched; an unknown id
     * is refused after the lookup, without a write. On success only that
     * user's record changes, and only its score and badges.
     */
    method UpdateScore(userId: string, newScore: int) returns (r: Result<User>)
      requires Valid()
      modifies this
      ensures Valid()
      ensures (newScore < 0 || newScore > 100) ==>
        && r == Err(InvalidArgument)
        && store == old(store)
        && calls == old(calls)
      ensures 0 <= newScore <= 100 && userId !in old(store) ==>
        && r == Err(NotFound)
        && store == old(store)
        && calls == old(calls) + [FindById(userId)]
      ensures 0 <= newScore <= 100 && userId in old(store) ==>
        var updated := Rescored(old(store)[userId], newScore);
        && r == Ok(updated)
        && store == old(store)[userId := updated]
        && calls == old(calls) + [FindById(userId), Save(updated)]
      ensures forall id :: id in old(store) ==> id in store && old(store)[id].badges <= store[id].badges
      ensures old(AllSound()) ==> AllSound()
    {
      if newScore < 0 || newScore > 100 {
        return Err(InvalidArgument);
      }
      calls := calls + [FindById(userId)];
      if userId !in store {
        return Err(NotFound);
      }
      var user := store[userId];
      user := user.(score := newScore);
      user := ApplyBadges(user);
      RescoredSound(store[userId], newScore);
      RescoredKeepsBadges(store[userId], newScore);
      calls := calls + [Save(user)];
      store := store[userId := user];
      r := Ok(user);
    }

    /** Removes the user stored under `userId`; NotFound, without a delete, if none. */
    method DeleteUser(userId: string) returns (r: Result<()>)
      requires Valid()
      modifies this
      ensures Valid()
      ensures userId !in old(store) ==>
        && r == Err(NotFound)
        && store == old(store)
        && calls == old(calls) + [ExistsById(userId)]
      ensures userId in old(store) ==>
        && r == Ok(())
        && store == old(store) - {userId}
        && calls == old(calls) + [ExistsById(userId), DeleteById(userId)]
      ensures old(AllSound()) ==> AllSound()
    {
      calls := calls + [ExistsById(userId)];
      if userId !in store {
        return Err(NotFound);
      }
      calls := calls + [DeleteById(userId)];
      store := store - {userId};
      r := Ok(());
    }

    /** Every stored user, by ascending score; the store is not changed. */
    method GetAllUsers() returns (r: seq<User>)
      requires Valid()
      modifies this
      ensures store == old(store)
      ensures calls == old(calls) + [FindAllSorted]
      ensures SortedByScore(r) && ListsExactly(r, store)
    {
      calls := calls + [FindAllSorted];
      r := FindAllByOrderByScoreAsc(store);
    }

    /**
     * Adds to `user`'s badges every badge its score earns, one threshold at
     * a time; no badge is removed.
     */
    static method ApplyBadges(user: User) returns (u: User)
      ensures u == user.(badges := user.badges + Earned(user.score))
    {
      var currentBadges := user.badges;
      var score := user.score;
      if score >= 1 {
        currentBadges := currentBadges + {CodeNinja};
      }
      if score >= 30 {
        currentBadges := currentBadges + {CodeChamp};
      }
      if score >= 60 {
        currentBadges := currentBadges + {CodeMaster};
      }
      u := user.(badges := currentBadges);
    }
  }

  /**
   * The listing from the unit tests: users scored 50, 10 and 90 come back
   * as the one scored 10, then 50, then 90, whatever order the store keeps.
   */
  lemma ListingOfThreeUsers(r: seq<User>, alice: User, bob: User, charlie: User)
    requires alice.score == 50 && bob.score == 10 && charlie.score == 90
    requires SortedByScore(r)
    requires ListsExactly(r, map["user1" := alice, "user2" := bob, "user3" := charlie])
    ensures r == [bob, alice, charlie]
  {
    var store := map["user1" := alice, "user2" := bob, "user3" := charlie];
    assert store.Values == {alice, bob, charlie} by {
      assert store["user1"] == alice && store["user2"] == bob && store["user3"] == charlie;
      forall v | v in store.Values ensures v == alice || v == bob || v == charlie {
        var k :| k in store && store[k] == v;
      }
    }
    assert multiset(store.Values) == multiset([bob, alice, charlie]) by {
      assert alice != bob && bob != charlie && alice != charlie;
    }
    SortedListingUnique([bob, alice, charlie], r);
  }
}
