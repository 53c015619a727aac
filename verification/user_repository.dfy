/**
 * The one query of the user repository that is more than a key lookup:
 * every stored user, ordered by ascending score
 * (repository/UserRepository.java). Its implementation is generated by
 * the persistence framework; the method below is one implementation of the
 * contract the service relies on. Which of two users with equal scores
 * comes first is left open: the loop picks users in no fixed order.
 */
module UserRepository {
  import opened Users

  /** Scores never decrease along `r`. */
  predicate SortedByScore(r: seq<User>)
  {
    forall i, j :: 0 <= i < j < |r| ==> r[i].score <= r[j].score
  }

  /** `r` lists every user stored in `store` exactly once and nothing else. */
  predicate ListsExactly(r: seq<User>, store: map<string, User>)
  {
    multiset(r) == multiset(store.Values)
  }

  /** `r` with `u` inserted before the first user whose score exceeds `u`'s. */
  method InsertByScore(r: seq<User>, u: User) returns (r': seq<User>)
    requires SortedByScore(r)
    ensures SortedByScore(r')
    ensures multiset(r') == multiset(r) + multiset{u}
  {
    var i := 0;
    while i < |r| && r[i].score <= u.score
      invariant 0 <= i <= |r|
      invariant forall j :: 0 <= j < i ==> r[j].score <= u.score
    {
      i := i + 1;
    }
    r' := r[..i] + [u] + r[i..];
    assert r == r[..i] + r[i..];
    forall a, b | 0 <= a < b < |r'|
      ensures r'[a].score <= r'[b].score
    {
      if b < i || a > i {
      } else if a == i {
        assert r'[b] == r[b - 1];
      } else {
        assert r'[a] == r[a];
      }
    }
  }

  /** Every stored user, by ascending score (findAllByOrderByScoreAsc). */
  method FindAllByOrderByScoreAsc(store: map<string, User>) returns (r: seq<User>)
    ensures SortedByScore(r)
    ensures ListsExactly(r, store)
  {
    r := [];
    var rest := store.Values;
    while rest != {}
      invariant rest <= store.Values
      invariant SortedByScore(r)
      invariant multiset(r) + multiset(rest) == multiset(store.Values)
      decreases |rest|
    {
      var u :| u in rest;
      r := InsertByScore(r, u);
      assert multiset(rest) == multiset(rest - {u}) + multiset{u};
      rest := rest - {u};
    }
  }

  /** An empty store lists as the empty sequence. */
  lemma EmptyStoreListsNothing(r: seq<User>, store: map<string, User>)
    requires ListsExactly(r, store)
    requires store == map[]
    ensures r == []
  {
    assert store.Values == {};
    assert |r| == |multiset(r)| == 0;
  }

  /** Removing the head of a sequence removes one copy of it from its multiset. */
  lemma MultisetDropHead(s: seq<User>)
    requires s != []
    ensures multiset(s[1..]) == multiset(s) - multiset{s[0]}
  {
    assert s == [s[0]] + s[1..];
  }

  /** Two sorted listings of the same users, with distinct scores, start alike. */
  lemma HeadsAgree(a: seq<User>, b: seq<User>)
    requires multiset(a) == multiset(b)
    requires SortedByScore(a) && SortedByScore(b)
    requires forall i, j :: 0 <= i < j < |a| ==> a[i].score != a[j].score
    requires a != []
    ensures b != [] && a[0] == b[0]
  {
    assert a[0] in multiset(b);
    var k :| 0 <= k < |b| && b[k] == a[0];
    assert b[0] in multiset(a);
    var j :| 0 <= j < |a| && a[j] == b[0];
    assert a[0].score <= a[j].score == b[0].score <= b[k].score == a[0].score;
  }

  /**
   * When no two listed users share a score, the ascending listing is
   * unique: any two sorted listings of the same users are equal.
   */
  lemma {:induction false} SortedListingUnique(a: seq<User>, b: seq<User>)
    requires multiset(a) == multiset(b)
    requires SortedByScore(a) && SortedByScore(b)
    requires forall i, j :: 0 <= i < j < |a| ==> a[i].score != a[j].score
    ensures a == b
  {
    if a == [] {
      assert |b| == |multiset(b)| == 0;
    } else {
      HeadsAgree(a, b);
      MultisetDropHead(a);
      MultisetDropHead(b);
      SortedListingUnique(a[1..], b[1..]);
      assert a == [a[0]] + a[1..] && b == [b[0]] + b[1..];
    }
  }
}
