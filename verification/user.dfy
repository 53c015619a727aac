/**
 * The user record kept in the store (entity/User.java): a key, a display
 * name, a score and a set of badges.
 */
module Users {
  import opened Badges

  /**
   * One stored user. `userId` is the store's primary key; `badges` is a set,
   * so a badge is held at most once and in no order.
   */
  datatype User = User(userId: string, username: string, score: int, badges: set<Badge>)

  /** The registration constructor: the given key and name, score 0, no badges. */
  function NewUser(userId: string, username: string): (u: User)
    ensures u.userId == userId && u.username == username
    ensures u.score == 0 && u.badges == {}
  {
    User(userId, username, 0, {})
  }

  /**
   * The state every user reaches through the service: a score within
   * [0, 100] and at least the badges that score earns.
   */
  ghost predicate Sound(u: User)
  {
    0 <= u.score <= 100 && Earned(u.score) <= u.badges
  }

  /** A freshly registered user is sound. */
  lemma NewUserSound(userId: string, username: string)
    ensures Sound(NewUser(userId, username))
  {
    EarnedByBand(0);
  }
}
