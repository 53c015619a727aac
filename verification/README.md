# CODERHACK user service, modelled in Dafny

A model of the CODERHACK leaderboard's user service. Users are kept in a store
keyed by user id. Each user has a name, a score in [0, 100] and a set of
badges (CODE_NINJA, CODE_CHAMP, CODE_MASTER). The service registers users,
looks them up, updates scores, deletes users and lists them by ascending
score. On every score update it adds the badges the new score earns
(thresholds 1, 30 and 60) and never removes one, even when the score drops.

Files and modules:

- `badge.dfy` — module `Badges`: the badge enumeration, the thresholds, and
  `Earned(score)`, the set of badges a score grants.
- `user.dfy` — module `Users`: the `User` record, the registration
  constructor `NewUser`, and `Sound`, the state every user reaches through
  the service (score in range, holds the badges its score earns).
- `user_repository.dfy` — module `UserRepository`: the repository's
  listing query, ordered by ascending score. The query's contract is "sorted
  by score and a permutation of the stored users". The framework generates
  its implementation, so the method here is one implementation of that
  contract, an insertion loop that picks users in no fixed order. Ties
  between equal scores are therefore left open.
- `user_service.dfy` — module `UserServiceModel`: the service as a class
  whose `store: map<string, User>` field stands for the repository. The three
  refusals are an `Error` datatype: `Conflict`, `NotFound` and
  `InvalidArgument`. A ghost log `calls` records each repository call the
  service makes (exists, find, save, delete, list). The contracts use it to
  say which calls happen and which never do, e.g. "no lookup before the
  range check" and "no save when the user is missing".

`Valid()` is the primary-key invariant: every record is stored under its own
id. Every method keeps it, and each mutating method states its whole new
store. Each also keeps `AllSound()`: every user has a score in range and at
least the badges that score earns.

## Model

| member | source | states |
|---|---|---|
| `Badges.Earned` | src/main/java/com/crio/coderhack/service/UserService.java:111-120 | CODE_NINJA is granted iff score ≥ 1, CODE_CHAMP iff score ≥ 30, CODE_MASTER iff score ≥ 60, and nothing outside the three kinds |
| `Badges.ExactlyThreeKinds` | src/main/java/com/crio/coderhack/entity/Badge.java:6-10 | every badge is one of the three kinds, and there are exactly three |
| `Badges.ThresholdsIncrease` | src/main/java/com/crio/coderhack/entity/Badge.java:7-9 | the thresholds strictly increase: 1 < 30 < 60 |
| `Badges.EarnedIsDownwardClosed` | src/main/java/com/crio/coderhack/entity/Badge.java:7-9 | a score that earns CODE_MASTER also earns CODE_CHAMP, and one that earns CODE_CHAMP also earns CODE_NINJA |
| `Badges.EarnedMonotone` | src/main/java/com/crio/coderhack/service/UserService.java:112-120 | a higher score earns a superset of the badges a lower score earns |
| `Badges.EarnedByBand` | src/main/java/com/crio/coderhack/service/UserService.java:112-120 | the badges a score earns, band by band: none below 1, {NINJA} on [1,30), {NINJA, CHAMP} on [30,60), all three from 60 |
| `Users.NewUser` | src/main/java/com/crio/coderhack/entity/User.java:31-36 | the registration constructor keeps the given id and name exactly and starts at score 0 with no badges |
| `Users.NewUserSound` | src/main/java/com/crio/coderhack/entity/User.java:34-35 | a freshly registered user already satisfies the badge invariant: its score is in range and earns no badge |
| `UserRepository.FindAllByOrderByScoreAsc` | src/main/java/com/crio/coderhack/repository/UserRepository.java:18 | the listing has non-decreasing scores, and its multiset is exactly the multiset of stored users |
| `UserRepository.EmptyStoreListsNothing` | src/main/java/com/crio/coderhack/service/UserService.java:96-99 | an empty store lists as the empty sequence, not an error |
| `UserRepository.SortedListingUnique` | src/main/java/com/crio/coderhack/repository/UserRepository.java:16-18 | when scores are pairwise distinct, any two sorted listings of the same users are equal; only ties leave the order open |
| `UserServiceModel.RescoredKeepsBadges` | src/main/java/com/crio/coderhack/service/UserService.java:73-75 | an update keeps the user's id and name, sets the score to exactly the new one, and keeps every badge already held |
| `UserServiceModel.RescoredIdempotent` | src/main/java/com/crio/coderhack/service/UserService.java:107-128 | repeating an update with the same score gives the same user (set semantics absorb the re-added badges) |
| `UserServiceModel.RescoredSound` | src/main/java/com/crio/coderhack/service/UserService.java:64-75 | after any in-range update, the user holds every badge its new score earns, whatever it held before |
| `UserServiceModel.RescoredExamples` | src/test/java/com/crio/coderhack/UserServiceTest.java:109-170 | from no badges, score 15 gives {NINJA}, 45 gives {NINJA, CHAMP} and 75 gives all three; a user holding all three at 90 and set to 20 keeps all three at score 20 |
| `UserServiceModel.UserService.constructor` | src/main/java/com/crio/coderhack/service/UserService.java:24-26 | the service works over the injected repository's contents, and no repository call has been made yet |
| `UserServiceModel.UserService.RegisterUser` | src/main/java/com/crio/coderhack/service/UserService.java:36-43 | a taken id gives Conflict, with only the existence check and no save. Otherwise the store gains exactly the entry id ↦ NewUser(id, name), that user is returned, and the calls are the existence check then one save |
| `UserServiceModel.UserService.GetUserById` | src/main/java/com/crio/coderhack/service/UserService.java:51-53 | returns the record stored under the id iff there is one, and its id is the requested one; the store is unchanged |
| `UserServiceModel.UserService.UpdateScore` | src/main/java/com/crio/coderhack/service/UserService.java:64-76 | a score outside [0,100] gives InvalidArgument with no repository call and the store unchanged. An absent id gives NotFound after one lookup, with no save. Otherwise only that key changes: its score becomes exactly the new one and its badges become old badges ∪ Earned(new score). No user's badges shrink, and the badge invariant is kept |
| `UserServiceModel.UserService.DeleteUser` | src/main/java/com/crio/coderhack/service/UserService.java:84-89 | an absent id gives NotFound, with no delete call and the store unchanged. Otherwise exactly that key is removed, after an existence check and one delete |
| `UserServiceModel.UserService.GetAllUsers` | src/main/java/com/crio/coderhack/service/UserService.java:96-99 | returns a permutation of all stored users in non-decreasing score order; the store is unchanged |
| `UserServiceModel.UserService.ApplyBadges` | src/main/java/com/crio/coderhack/service/UserService.java:107-129 | the three conditional inserts add exactly `Earned(score)` to the user's badges and change nothing else |
| `UserServiceModel.ListingOfThreeUsers` | src/test/java/com/crio/coderhack/UserServiceTest.java:231-252 | users scored 50, 10 and 90 are listed as the one scored 10, then 50, then 90 |

## Left out

- The HTTP controller (`controller/UserController.java`) is not modelled. That covers its request checks (non-empty id and name, only a `score` key in an update), the parsing of the score from text, and the status codes. The service does not check these, so the model places no precondition for them on the service.
- Exception messages and HTTP status codes are not modelled. Each refusal is a plain `Error` value.
- Spring wiring, Lombok-generated accessors and constructors, and the MongoDB mapping are not modelled. The setters the service calls, `setScore` and `setBadges`, are record updates inside `UpdateScore` and `ApplyBadges`.
- Failures of the storage engine are not modelled. The model has no I/O errors, so no infrastructure-error outcome exists.
- Concurrency is not modelled, including the lost update when two score updates race on the same user. Each method runs as one atomic step on the store.
- `UpdateScore`'s score is an unbounded `int`, not Java's 32-bit `int`. The range check rejects every value outside [0, 100], so no wrap-around can reach the store.
- Aliasing is not modelled. The source mutates the fetched `User` object and its badge `HashSet` in place, then saves it. The model treats a record as a value and writes the updated value back under the same key.
- `UserServiceModel.UserService.constructor` requires the injected store to satisfy the primary-key invariant, as MongoDB's `@Id` guarantees. It does not require the store's scores to lie in [0, 100], because the source does not check them. The badge and score invariant is therefore stated as preserved (`old(AllSound()) ==> AllSound()`), not as always true.
- Both the repository's `save` and the model return the saved record. The model does not consider a store that returns a different instance.
