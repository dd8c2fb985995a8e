# Verified models of the loan marketplace backend

The backend lends through many small protocols: tokens that rotate, accounts that lock, seeds that must be
re-runnable, applications that may be replayed, rows edited by several operators at once. This project states what
each of them promises and proves it of a model that takes the same branches.

| files | what they model |
|---|---|
| `Basics.dfy`, `Ordering.dfy` | absent values, lists without repetition, the listing of rows by a column |
| `JsonText.dfy`, `StableJson.dfy` | the canonical JSON printer, a reader that inverts it, and the equality it decides |
| `RefreshTokens.dfy` | the refresh-token repository and service, and every interleaving of their requests |
| `Lockout.dfy`, `LoginLockout.dfy` | the sliding-window lockout over a Redis sorted set, refined to a history of failures; sign-in on top of it |
| `SeedPool.dfy`, `SeedPoolProperties.dfy`, `SeedPoolListing.dfy` | the questionnaire pool built by in-place surgery on an order and a map, and what the configs contribute to it |
| `QuestionnaireSeeder.dfy`, `QuestionnaireSnapshot.dfy`, `QuestionnaireConvergence.dfy` | the seeder's passes over the stored tables, the snapshot it publishes, and when a second run changes nothing |
| `CatalogSeeder.dfy`, `CatalogConvergence.dfy` | the three axes of the program-name catalog seed |
| `ProgramOptions.dfy` | the customer's picker against the filter that apply uses |
| `Applications.dfy`, `ApplicationRuns.dfy` | applying, replaying and selecting an offer; runs of all three |
| `Versions.dfy` | compare-and-set on a row version, and the bank and bank-program writes built on it |
| `Annuity.dfy`, `StatusPlan.dfy`, `ProofConflicts.dfy` | installment arithmetic, weighted apportionment, and the income-proof report |

Code that changes tables is a class whose fields are the tables and whose methods follow the source's loops and
branches; each method is proved against a function of the old tables. What the source promises over many calls is
proved about those functions: about runs of atomic steps where requests interleave, about repeated runs for the seeds.
A database transaction is one atomic step. Clocks, random ids, hashes and the results of code outside these files
(the matching engine, the income-rule validator, password checks, account lookups) are parameters.

## What turned out not to hold as promised

- The header of the lockout service says the trim removes scores up to `now - W`; the Redis wrapper excludes the
  bound, so a failure exactly W old still counts. The model follows the wrapper: the window is closed at both ends.
- Running the questionnaire seeder twice is not always running it once. The revival pass reads the fact bindings before
  the same run rewrites them. `TwoRunsAreOneExactly` gives the condition, `BindingComesTooLate` and `BindingMovesAway`
  the tables on which it fails, whatever the pool and the other bindings, and `ThirdRunChangesNothing` the bound.
- The comment on the car questions says the seeder never revives one; the revival pass does not exclude them.
  `CarQuestionsAreTheAdmins` says exactly when one is switched on, `CarQuestionComesBack` shows it happen.
- A revived question is in the published snapshot only when its group is in the pool: the revival restores questions,
  not the groups the same run sweeps (`RevivedIsServedExactly`).
- The catalog seed states that each pair has exactly one basis. A pair kept only for its live programs can stay sold both
  ways or neither (`OneBasisExactly`; under any matrix, `KeptPairMayStayUndecided`).
- A bank program's category is free text. A live one outside the four loan categories makes the catalog seed throw when
  it rewrites that name (`CompletesExactly`).
- A logout whose token was rotated between its lookup and its update changes nothing, and the session goes on in the
  rotated token (`RotationOutrunsLogout`; `LogoutCanComeTooLate` reaches it from an empty table).
- A bank update that went through is answered as a conflict when the row is deleted before it is read back
  (`AnswerOfAWinner`, `WinnerMayFindNothing`).

## Model

| member | source | states |
|---|---|---|
| JsonText.ReadStringInvertsQuote | backend/src/common/stable-json.util.ts:15 | reading back any printed string, whatever code units it holds and whatever text follows, gives that string and leaves the rest: no two strings print alike |
| JsonText.ReadNumberInvertsText | backend/src/common/stable-json.util.ts:15 | the same of every finite number, in each of the four spellings its decimal can take |
| StableJson.ReadInvertsStable | backend/src/common/stable-json.util.ts:14-21 | at any nesting depth the printed text, followed by anything that cannot extend it, reads back as the one representative of its value and leaves what follows untouched |
| StableJson.ReadStable | backend/src/common/stable-json.util.ts:14-21 | a whole printed text reads back as that representative with nothing left |
| StableJson.SortSorts | backend/src/common/stable-json.util.ts:17-19 | sorting the entries of an object leaves the same entries in strictly rising key order |
| StableJson.SortedKeysAgree | backend/src/common/stable-json.util.ts:17-19 | two sorted entry lists over one key set have the same key at every place: the sorted form is unique |
| StableJson.SamePrintsAlike | backend/src/common/stable-json.util.ts:14-21 | values equal up to key order, undefined fields and undefined array elements read as null print the same text |
| StableJson.SameCanonIsSame | backend/src/common/stable-json.util.ts:14-21 | values with the same representative are equal in that sense |
| StableJson.StableDecidesSame | backend/src/common/stable-json.util.ts:14-21 | two values print the same text if and only if they are equal up to key order and undefined fields, array order counting |
| JsonText.LessExactly | backend/src/common/stable-json.util.ts:19 | the key comparison: at the first place two keys differ the smaller UTF-16 unit decides, and a proper prefix comes first |
| JsonText.EscapesSpelled | backend/src/common/stable-json.util.ts:15 | the escapes of a printed string as `JSON.stringify` spells them |
| JsonText.PairsStayLiteral | backend/src/common/stable-json.util.ts:15 | a surrogate pair is printed as it is |
| JsonText.WholeNumberSpelled | backend/src/common/stable-json.util.ts:15 | a whole number: `100` |
| JsonText.PointInsideSpelled | backend/src/common/stable-json.util.ts:15 | a negative number with a point inside: `-1.5` |
| JsonText.SmallNumberSpelled | backend/src/common/stable-json.util.ts:15 | a small number with leading zeros: `0.025` |
| JsonText.ExponentSpelled | backend/src/common/stable-json.util.ts:15 | a large number with an exponent: `1e+21` |
| StableJson.TokensSpelled | backend/src/common/stable-json.util.ts:15-20 | the tokens as they are spelled: `null`, `true`, `false`, brackets, braces, comma, colon, quote |
| StableJson.ScalarsSpelled | backend/src/common/stable-json.util.ts:15 | absent, null and non-finite values print `null`, booleans their words, zero `0`, strings quoted and escaped |
| StableJson.JoinSpelled | backend/src/common/stable-json.util.ts:16 | joining puts a comma between any two parts and nothing else |
| StableJson.ArraySpelled | backend/src/common/stable-json.util.ts:16 | an array prints its elements in order between brackets, parted by commas |
| StableJson.ObjectSpelled | backend/src/common/stable-json.util.ts:17-20 | an object prints each defined entry once, by rising key, key and value parted by a colon, between braces |
| StableJson.KeysRise | backend/src/common/stable-json.util.ts:19 | of two printed keys the later has the larger unit where they first differ, or continues the earlier |
| RefreshTokens.RefreshTokenRepository.Create | backend/src/auth/refresh-token.repository.ts:18-30 | a row is stored exactly when its id and hash are new, else the table is unchanged and the unique index is reported |
| RefreshTokens.RefreshTokenRepository.Issue | backend/src/auth/refresh-token.repository.ts:18-30 | an issued row is active and carries the predecessor it was given |
| RefreshTokens.RefreshTokenRepository.LookupByHash | backend/src/auth/refresh-token.repository.ts:32-34 | the stored row with the hash, or none when no row has it |
| RefreshTokens.RefreshTokenRepository.RevokeIfActive | backend/src/auth/refresh-token.repository.ts:55-58 | the conditional update: the row gets the time only if it had none, and the count says which |
| RefreshTokens.RefreshTokenRepository.Rotate | backend/src/auth/refresh-token.repository.ts:41-65 | the transaction commits exactly when the new row can be stored and the old is still active; then the old is revoked and the new stored, otherwise every row is as before |
| RefreshTokens.RefreshTokenRepository.Revoke | backend/src/auth/refresh-token.repository.ts:67-73 | the row is revoked if active, keeping an earlier time; its other columns and all other rows are untouched |
| RefreshTokens.RefreshTokenRepository.RevokeAllForUser | backend/src/auth/refresh-token.repository.ts:75-81 | every active row of the user is revoked at once, keeping its other columns, and the rows of every other user stay as they were |
| RefreshTokens.RefreshTokenService.VerifyAndRotate | backend/src/auth/refresh-token.service.ts:82-118 | succeeds exactly when some stored row has the hash, no revocation time and an expiry after now, and the next hash is new; then that row alone is revoked, now, and one active row of the same user is added that names it; refused otherwise with the table unchanged |
| RefreshTokens.RefreshTokenService.RevokeByRawCookie | backend/src/auth/refresh-token.service.ts:120-126 | the row with the hash is revoked, at its own earlier time if it had one; every other row stays |
| RefreshProtocol.LookupDecides | backend/src/auth/refresh-token.service.ts:87-91 | after its lookup a request is about to rotate exactly when a row with that hash is unrevoked and expires later, and then that row for that row's user |
| RefreshProtocol.NoExpiredTokenIsRotated | backend/src/auth/refresh-token.service.ts:82-118 | whatever interleaves, a rotation that changes anything goes back to a lookup of the same request that came before the token's expiry, and changes just the two rows |
| RefreshProtocol.AloneIsTheService | backend/src/auth/refresh-token.service.ts:82-126 | the protocol's two steps of a refresh or a logout, with nothing between, do to the table what the service does |
| RefreshProtocol.RevokeAllSparesOthers | backend/src/auth/refresh-token.repository.ts:75-81 | a revoke-all step revokes the active rows of its user and leaves every other row as it was |
| RefreshProtocol.InsertKeepsTableExactly | backend/src/auth/refresh-token.repository.ts:41-52 | inserting a row keeps the table sound if and only if it starts a chain or continues a revoked, unsucceeded token of the same user; `issue` itself checks none of that |
| RefreshProtocol.RotationKeepsTable | backend/src/auth/refresh-token.repository.ts:41-65 | a committed rotation keeps unique hashes, one successor a token and successors only of revoked tokens of one user |
| RefreshProtocol.StepKeepsInv | backend/src/auth/refresh-token.repository.ts:41-81 | every atomic step of any request keeps the table invariant and what pending requests remember |
| RefreshProtocol.RunKeepsInv | backend/src/auth/refresh-token.service.ts:64-126 | so does every interleaving of issues, lookups, rotations, revokes and revoke-alls |
| RefreshProtocol.ReachableTables | backend/src/auth/refresh-token.service.ts:64-126 | in every reachable table each token has at most one successor and a token with a successor is revoked |
| RefreshProtocol.ChainKeepsUser | backend/src/auth/refresh-token.repository.ts:43-48 | along a rotation chain the user is one and every token but the last is revoked |
| RefreshProtocol.ChainsAreLinear | backend/src/auth/refresh-token.repository.ts:41-65 | two chains from one token are prefixes of one another: no chain forks |
| RefreshProtocol.OneActivePerChain | backend/src/auth/refresh-token.service.ts:82-118 | in every reachable table a chain has at most one active token, its tip, of the root's user |
| RefreshProtocol.RunExtends | backend/src/auth/refresh-token.repository.ts:55-81 | over any run rows stay and `revokedAt` once set is never cleared or changed |
| RefreshProtocol.BuriedForever | backend/src/auth/refresh-token.repository.ts:41-81 | a set of revoked tokens without successors outside it stays so over any run |
| RefreshProtocol.RevokeAllIsFinal | backend/src/auth/refresh-token.repository.ts:75-81 | once a revoke-all has committed, no descendant of the user's earlier tokens is ever active again, even for rotations already past their lookup |
| RefreshProtocol.RevokeIsFinalIfActive | backend/src/auth/refresh-token.service.ts:120-126 | a logout that finds its token still active at commit ends that chain for good; one that finds it revoked leaves every row as it is |
| RefreshProtocol.RotationOutrunsLogout | backend/src/auth/refresh-token.service.ts:82-126 | in any state where a rotation and a logout both found the token active, the rotation committing first leaves the logout without effect and the new token active in the chain |
| RefreshProtocol.LogoutCanComeTooLate | backend/src/auth/refresh-token.service.ts:82-126 | an issue and two lookups from an empty table reach that state |
| Lockout.RedisService.TrimWindow | backend/src/infra/redis/redis.service.ts:40-42 | a member stays exactly when it was there unexpired and is not scored below the bound, so the bound itself stays; an emptied set is gone with its expiry |
| Lockout.RedisService.Zcard | backend/src/infra/redis/redis.service.ts:44-46 | the number of members of a key that has not expired |
| Lockout.RedisService.ZaddNow | backend/src/infra/redis/redis.service.ts:36-38 | the member gets the score, other members and keys stay |
| Lockout.RedisService.Expire | backend/src/infra/redis/redis.service.ts:48-50 | the key, if there, now ends at the given time |
| Lockout.RedisService.Del | backend/src/infra/redis/redis.service.ts:52-54 | the key is gone and no other |
| Lockout.WindowSurvives | backend/src/auth/lockout.service.ts:23-25 | expiry never drops an entry still inside the window |
| Lockout.TrimKeepsWindow | backend/src/auth/lockout.service.ts:37-38 | after trimming, the set is exactly the failures of the window and its size their number |
| Lockout.LockoutService.CountRecent | backend/src/auth/lockout.service.ts:34-39 | the trim and count both calls begin with return the number of recorded failures in the window |
| Lockout.LockoutService.IsLockedOut | backend/src/auth/lockout.service.ts:34-40 | true exactly when at least five failures recorded since the last success are no older than fifteen minutes |
| Lockout.LockoutService.RecordFailure | backend/src/auth/lockout.service.ts:46-57 | the history gains this failure exactly when fewer than five are that recent, and the key then ends thirty minutes later |
| Lockout.LockoutService.ClearOnSuccess | backend/src/auth/lockout.service.ts:59-61 | the history is empty again |
| LoginLockout.AuthService.Login | backend/src/auth/auth.service.ts:65-167 | locked out exactly with five recent failures; otherwise signed in exactly on a right password of an active account, refused as inactive or as wrong credentials by the verdict; a success empties the history, any other verdict of an unlocked account is recorded, a locked attempt leaves it |
| LoginLockout.VerdictDecides | backend/src/auth/auth.service.ts:65-167 | the same, of the functions the runs are built from |
| LoginLockout.OutcomesByVerdict | backend/src/auth/auth.service.ts:65-167 | the answer to each login of a run, from its verdict and the failed checks before it |
| LoginLockout.PassedFailureIsRecorded | backend/src/auth/auth.service.ts:88-107 | a login that passed the lockout check with any verdict but a good one is recorded: the second check cannot turn it away |
| LoginLockout.SequentialHistory | backend/src/auth/auth.service.ts:65-167 | over any sequence of logins the history is the failed checks since the last success, read off the verdicts alone, and any six of them span more than a window |
| LoginLockout.AtMostFivePerWindow | backend/src/auth/lockout.service.ts:34-57 | no fifteen minutes, both ends included, hold more than five failed checks between two successes |
| LoginLockout.LockedUntil | backend/src/auth/lockout.service.ts:34-40 | a locked account has exactly five failures in the window and is locked until the oldest leaves it |
| LoginLockout.LockoutEndIsFixed | backend/src/auth/lockout.service.ts:42-57 | attempts during a lockout leave the history and its end unchanged |
| LockoutOverlap.OverlapBound | backend/src/auth/lockout.service.ts:46-57 | with at most k overlapping `recordFailure` calls the set never exceeds 4 + k members |
| LockoutOverlap.OverlapBoundIsReached | backend/src/auth/lockout.service.ts:46-57 | and k such calls from four members do reach 4 + k |
| SeedPoolBuilder.SeedPool.AddQuestion | backend/prisma/seed-questionnaire.ts:1771-1807 | a new code is appended with the content of its first sighting; options are appended once per code |
| SeedPoolBuilder.SeedPool.AddGroup | backend/prisma/seed-questionnaire.ts:1766-1808 | a group is kept from its first sighting and contributes the questions no bound money question supersedes |
| SeedPoolBuilder.SeedPool.MergeConfigs | backend/prisma/seed-questionnaire.ts:1765-1809 | all configs merged: order and map are those of the items in listing order |
| SeedPoolBuilder.SeedPool.InjectMoney | backend/prisma/seed-questionnaire.ts:1815-1834 | fails exactly at an unknown group; otherwise the money questions stand in front, the last listed first, place by place |
| SeedPoolBuilder.SeedPool.InjectLast | backend/prisma/seed-questionnaire.ts:1840-1892 | fails exactly at an unknown group; otherwise the questions are appended in order |
| SeedPoolBuilder.SeedPool.RegisterObligations | backend/prisma/seed-questionnaire.ts:1896-1921 | fails exactly at an unknown group; otherwise the questions are registered and the order is untouched |
| SeedPoolBuilder.SeedPool.RemoveBlock | backend/prisma/seed-questionnaire.ts:1936-1938 | the backward splice leaves exactly the questions outside the block, in order |
| SeedPoolBuilder.SeedPool.ReseatBlock | backend/prisma/seed-questionnaire.ts:1936-1946 | the block stands as one run behind the last bound money question, the rest in its old order |
| SeedPoolBuilder.SeedPool.MergeThinGroups | backend/prisma/seed-questionnaire.ts:1725-1748 | fails, changing nothing, exactly when a merge target is unknown; otherwise groups are remapped, retitled and the retired ones dropped |
| SeedPoolBuilder.MergeSeedPool | backend/prisma/seed-questionnaire.ts:1755-1953 | returns a pool exactly when every injected question and merge names a known group, and then that pool |
| SeedPoolProperties.UnitedOptions | backend/prisma/seed-questionnaire.ts:1801-1806 | adding options keeps codes distinct and unites the code sets, earlier options keeping their labels |
| SeedPoolProperties.AddedInOrder | backend/prisma/seed-questionnaire.ts:1801-1806 | added options come after the earlier ones, in the order they are listed |
| SeedPoolProperties.MergeIsFaithful | backend/prisma/seed-questionnaire.ts:1765-1809 | the merged order is duplicate-free and over exactly the map's keys; each question has the group, content and branch rule of its first sighting and the options of all sightings, once each, with the labels of their first offer |
| SeedPoolListing.AuthoredQuestionIsAnItem | backend/prisma/seed-questionnaire.ts:1764-1772 | every authored question that is not superseded is merged, under its group |
| SeedPoolListing.ItemIsAuthored | backend/prisma/seed-questionnaire.ts:1764-1772 | and nothing else is |
| SeedPoolListing.PlacesRise | backend/prisma/seed-questionnaire.ts:1764-1772 | in the order the configs list them: by group, then by question |
| SeedPoolListing.FirstListingKept | backend/prisma/seed-questionnaire.ts:1766-1769 | a group is kept as first listed |
| SeedPoolListing.GroupsInListedOrder | backend/prisma/seed-questionnaire.ts:1766-1769 | groups come in the order of their first listings |
| SeedPoolProperties.InjectedRowsExactly | backend/prisma/seed-questionnaire.ts:1815-1921 | money questions are stored without rule and options, the bureau question without its rule, sources as optional numbers without options, obligations as authored |
| SeedPoolProperties.ReseatKeepsSourcesExactly | backend/prisma/seed-questionnaire.ts:1928-1946 | re-seating the block keeps every branch source before what it gates if and only if the part before the block and the block are so ordered |
| SeedPoolProperties.MergeKeepsSources | backend/prisma/seed-questionnaire.ts:1765-1809 | if every item is preceded by its source in the configs, every merged question is |
| SeedPoolProperties.BlockIsSeated | backend/prisma/seed-questionnaire.ts:1936-1946 | the block is contiguous directly after the last bound money question and all others keep their relative order |
| SeedPoolProperties.WithoutKeepsOrder | backend/prisma/seed-questionnaire.ts:1936-1938 | what is left when the block is taken out keeps its relative order |
| SeedPoolProperties.ReseatedIsDistinct | backend/prisma/seed-questionnaire.ts:1936-1946 | a duplicate-free order stays so and gains exactly the block |
| SeedPoolProperties.PoolIsOrdered | backend/prisma/seed-questionnaire.ts:1755-1953 | the whole pool: no question twice, none missing, the block as one run after the money, every branch source before every question it gates |
| SeedPoolProperties.PoolHoldsExactlyTheRows | backend/prisma/seed-questionnaire.ts:1755-1953 | the order lists exactly the keys of the question map |
| SeedPoolProperties.ThinGroupsMerged | backend/prisma/seed-questionnaire.ts:1725-1748 | no retired group remains, group order and map agree, and every question is in a live group if and only if no merge target is itself retired |
| SeedPoolProperties.RemappedExactly | backend/prisma/seed-questionnaire.ts:1735-1738 | a question of a retired group moves to the group it is merged into, nothing else of any question changes |
| SeedPoolProperties.KeptGroupsExactly | backend/prisma/seed-questionnaire.ts:1739-1744 | the groups kept are those not retired, with the widened title where there is one |
| SeedPoolProperties.DropAllKeepsOrder | backend/prisma/seed-questionnaire.ts:1742-1747 | the groups kept stay in their order |
| SeedPoolProperties.PoolGroupsAreLive | backend/prisma/seed-questionnaire.ts:1725-1748 | with targets that are not retired every question of the pool is in a live group |
| QuestionnaireSeeding.QuestionnaireSeeder.UpsertGroups | backend/prisma/seed-questionnaire.ts:1960-1972 | the pool's groups are written active, in order |
| QuestionnaireSeeding.QuestionnaireSeeder.WriteOptions | backend/prisma/seed-questionnaire.ts:2038-2052 | the listed options are written active, in order; other options of the question are switched off |
| QuestionnaireSeeding.QuestionnaireSeeder.UpsertQuestions | backend/prisma/seed-questionnaire.ts:1973-2053 | every pool question the admin does not own is written with its options; a new car question is ticked on every car name |
| QuestionnaireSeeding.QuestionnaireSeeder.Sweep | backend/prisma/seed-questionnaire.ts:2054-2063 | a question neither in the pool, car nor fixed, and a group not in the pool, is switched off and otherwise kept; every other row is untouched |
| QuestionnaireSeeding.QuestionnaireSeeder.Revive | backend/prisma/seed-questionnaire.ts:2083-2101 | a question is on afterwards exactly when it was, or it is not fixed and some ask that is not detached names a fact bound to it; nothing else of it changes, and the count is the number switched on |
| QuestionnaireSeeding.QuestionnaireSeeder.BindFacts | backend/prisma/seed-questionnaire.ts:2138-2413 | each fact is re-pointed, created or bound only where unbound, in the order of the calls; facts of missing questions are skipped |
| QuestionnaireSeeding.QuestionnaireSeeder.PublishVersion | backend/prisma/seed-questionnaire.ts:2424-2473 | one version more, numbered one past the highest, the only one active, serving the active groups with something to ask in order, each with its active questions and their active options in order |
| QuestionnaireSnapshots.ServeGroup | backend/prisma/seed-questionnaire.ts:2427-2462 | one group: its active questions and their active options, each by display order |
| QuestionnaireSnapshots.BuildSnapshot | backend/prisma/seed-questionnaire.ts:2424-2468 | the active groups by display order, those with nothing to ask left out |
| QuestionnaireSnapshots.AsksExactly | backend/prisma/seed-questionnaire.ts:2424-2468 | the snapshot asks a question in a group if and only if the group is active and the question is an active one of that group |
| QuestionnaireSnapshots.ServedInOrder | backend/prisma/seed-questionnaire.ts:2425-2468 | served groups are active, not empty and by rising display order, and so are the questions of each |
| QuestionnaireSnapshots.OptionsServed | backend/prisma/seed-questionnaire.ts:2432-2460 | a served question offers exactly its active options, by rising display order |
| QuestionnaireSnapshots.OnlyTheNewestIsActive | backend/prisma/seed-questionnaire.ts:2469-2473 | after a publication the highest version alone is active and the others serve what they served |
| QuestionnaireSeeding.QuestionnaireSeeder.SeedQuestionnaire | backend/prisma/seed-questionnaire.ts:1955-2122 | the passes in their order, the number of questions the revival switched on, and a published version of what they left |
| QuestionnaireConvergence.BuiltPoolIsWellFormed | backend/prisma/seed-questionnaire.ts:1755-1957 | what the pool builder returns is what the seeder relies on |
| QuestionnaireConvergence.RowAfterRun | backend/prisma/seed-questionnaire.ts:1973-2101 | a question's row after a run depends only on its row before, its place in the pool and whether a live ask reads it |
| QuestionnaireConvergence.OptionAfterRun | backend/prisma/seed-questionnaire.ts:2038-2052 | likewise each option row |
| QuestionnaireConvergence.BoundToAt | backend/prisma/seed-questionnaire.ts:2138-2413 | the passes over the facts amount to: the last applicable re-pointing, else the first binding of an unbound fact, else no change |
| QuestionnaireConvergence.FixedIsUntouched | backend/prisma/seed-questionnaire.ts:1976-1982 | no run alters a question already marked fixed, or its options |
| QuestionnaireConvergence.ActiveExactly | backend/prisma/seed-questionnaire.ts:2054-2101 | afterwards a question neither fixed nor car is active exactly when it is in the pool or some ask that is not detached names a fact bound to it before the run |
| QuestionnaireConvergence.DetachedAsksReviveNothing | backend/prisma/seed-questionnaire.ts:2080-2092 | a question outside the pool all of whose asks are detached is off afterwards and otherwise kept |
| QuestionnaireConvergence.CountedAsRevived | backend/prisma/seed-questionnaire.ts:2083-2101 | the revival counts a question exactly when it is stored, not fixed, read by an ask that is not detached, and was off (a car question) or is outside the pool |
| QuestionnaireConvergence.QuestionsFollowThePool | backend/prisma/seed-questionnaire.ts:1983-2037 | a pool question the admin does not own is stored as authored, in its place and active; a new one is fixed where the first-run table says so |
| QuestionnaireConvergence.OtherQuestionsKeepTheirRows | backend/prisma/seed-questionnaire.ts:2054-2101 | a stored question outside the pool changes in nothing but whether it is active, and none appears |
| QuestionnaireConvergence.GroupsFollowThePool | backend/prisma/seed-questionnaire.ts:1960-1972 | pool groups are stored with their titles, in their places and active; every other stored one is off and otherwise kept |
| QuestionnaireConvergence.TicksFollowTheNewCarQuestions | backend/prisma/seed-questionnaire.ts:2010-2037 | ticks are only added, on car questions that were not stored, for every name offered under car |
| QuestionnaireConvergence.LastBindingDecides | backend/prisma/seed-questionnaire.ts:2138-2413 | the last unconditional binding of a fact at a known question decides it; it is for the system alone if it was or any such binding says so |
| QuestionnaireConvergence.UnboundFactsAreBoundOnce | backend/prisma/seed-questionnaire.ts:2138-2413 | without one no fact is created or re-pointed, and an unbound one goes to the first conditional binding that applies |
| QuestionnaireConvergence.CarQuestionsAreTheAdmins | backend/prisma/seed-questionnaire.ts:348-354 | a stored car question keeps its row and ticks, except that a run switches it on exactly when it is not fixed and some ask that is not detached names a fact bound to it before the run; one the pool inserts is active and ticked on every car name |
| QuestionnaireConvergence.CarQuestionComesBack | backend/prisma/seed-questionnaire.ts:348-354 | whatever the pool and the bindings, a stored car question that is switched off and read by a live ask is on after a run: the comment that none is revived is false |
| QuestionnaireConvergence.RevivedIsServedExactly | backend/prisma/seed-questionnaire.ts:2063-2108 | a revived question outside the pool is in the published snapshot if and only if its group is in the pool |
| QuestionnaireConvergence.OptionsFollowTheList | backend/prisma/seed-questionnaire.ts:2038-2052 | every listed option of a question the admin does not own is active at its listed place; any other stored option of it is off and otherwise kept |
| QuestionnaireConvergence.OtherOptionsStay | backend/prisma/seed-questionnaire.ts:1976-1982 | options of questions outside the pool, or owned by the admin, stay as they were |
| QuestionnaireConvergence.TwoRunsAreOneExactly | backend/prisma/seed-questionnaire.ts:1955-2122 | groups, options, ticks and facts after two runs are those after one; the whole tables are if and only if every stored question repeats: it is fixed; or it is a car question, in the pool or not, that was active or read by a live ask before, or that the run's bindings leave read by none; or it is another question, and the pool has it or those bindings leave it read by a live ask exactly if it was |
| QuestionnaireConvergence.ThirdRunChangesNothing | backend/prisma/seed-questionnaire.ts:1955-2122 | from any tables, a third run changes nothing |
| QuestionnaireConvergence.BindingComesTooLate | backend/prisma/seed-questionnaire.ts:2083-2113 | with any pool and any bindings that point a fact at a car question: stored switched off, its fact unbound and asked, the question is off after one run and on after two |
| QuestionnaireConvergence.BindingMovesAway | backend/prisma/seed-questionnaire.ts:2083-2113 | with any pool and any bindings that point a fact elsewhere: a question outside the pool bound to that fact and asked is on after one run and off after two |
| CategoryLists.SortedRowsAreOffered | backend/prisma/seed-program-catalog.ts:58-61 | however the rows come back, sorting gives the offered categories in catalog order |
| CategoryLists.NextHas | backend/prisma/seed-program-catalog.ts:125-137 | the decided categories are exactly the curated and the live ones |
| CategoryLists.JoinedAlike | backend/prisma/seed-program-catalog.ts:143-144 | two lists that join to one text agree on every loan category: the text comparison is a comparison of sets |
| CatalogSeeding.ProgramCatalogSeeder.Desired | backend/prisma/seed-program-catalog.ts:125-135 | the curated categories first, then each live one not among them, without repetition |
| CatalogSeeding.ProgramCatalogSeeder.AssignName | backend/prisma/seed-program-catalog.ts:118-195 | a name is rewritten exactly when its sorted list reads differently from the stored one; the write fails exactly when a category is not a loan category |
| CatalogSeeding.ProgramCatalogSeeder.AssignCategories | backend/prisma/seed-program-catalog.ts:114-195 | all names in order; fails, leaving the earlier names rewritten, exactly when some name that must change cannot be stored |
| CatalogSeeding.ProgramCatalogSeeder.CorrectPair | backend/prisma/seed-program-catalog.ts:255-278 | a curated pair is written exactly when it was read with another basis |
| CatalogSeeding.ProgramCatalogSeeder.CorrectName | backend/prisma/seed-program-catalog.ts:246-279 | the curated pairs of one name end on their basis and the count is the number that did not have it |
| CatalogSeeding.ProgramCatalogSeeder.CorrectBases | backend/prisma/seed-program-catalog.ts:214-279 | likewise over all matrix names; other pairs are untouched |
| CatalogSeeding.ProgramCatalogSeeder.WriteRule | backend/prisma/seed-program-catalog.ts:366-423 | absent and linked names are skipped, an equal rule is left, an invalid one refused, any other written |
| CatalogSeeding.ProgramCatalogSeeder.WriteRules | backend/prisma/seed-program-catalog.ts:312-423 | likewise over all curated rules, with the three counts |
| CatalogSeeding.ProgramCatalogSeeder.SeedProgramCatalog | backend/prisma/seed-program-catalog.ts:81-423 | a dry run writes nothing; a real one applies all three axes unless the first throws; the five counts are those of the names, pairs and rules to be written, the rules refused and the rules skipped as linked |
| CatalogConvergence.PairAfterAxis1 | backend/prisma/seed-program-catalog.ts:118-195 | the first axis leaves a pair as it was or, for a changed name, exactly as decided, on its curated basis |
| CatalogConvergence.LivePairIsNeverUnassigned | backend/prisma/seed-program-catalog.ts:20-28 | a stored pair with live programs survives every stage of every run, even one that fails |
| CatalogConvergence.DecidedPairsAreOffered | backend/prisma/seed-program-catalog.ts:125-144 | after a run every curated category and every live one is offered under its name |
| CatalogConvergence.OneBasisExactly | backend/prisma/data/program-catalog-matrix.ts:254-271 | every offered matrix pair ends on exactly its curated basis; a pair kept only for its live programs states one basis if and only if its name was rewritten or it already did |
| CatalogConvergence.CuratedBasisExactly | backend/prisma/data/program-catalog-matrix.ts:254-271 | which basis: a curated pair ends without a payslip exactly when the category is business, the name is self-employed, or the name has a no-payslip fact and the category is personal, and with one exactly otherwise |
| CatalogConvergence.RewrittenBasisExactly | backend/prisma/data/program-catalog-matrix.ts:254-271 | and so does every pair, curated or live, of a name that is rewritten |
| CatalogConvergence.ChangedExactly | backend/prisma/seed-program-catalog.ts:125-144 | a name is rewritten exactly when some loan category is stored and not decided, or the reverse |
| CatalogConvergence.OfferedExactly | backend/prisma/seed-program-catalog.ts:125-195 | after a run a matrix name is offered under exactly the curated categories and those of its live programs |
| CatalogConvergence.HangingExactly | backend/prisma/seed-program-catalog.ts:150-195 | of a rewritten name the question ticks and orders under a category no longer decided go, and one newly under car is ticked for every active car question; those of any other name all stay |
| CatalogConvergence.RuleAfterRun | backend/prisma/seed-program-catalog.ts:366-423 | a rule is the curated one afterwards exactly when the name is unlinked, its rule was another value and the curated one is valid; nothing else of a name changes |
| CatalogConvergence.RuleCountsExactly | backend/prisma/seed-program-catalog.ts:366-423 | the three rule counts are the numbers of curated rules to be written, refused and linked |
| CatalogConvergence.CountsNamesRewritten | backend/prisma/seed-program-catalog.ts:114-195 | the first count is the number of catalog names with a loan category stored and not decided, or the reverse |
| CatalogConvergence.WrongBasisExactly | backend/prisma/seed-program-catalog.ts:255-278 | the second counts curated pairs whose flags are not their curated basis |
| CatalogConvergence.OtherNamesKeepTheirPairs | backend/prisma/seed-program-catalog.ts:435-442 | names the matrix does not list keep every pair |
| CatalogConvergence.CorrectionsWereAnnounced | backend/prisma/seed-program-catalog.ts:214-243 | the basis corrections a run makes are among those its dry run announces |
| CatalogConvergence.SecondRunWritesNothing | backend/prisma/seed-program-catalog.ts:81-423 | after a run that went through, the next goes through and makes zero writes on all three axes, rules being compared up to key order |
| CatalogConvergence.CompletesExactly | backend/prisma/seed-program-catalog.ts:102-112 | the seed goes through if every live program under a matrix name has one of the four loan categories, and only if, unless a category is empty or holds a comma |
| CatalogConvergence.KeptPairMayStayUndecided | backend/prisma/seed-program-catalog.ts:214-279 | under any matrix, a pair of a matrix name kept only for its live programs can stay sold both ways, or neither, through a run that goes through |
| ProgramOptions.ProgramOptionsService.Offered | backend/src/bank-programs/program-options.service.ts:52-55 | the offered names in catalog order, each with its last entry |
| ProgramOptions.ProgramOptionsService.Tally | backend/src/bank-programs/program-options.service.ts:59-73 | the nested counts are, for each basis and offered name, the number of programs the apply filter accepts |
| ProgramOptions.ProgramOptionsService.TypeOption | backend/src/bank-programs/program-options.service.ts:75-100 | one income type: names in catalog order, counts, total and linked product |
| ProgramOptions.ProgramOptionsService.ForCategory | backend/src/bank-programs/program-options.service.ts:40-103 | both income types, in order, each as the filter would have it |
| ProgramOptions.AcceptedMeansSome | backend/src/bank-programs/program-scope.ts:51-63 | the filter accepts some program exactly when one matches the triple |
| ProgramOptions.PickerListsExactly | backend/src/bank-programs/program-options.service.ts:52-99 | a name is listed under a basis if and only if some catalog entry offers it under the category and some active program has that category, letter case aside, that name and that basis |
| ProgramOptions.MatchesExactly | backend/src/bank-programs/program-scope.ts:51-63 | what the filter asks: each of the three fields, when the request names it |
| ProgramOptions.ListedNameExactly | backend/src/bank-programs/program-options.service.ts:52-99 | a listed name has the labels of its last offered entry, the number of programs of the triple, and its linked product under the surrogate basis alone |
| ProgramOptions.NamesInCatalogOrder | backend/src/bank-programs/program-options.service.ts:52-99 | names come in the order of their first offered entries |
| ProgramOptions.TotalCountsPrograms | backend/src/bank-programs/program-options.service.ts:75-100 | a basis total is the number of programs of the category and basis whose name some entry offers under the category |
| ApplicationsSource.ApplicationRepository.PersistMatch | backend/src/applications/application.repository.ts:182-227 | application, offers, questionnaire, answers and events are stored together or, on a key clash or an error at any statement, not at all |
| ApplicationsSource.ApplicationRepository.InsertOffers | backend/src/applications/application.repository.ts:188-198 | the engine's offers are stored with their positions as ranks |
| ApplicationsSource.ApplicationRepository.WriteApplyEvents | backend/src/applications/applications.service.ts:554-604 | the three events in order, or none |
| ApplicationsSource.ApplicationRepository.ListOffers | backend/src/applications/application.repository.ts:229-239 | exactly the offers of the application that are not erased, by rank |
| Ordering.FindInOrder | backend/src/applications/application.repository.ts:231-239 | a query with an `orderBy` lists every row that matches once, by the column |
| Ordering.InOrderIsUnique | backend/src/applications/application.repository.ts:232-235 | where no two rows share the column there is one such listing |
| ApplicationsSource.ApplicationRepository.FindByIdempotencyKey | backend/src/applications/application.repository.ts:346-356 | the customer's application under the key, if any |
| ApplicationsSource.ApplicationRepository.MarkOfferSelected | backend/src/applications/application.repository.ts:456-472 | offer and time of one application are set; its other columns and every other application stay |
| ApplicationsSource.ApplicationsService.SelectOffer | backend/src/applications/applications.service.ts:167-253 | each refusal exactly under its condition, in the source's order; a complete request of the owner of a matched, open application for an unerased offer of it goes through, and then offer, time and one event are written and nothing else |
| ApplicationsSource.ApplicationsService.Apply | backend/src/applications/applications.service.ts:330-609 | a known key answers from the stored row and writes nothing, a differing payload hash is refused; any other request is stored whole or not at all, and its answer shows the engine's offers in order with their figures, the best figures of the first, counts, unavailable list and no-match details as the engine gave them, and is a refusal exactly when the engine did not match or gave no offer |
| ApplicationTables.AnswerFromTables | backend/src/applications/applications.service.ts:622-676 | any answer, from the tables: the unerased offers by rank with their figures, the best ones those of the least rank, and the stored counts and lists, each in its own field |
| ApplicationTables.PersistedExactly | backend/src/applications/application.repository.ts:182-227 | what a match adds to each table, row by row |
| ApplicationRuns.StepKeepsInv | backend/src/applications/applications.service.ts:185-252 | every step keeps one application a customer and key, dense ranks, and one proceeded event exactly for each proceeded application |
| ApplicationRuns.RunKeepsInv | backend/src/applications/applications.service.ts:167-253 | so does every interleaving of lookups, persists, selections and erasures |
| ApplicationRuns.RunIsLater | backend/src/applications/application.repository.ts:456-472 | over any run applications keep owner, key, summary and a made selection, offers change only by being erased, events are only added |
| ApplicationRuns.ProceededIsFinal | backend/src/applications/applications.service.ts:185-252 | once proceeded with, the offer and time never change and exactly one event records them |
| ApplicationRuns.SelectionIsValid | backend/src/applications/applications.service.ts:187-214 | a selection is only ever set by the owner, on a matched application, to an offer of its own that was not erased |
| ApplicationRuns.SelectionGoesThroughExactly | backend/src/applications/applications.service.ts:185-252 | and in every reachable state a selection goes through exactly when it is complete, by the owner, on a matched application with nothing chosen, for an unerased offer of it |
| ApplicationRuns.ReadingIsEngineOrder | backend/src/applications/application.repository.ts:231-239 | reading by rank returns the engine's order, less the offers erased since |
| ApplicationRuns.FreshAnswerShowsAll | backend/src/applications/applications.service.ts:454-456 | the first answer lists every offer of the engine in its order with its figures |
| ApplicationRuns.ReplayWritesNothing | backend/src/applications/applications.service.ts:338-346 | under a stored key no second application is ever stored and a replay changes nothing, whatever requests were in flight |
| ApplicationRuns.ReplayShowsTheSame | backend/src/applications/applications.service.ts:622-676 | a replay shows the same offers, order and figures less those erased, the same counts, unavailable list and no-match details, and is a refusal exactly when none is left or the application is no longer matched |
| ApplicationRuns.ReplayAnswersTheRequest | backend/src/applications/applications.service.ts:622-676 | any later answer, told from the request stored: its offers in the engine's order less those erased since, best figures those of the first one left, its counts and lists; a refusal exactly when the engine did not match, the application was erased or no offer is left |
| VersionedRows.StepKeepsInv | backend/src/banks/banks.repository.ts:70-81 | every step of every writer keeps each row equal to its start changed by its successful writes, in version order |
| VersionedRows.RunKeepsInv | backend/src/bank-programs/bank-programs.repository.ts:323-412 | so does every interleaving of updates, toggles, bank requests and deletions |
| VersionedRows.VersionCountsWrites | backend/src/banks/banks.repository.ts:77 | the stored version is the initial one plus the successful writes |
| VersionedRows.NoUpdateIsLost | backend/src/bank-programs/bank-programs.repository.ts:379-383 | each successful write applied to exactly the state its version names and left the next; no two named the same version |
| VersionedRows.NoSecondWinner | backend/src/bank-programs/bank-programs.repository.ts:379-383 | once a write naming a version succeeded none naming it ever succeeds again |
| VersionedRows.AnswerOfAWinner | backend/src/banks/banks.repository.ts:75-80 | the row a bank update returns is at or after its own write, its own exactly when no other came between; it is absent only when the row was deleted |
| VersionedRows.WinnerMayFindNothing | backend/src/banks/banks.repository.ts:75-80 | and then it can be absent though the write went through: create, read, write, delete, read back |
| VersionedRows.WrittenAlone | backend/src/banks/banks.repository.ts:70-78 | a compare-and-set answers and does to the rows what the rows alone decide: the protocol step is the repository call |
| VersionedRows.AuditedBefore | backend/src/banks/banks.service.ts:126-159 | the audited earlier version is never after the overwritten one and equals it exactly when nobody wrote since the first read |
| VersionedRows.OwnVersionWinsExactly | backend/src/banks/banks.service.ts:223-240 | a logo confirmation goes through exactly when the row is still there and nobody wrote since it was read |
| VersionedRepositories.BankProgramRepository.UpdateWithVersion | backend/src/bank-programs/bank-programs.repository.ts:323-386 | writes exactly when the version matches; submitted updatable columns change, all others stay, the version grows by one: one compare-and-set step of the protocol |
| VersionedRepositories.BankProgramRepository.BuildUpdate | backend/src/bank-programs/bank-programs.repository.ts:329-377 | the update object holds exactly the submitted updatable columns and the writer |
| VersionedRepositories.PatchedExactly | backend/src/bank-programs/bank-programs.repository.ts:329-377 | column by column: one of the twenty-one an operator may set takes a submitted value, any other keeps its own |
| VersionedRepositories.BankProgramRepository.ToggleWithVersion | backend/src/bank-programs/bank-programs.repository.ts:389-412 | likewise for the active flag alone |
| VersionedRepositories.BanksRepository.Update | backend/src/banks/banks.repository.ts:70-81 | the guarded update, one compare-and-set step of the protocol, and the row it left when nothing interferes |
| VersionedRepositories.BanksService.Update | backend/src/banks/banks.service.ts:126-160 | not found, stale with the stored version, or saved exactly on the stored version: every submitted field takes its value, every other and the logo stay, and one event is written |
| VersionedRepositories.BanksService.Toggle | backend/src/banks/banks.service.ts:162-188 | likewise for the active flag |
| VersionedRepositories.BanksService.ConfirmLogoUpload | backend/src/banks/banks.service.ts:223-251 | compares against the version read before the storage check, whatever happened since |
| Annuity.PaymentExistsExactly | backend/prisma/seed-applications.ts:132-136 | for a rate that is not negative there is an installment exactly when rate and tenor are positive; otherwise the source divides by zero |
| Annuity.BalanceSolved | backend/prisma/seed-applications.ts:132-136 | the monthly recurrence solved for any payment |
| Annuity.BalanceUnderExactPayment | backend/prisma/seed-applications.ts:132-136 | under the exact payment the balance is the unpaid share of the loan, never negative, falling every month, zero at the end |
| Annuity.PaysAtLeastTheLoan | backend/prisma/seed-applications.ts:132-136 | the payments add up to at least the loan |
| Annuity.RoundingError | backend/prisma/seed-applications.ts:132-136 | at a twelfth of the yearly percentage, the installment is the exact payment rounded half up, and leaves at most ((1+r)^n - 1) / 2r after the last month, either way |
| StatusPlans.DriftIsAtMostHalf | backend/prisma/seed-demo-support.ts:119-125 | rounding the shares of m weights, ties either way, misses the count by at most m/2 rounded down |
| StatusPlans.DriftIsAtMostOne | backend/prisma/seed-demo-support.ts:112-125 | the three buckets miss by at most one, and never overshoot without a resolved entry to give back |
| StatusPlans.StatusPlan | backend/prisma/seed-demo-support.ts:119-133 | exactly `count` entries: the rounded expansion, one open more or one resolved fewer |
| StatusPlans.PlanFollowsTheMix | backend/prisma/seed-demo-support.ts:119-133 | of each status its rounded share but for that one entry |
| StatusPlans.PlanInNumbers | backend/prisma/seed-demo-support.ts:112-133 | in numbers: of every twenty-six nine open, five in progress and twelve resolved, each rounded half up, but for that one entry |
| StatusPlans.PlanIsGrouped | backend/prisma/seed-demo-support.ts:119-133 | the open ones first and the resolved last, but for the open one that may close the plan |
| ProofConflicts.IncomeProofConflicts.CatalogProof | backend/scripts/income-proof-conflicts.ts:75-92 | the proof each name states: of the linked product's rule when it has one, else of its own |
| ProofConflicts.IncomeProofConflicts.Bucket | backend/scripts/income-proof-conflicts.ts:110-121 | the proofs of each name's programs in order, and the unfiled codes |
| ProofConflicts.IncomeProofConflicts.Judge | backend/scripts/income-proof-conflicts.ts:127-171 | one name's verdict |
| ProofConflicts.IncomeProofConflicts.Run | backend/scripts/income-proof-conflicts.ts:110-203 | each list holds exactly the names of its kind; a name is in some list exactly when a program filed under it carries another proof than the stated one; no name is in two lists or twice in one, and the report is clean when all are empty |
| ProofConflicts.BucketDecides | backend/scripts/income-proof-conflicts.ts:127-171 | the tests on a bucket of proofs decide what they are meant to decide about the programs |
| ProofConflicts.StatedProofExactly | backend/scripts/income-proof-conflicts.ts:75-92 | what a name states, row by row: the proof of the last rule of the product it links to when there is one, else of its own rule, else nothing |
| ProofConflicts.UnfiledAt | backend/scripts/income-proof-conflicts.ts:110-121 | each unfiled program is listed after those before it, and no other is |
| ProofConflicts.CleanExactly | backend/scripts/income-proof-conflicts.ts:193-203 | the report is clean if and only if every surrogate program is filed under a name whose effective proof is its own |

## Left out

- The matching engine, rate cascade, obligations and question-scope rules: `apply` receives their result as an ordered offer list.
- `validateIncomeRule` is an uninterpreted verdict on a rule, the same on every run of the seed.
- Controllers, guards, JWT signing, cookies, Swagger and configuration: no state the properties speak of.
- Isolation levels below the transaction: each `$transaction` and each single statement is one atomic step.
- Token generation and hashing, and row ids: new hashes and ids are inputs, fresh by requirement; user agent and source IP of a token are not stored.
- The refresh token and the last-login time a successful login writes: the two models are not joined.
- E-mail canonicalisation, the sign-in attempt's user id and the audit write of a login: one e-mail's attempts are logged by outcome only.
- One clock for the server and Redis; members of the sorted set are distinct nonces.
- `bigint`, functions, symbols, `toJSON`, sparse arrays and integer-like key order in JSON values; the reader accepts only what the printer writes.
- The seed's labels, Arabic text, numeric and text rule columns and helper texts are folded into one content value a question; option lists read from registries and the slug fallback are resolved inputs.
- Audit columns (`createdBy`, `updatedAt`) except where a property names them; console reports and change-log lines.
- The texts, types and rule columns copied into a published snapshot: it is modelled as the codes it serves, in their order.
- `normalizeIncomeAssumption` and the report's text and line order: a proof is the value of an uninterpreted function on a rule.
- Decimal formatting of offer figures and the columns of an offer no response shows: one frozen quote an offer.
- Hard deletion of an offer row, which would clear a selection through the foreign key: no code of the applications feature does it.
- The request scope, profile and questionnaire resolution of `apply` before the engine runs: inputs of one match.
- The admin listing, lead status and the applied-applications screens: projections of rows already covered.
- Writes of bank programs outside the repository, and the transaction around them that its update does not join.
- Floating point: the installment is over exact reals, the apportionment over exact fractions with ties rounded up; `DriftIsAtMostHalf` holds for ties either way.
- `BuildUpdate`: one loop over the column names stands for the source's twenty-one field tests.
- `ConfirmLogoUpload`: takes the row read before the storage check as an argument, so that anything may happen to it in between.
