# Storage-level protocols of sa-token, in Dafny

This project models the protocols that `sa-token-core` runs on its storage adapter, and proves what
they promise over every input, every run and every interleaving:

- **Same-Token rotation**: the calls as one caller runs them (`SameToken`), and any number of them
  interleaved one storage call at a time (`SameTokenRace`).
- **Distributed sessions**: the in-memory backend and its manager (`MemorySessions`), the Dao-backed
  one with expiry and a self-repairing index (`DaoSessions`) and the manager's bulk deletes over it
  (`DaoManager`), both measured against one plain list of sessions (`Sessions`) over whole runs
  (`SessionBackends`); backends whose reads drop what has expired (`EvictingReads`).
- **Request signing**: the canonical text and the signed round trip (`Sign`, `Text`, `Decimal`), and
  how often one request is accepted over a run (`SignReplay`), and one signature over all the maps its
  text can be read as (`SignReadings`).
- **Login nonces** (`Nonce`), **refresh tokens** (`RefreshTokens`; crashes and chains in `RefreshRuns`,
  listing and revocation in `RefreshRevocation`, keys in `RefreshKeys`), **temp tokens** (`TempToken`,
  `TempTokenRuns`, `TempTokenIndex`), the default **counters** (`Counter`).
- **Key schema**: what every builder's text is and when two texts coincide (`Keys`, `KeyNames`; spelled out in `KeyTexts`), and
  the builders as they fill a buffer (`KeyBuilder`).
- The store under all of them (`Storage`), and `ct_eq` with UTF-8 (`ConstantTime`, `Utf8`; section 3
  of RFC 3629).

Code that updates storage or fields is a class with methods. Each method's `ensures` equates the new
state and the result with a function of the old state; the lemmas are about that function. Times are in
milliseconds; a key holding a time to live `d` is absent once `d` has elapsed.

`dafny verify dfyconfig.toml` checks everything.

## Assumptions

- One call of the storage trait is one atomic step, and does not fail.
- Tokens and ids that are generated at random arrive as arguments. `SameTokenRace` takes them from
  outside the set of tokens that ever existed; the refresh lemmas take them as pairwise different.
- The clock is the store's `now`; it never goes back.
- Deleting a key deletes the scalar and the list under it, as `MemoryStorage` does
  (`sa-token-storage-memory/src/lib.rs:166-171`). In runs of sessions and of refresh tokens the backend may
  also drop any expired scalar at any time, with the list under its key, as `MemoryStorage` does when one
  is read (`lib.rs:146-157`); `EvictingReads` shows that its reads come to that. Where no id names an index, neither touches a list.
- HMAC (section 2 of RFC 2104) is an arbitrary function `mac`. The temp-token digest is an injective
  function whose texts hold no colon, as hexadecimal ones do not.

## Where the code does less than it says, or than one would expect

Each of these is a theorem below, with the exact condition under which the expectation does hold.

- `sign.rs:47` says a nonce can be consumed once. The nonce is kept for one window, while the timestamp
  is accepted for a window on either side. A request accepted now can be accepted n times in all exactly
  when n - 1 more windows end by its timestamp plus the window (`AttainsExactly`): never four times
  (`ReplayBound`), three times only from the start of its window (`ThreeAcceptsHappen`), and once only
  exactly when the clock has passed its timestamp (`OnceExactly`).
- The bound is not one per signature. A signed text can be read as other maps, and over all of them a
  signature made of keys and values free of separators is accepted at most three times exactly when the
  nonce is the only signed key that sorts before `timestamp` and itself holds no `=`
  (`SignatureBoundExactly`). Otherwise some sorted map has the same text and timestamp and no nonce
  (`NonceReadAway`), and inside the window there is no bound at all (`SignatureBoundFails`). Where the
  verified maps are themselves free of separators the bound holds for every signature (`SignatureBound`).
  One map is accepted without limit exactly when it holds no nonce (`UnlimitedExactly`).
- The nonce is taken before the signature is checked: an earlier verification of any map with any signature
  makes a correctly signed request fail exactly when it took its nonce less than a window before
  (`TakenNonceExactly`).
- In `nonce.rs` two consumptions are a timeout apart (`NonceSpacing`) and no more than that is promised
  (`ConsumedAgainExactly`). `cleanup_expired` finds nothing to delete as long as the timeout is not changed,
  because a record old enough has already expired (`CleanupDeletesNothing`). It can delete a live record
  exactly when its entry outlives its stamp plus the timeout in force (`SweptSometimeExactly`).
- `same_token.rs:5` says the current and the previous value are accepted. A refresher that lost may
  write an older token to `past` after another has saved the current one there, so a token that is
  current when `is_valid` starts can be rejected with a single refresh overlapping. `GraceExactly` says
  when; `ClobberIsReachable` is a run from the start that gets there; `SerialNeverClobbers` says that
  refreshes that do not overlap never do.
- A stored current token that is the empty string fails every refresh exactly until it expires
  (`EmptyTokenWedges`).
- The canonical text is not injective when a value holds `&` (`UncleanValuesCollide`). It can be read
  back exactly for maps free of separators (`CanonicalInvertible`).
- Ids without a colon do not quite keep the categories apart: the online record of a login id (or login
  type) `index` is the online index of another (`ColonFreeKeysMeetOnlyOnline`, `OnlineIndexMeetsOnline`).
- The session id `index:` + x has the key of login x's index in the Dao-backed storage. Deleting it drops
  that index, and deleting a login's last session drops a session so named (`IndexIdSplitsBackends`). The
  backends stay alike exactly when no delete of the run does either (`BackendsAgree`); one delete keeps
  every live session indexed exactly when it does not name the index of a surviving one
  (`DeleteKeepsIndexedExactly`). Ids that do not start with `index:` qualify.
- In the same way the refresh token `user:` + namespace has the key of that account's index. Deleting it
  drops the index, and a later revoke leaves the account's tokens valid (`DeletedIndexDefeatsRevoke`). Every
  held token stays listed exactly when no operation does that (`RunKeepsListed`), and then a revoke works for
  every login type (`RevokeLeavesNothingValid`). `NamesIndexExactly` says which tokens can do it, in both
  layouts; runs without them qualify (`PlainRunsQualify`).
- Deleting a refresh token looks in the default account's index, so it unlists the token from the index it
  was stored under exactly when the login type shares the default account's keys, or the index is kept under
  the token's own key (`DeleteUnlistsExactly`). A refresh files the new access token under the default
  account too (`RefreshFilesUnderDefault`). In the three-segment layout the types that share those keys are
  the empty one, `default` and `login`; in the four-segment layout only `default` (`DefaultKeysExactly`).
- The manager's two bulk deletes over the Dao do what they say exactly when no deleted session names the
  index of one that stays, and the key of an index they empty keeps no session that stays
  (`BulkDeleteExactly`, `PlainIsExact`).
- A query over a backend whose reads evict returns the same sessions, and loses no index exactly when no
  expired id it reads names one (`EvictingQueryExactly`).
- `find_token` is meant to find a value's newest token. Deleting an older token of the value hides the newer
  one (`OlderDeleteHidesNewer`). It finds the newest indexed token exactly as long as that parses and
  neither it nor a live token of the value in the namespace has been deleted since (`FoundAfterRun`).
- Temp-token namespaces may hold colons. Deleting token `b:x` of namespace `a` deletes token `x` of
  `a:b` and leaves that value's index entry behind (`CrossingDelete`, `DeleteSoundExactly`).
- `check_timestamp` truncates the age, so a nonce also checks during the second before its own
  timestamp (`GeneratedNonceChecks`).
- An access timeout of zero is a time to live of zero: a refresh then leaves no live body at all
  (`CrashLeavesABody`). A refresh that is cut short and retried leaves an access token's body
  that no record points at (`CrashThenRetryOrphan`).
- A refresh reports a refresh expiry counted from now, while the record keeps the one fixed when it was
  stored, and that is the one that is checked (`RefreshChain`). The token is good until the reported expiry
  exactly when the record has none or one no earlier than the millisecond before it
  (`ReportedExpiryExactly`): for the first refresh, only within a millisecond of storing
  (`FirstReportExactly`). `ReportOutlivesToken` is a token refused a day before the reported time.
- Saving a session under another login id leaves it in the former login's index in both backends: in
  memory exactly when the session is still stored under the former login (`SaveAgreesExactly`), in the Dao
  exactly when the former index still lists the id, live or not (`RebindExactly`, `RebindingMisleadsQuery`).

## Model

| member | source | states |
|---|---|---|
| Storage.Store.Get | sa-token-adapter/src/storage.rs:62 | a key past its time to live reads as absent |
| Storage.Store.Set | sa-token-adapter/src/storage.rs:64 | overwrites the value and the expiry of one key and nothing else |
| Storage.Store.Delete | sa-token-adapter/src/storage.rs:66 | removes what is kept under one key and nothing else |
| Storage.Store.SetIfAbsent | sa-token-adapter/src/storage.rs:133-138 | writes exactly when the key is absent or expired, and says which |
| Storage.CompareAndSwap | sa-token-adapter/src/storage.rs:145-160 | swaps exactly when the live value (or its absence) is the expected one, otherwise changes nothing |
| Storage.Store.ListPushUnique | sa-token-adapter/src/storage.rs:167-177 | appends a member once, to an empty list if the old one has expired, sets the expiry only when a time to live is given, and returns the length |
| Storage.Store.ListRemove | sa-token-adapter/src/storage.rs:180-181 | removes a member, keeps the order of the rest and the expiry, and says whether it was there |
| Storage.Store.ListRange | sa-token-adapter/src/storage.rs:183-191 | a page of the members in order, none for an absent or expired list |
| Storage.PushedLasts | sa-token-adapter/src/storage.rs:167-177 | a pushed member is listed once, for the given time to live, or as long as a live list already had, or for ever |
| Storage.SliceExactly | sa-token-adapter/src/storage.rs:183-191 | which members a page holds and how many |
| Counter.CountExactly | sa-token-adapter/src/storage.rs:103-107 | an absent key and a text that is no number count as zero, a printed number as itself |
| Counter.Incr | sa-token-adapter/src/storage.rs:99-111 | one more than the number stored (0 when absent or unreadable), which the key then counts as, without expiry |
| Counter.Decr | sa-token-adapter/src/storage.rs:113-125 | the same with one less |
| Counter.OverlappingIncrements | sa-token-adapter/src/storage.rs:99-111 | n overlapping increments from c end between c+1 and c+n in every interleaving of their reads and writes |
| Counter.OverlappingMixed | sa-token-adapter/src/storage.rs:99-125 | increments and decrements that overlap end between c minus the decrements and c plus the increments |
| Counter.SerialIsExact | sa-token-adapter/src/storage.rs:99-125 | when no two calls overlap no update is lost, at any point of the run |
| Counter.FullOverlapLosesAllButOne | sa-token-adapter/src/storage.rs:99-111 | when all have read before the first writes, the counter ends at c+1: the lower bound is attained |
| Decimal.ParseOfText | sa-token-adapter/src/storage.rs:103-109 | a printed number parses back exactly when it is in the range of `i64` |
| Decimal.ValueExactly | sa-token-adapter/src/storage.rs:106 | a text has a value exactly when it is one or more digits |
| Decimal.SignExactly | sa-token-adapter/src/storage.rs:106 | a plus sign changes nothing and a second sign is refused |
| ConstantTime.CtEq | sa-token-core/src/http_basic.rs:16-25 | the xor/or accumulation decides equality of the two byte strings, both ways |
| ConstantTime.SameText | sa-token-core/src/same_token.rs:64-67 | comparing the UTF-8 bytes of two texts decides equality of the texts |
| Utf8.BytesInjective | sa-token-core/src/same_token.rs:64-67 | different texts have different bytes, by prefix-freeness of the encoding |
| SameToken.SameToken.RefreshToken | sa-token-core/src/same_token.rs:78-105 | alone, keeps the old token as past, stores the new one and returns it; an empty stored token makes it fail and change nothing |
| SameToken.SameToken.GetToken | sa-token-core/src/same_token.rs:48-55 | returns a non-empty stored token untouched, refreshes otherwise |
| SameToken.SameToken.IsValid | sa-token-core/src/same_token.rs:59-74 | accepts exactly the non-empty live current and past values |
| SameToken.GraceWindow | sa-token-core/src/same_token.rs:59-105 | after any history of refreshes exactly the last two tokens are accepted, each with its exact expiry |
| SameToken.EmptyTokenWedges | sa-token-core/src/same_token.rs:80-104 | in any sequence of lone refreshes and waits, each fails exactly while the empty token is still stored, and returns its own token otherwise |
| SameTokenRace.StepKeepsInv | sa-token-core/src/same_token.rs:59-105 | every storage step of every call keeps it: undrawn tokens are private to their call, swapped-out ones never return, no token is swapped out twice |
| SameTokenRace.RunKeepsInv | sa-token-core/src/same_token.rs:59-105 | so it holds in every state of every interleaved run, expiry included |
| SameTokenRace.OneWinnerPerToken | sa-token-core/src/same_token.rs:86-104 | of the refreshers that read the same token first, at most one swaps it out |
| SameTokenRace.EveryTokenWasCurrent | sa-token-core/src/same_token.rs:48-105 | in every reachable state past is absent or was current, each returned token was current at an instant of that call, each accepted candidate was current |
| SameTokenRace.RefreshersConverge | sa-token-core/src/same_token.rs:78-105 | when all read the same token before any swap, in every interleaving exactly one swaps, all return its token, and that token and the old one are the stored pair |
| SameTokenRace.GraceExactly | sa-token-core/src/same_token.rs:59-105 | a validator of the current token, with one refresh overlapping, can be rejected if and only if another writer has replaced what that refresh saved to past |
| SameTokenRace.SerialNeverClobbers | sa-token-core/src/same_token.rs:86-95 | refreshes that do not overlap each other never reach that state |
| SameTokenRace.ClobberIsReachable | sa-token-core/src/same_token.rs:86-104 | a run from the start that reaches it, with the stale refresher already finished |
| SameTokenRace.LoneRefreshIsSequential | sa-token-core/src/same_token.rs:78-105 | the steps of an undisturbed call end in the state and result of the sequential refresh |
| SameTokenRace.LoneFetchIsSequential | sa-token-core/src/same_token.rs:48-55 | the steps of an undisturbed `get_token` end in the state and result of the sequential call |
| SameTokenRace.LoneCheckIsSequential | sa-token-core/src/same_token.rs:59-74 | the reads of an undisturbed `is_valid` end in the verdict of the sequential call |
| Keys.EscapeCollides | sa-token-core/src/keys.rs:358-366 | two ids escape alike exactly when they agree after every `%3A` is read as a colon |
| Keys.AccountNsCollides | sa-token-core/src/keys.rs:325-348 | for non-default login types two namespaces coincide exactly when the types are equal and the ids agree that way |
| Keys.DefaultIdMeetsNamespace | sa-token-core/src/keys.rs:325-355 | a bare default id is also some other account's namespace exactly when it holds a colon and the text before its last one is a non-default type |
| Keys.SaKeys.ParallelBuildersAgree | sa-token-core/src/keys.rs:452-462 | in the three-segment layout the builders taking a namespace and those taking type and id give the same text |
| KeyBuilder.PushEscaped | sa-token-core/src/keys.rs:358-366 | the loop appends the escaped id |
| KeyBuilder.BuildAccountNs | sa-token-core/src/keys.rs:325-348 | the buffer ends as the namespace, and the reserved capacity is its length in bytes |
| KeyBuilder.BuildGlobal | sa-token-core/src/keys.rs:383-403 | the same in both layouts |
| KeyBuilder.BuildAccount | sa-token-core/src/keys.rs:405-450 | the same in both layouts, escapes counted |
| KeyBuilder.BuildFromNs | sa-token-core/src/keys.rs:452-466 | the global key of the namespace, or an error in the four-segment layout |
| KeyBuilder.BuildDisable | sa-token-core/src/keys.rs:564-585 | the ban key in both layouts |
| KeyBuilder.BuildDisableByNs | sa-token-core/src/keys.rs:588-598 | the ban key of a namespace, or an error in the four-segment layout |
| KeyBuilder.EscapedLen | sa-token-core/src/keys.rs:332-337 | escaping adds two bytes a colon, which is what the capacity adds |
| KeyTexts.TokenTexts | sa-token-core/src/keys.rs:482-524 | the texts of the token keys |
| KeyTexts.NonceTexts | sa-token-core/src/keys.rs:633-641 | the texts of the nonce, signing nonce and refresh keys |
| KeyTexts.OAuth2Texts | sa-token-core/src/keys.rs:658-678 | the texts of the OAuth2 keys |
| KeyTexts.SsoTexts | sa-token-core/src/keys.rs:682-722 | the texts of the SSO keys and the online index |
| KeyTexts.ClusterTexts | sa-token-core/src/keys.rs:739-753 | the texts of the session, session index and credential keys |
| KeyTexts.FixedTexts | sa-token-core/src/keys.rs:733-767 | the texts of the keys without arguments |
| KeyTexts.PairTexts | sa-token-core/src/keys.rs:601-705 | the texts of the second-factor and online keys |
| KeyTexts.TempTexts | sa-token-core/src/keys.rs:779-792 | the texts of the temp-token keys |
| KeyTexts.AccountTexts | sa-token-core/src/keys.rs:528-536 | the texts of the login mapping and login index of any account |
| KeyTexts.IndexTexts | sa-token-core/src/keys.rs:645-728 | the texts of the refresh and online indexes of any account |
| KeyTexts.GrantTexts | sa-token-core/src/keys.rs:540-561 | the texts of the session, permission and role keys of any account |
| KeyTexts.AccountPairTexts | sa-token-core/src/keys.rs:564-715 | the texts of the ban and online keys of any account |
| KeyTexts.FourSegmentTexts | sa-token-core/src/keys.rs:383-462 | the four-segment texts, ban keys and the two errors included |
| KeyTexts.NamespaceTexts | sa-token-core/src/keys.rs:887-906 | the namespaces the tests give |
| KeyNames.KeysCoincide | sa-token-core/src/keys.rs:482-792 | two named keys are equal exactly when category and tail are, or one category followed by a colon starts the other and the tails make up the difference |
| KeyNames.NestingCategories | sa-token-core/src/keys.rs:482-792 | among all named builders only refresh, online, dsession and the two temp categories nest |
| KeyNames.ColonFreeKeysMeetOnlyOnline | sa-token-core/src/keys.rs:482-792 | keys of different categories with colon-free arguments are equal exactly for an online record of `index` against the online index |
| KeyNames.OnlineIndexMeetsOnline | sa-token-core/src/keys.rs:700-722 | that exception happens, for every token |
| KeyNames.DistributedKeysApart | sa-token-core/src/keys.rs:739-753 | session bodies with colon-free ids, login indexes and credentials have equal keys only when they are the same key |
| Sign.InsertSorted | sa-token-core/src/sign.rs:79-90 | inserting keeps the map sorted and adds only that entry |
| Sign.CanonicalInvertible | sa-token-core/src/sign.rs:54-61 | a parser recovers the map minus `sign` exactly when its keys hold no `=` or `&` and its values no `&` |
| Sign.CanonicalInjective | sa-token-core/src/sign.rs:54-61 | two such maps sign the same text exactly when they agree outside `sign` |
| Sign.UncleanValuesCollide | sa-token-core/src/sign.rs:54-61 | with `&` in a value two different sorted maps sign the same text |
| Sign.RequestSign.CreateSignedMap | sa-token-core/src/sign.rs:79-90 | the map with timestamp, nonce and signature inserted, or the missing-secret error |
| Sign.RequestSign.VerifyParams | sa-token-core/src/sign.rs:94-132 | its answer and what it leaves stored: window first, then nonce, then signature; a wrong signature still uses up the nonce |
| Sign.SignRoundTrip | sa-token-core/src/sign.rs:79-132 | whatever the map held, the signed map is accepted exactly while within the window and its nonce is unused |
| Sign.VerifiedExactly | sa-token-core/src/sign.rs:94-132 | accepted exactly with a secret, a timestamp in the window, an unused nonce and the mac of the canonical text; each failing guard has its own error, in this order |
| Sign.VerifiedTakes | sa-token-core/src/sign.rs:113-126 | a nonce that passes the guards is taken for exactly one window, whatever the signature; otherwise nothing changes |
| Sign.SignedKeeps | sa-token-core/src/sign.rs:79-90 | the signed map keeps every other parameter and carries the time, the nonce and the mac of its own text |
| Sign.SignedSorted | sa-token-core/src/sign.rs:79-90 | and stays in key order |
| Sign.NewSignerWindow | sa-token-core/src/sign.rs:39-45 | the window given when positive, else 300 seconds |
| SignReplay.AcceptsSpaced | sa-token-core/src/sign.rs:104-126 | in any run two accepts that carry one nonce are at least the window apart |
| SignReplay.AcceptsInWindow | sa-token-core/src/sign.rs:104-112 | every accept lies within the window on either side of the timestamp |
| SignReplay.ReplayBound | sa-token-core/src/sign.rs:104-126 | any run accepts one request at most three times, and once when the first accept comes after its timestamp |
| SignReplay.RepeatsAccepted | sa-token-core/src/sign.rs:104-126 | sends one window apart are all accepted as long as they fit, from any instant |
| SignReplay.AttainsExactly | sa-token-core/src/sign.rs:104-126 | a request accepted now is accepted n times by some run exactly when n - 1 windows from now end within its window |
| SignReplay.OnceExactly | sa-token-core/src/sign.rs:46-52 | a request accepted now is accepted once only by every run exactly when the clock has passed its timestamp |
| SignReplay.ThreeAcceptsHappen | sa-token-core/src/sign.rs:104-126 | three accepts are attained from an empty store for every window |
| SignReplay.SignatureBound | sa-token-core/src/sign.rs:54-132 | the same bound for all maps of one signed text together, when the verified ones are free of separators |
| SignReplay.UnlimitedExactly | sa-token-core/src/sign.rs:113-131 | a correctly signed map inside its window is accepted without limit exactly when it holds no nonce |
| SignReplay.TakenNonceExactly | sa-token-core/src/sign.rs:104-131 | after any other verification, whatever its signature, a correctly signed request is accepted exactly while in its window and unless that one took its nonce less than a window ago |
| SignReadings.SignatureBoundExactly | sa-token-core/src/sign.rs:54-132 | over all maps read from its text and all runs, a signature over a clean map is accepted at most three times exactly when the nonce is the only signed key before `timestamp` and holds no `=`; otherwise any number of times |
| SignReadings.GuardedReading | sa-token-core/src/sign.rs:54-112 | whatever map is read from such a text with a timestamp that parses carries the same nonce and timestamp |
| SignReadings.GuardedBound | sa-token-core/src/sign.rs:54-132 | so in any run such a signature is accepted at most three times, and once when the first accept comes after its timestamp |
| SignReadings.NonceReadAway | sa-token-core/src/sign.rs:54-126 | from any other clean map some sorted map with the same text and timestamp holds no nonce |
| SignReadings.SignatureBoundFails | sa-token-core/src/sign.rs:54-132 | so inside its window such a signature is accepted any given number of times |
| Nonce.NonceManager.StoreNonce | sa-token-core/src/nonce.rs:296-300 | overwrites the record with a fresh stamp and expiry |
| Nonce.NonceManager.ValidateAndConsume | sa-token-core/src/nonce.rs:316-328 | rejects blanks and taken nonces, unchanged; takes any other |
| Nonce.NonceManager.CleanupExpired | sa-token-core/src/nonce.rs:348-383 | for any replies of the scan deletes exactly the visited records older than the cutoff and returns their number, or the scan's error |
| Nonce.ConsumedExactly | sa-token-core/src/nonce.rs:316-328 | accepted exactly when neither blank nor taken, with one error each and no change; the record holds the login id and the time |
| Nonce.StoredRefuses | sa-token-core/src/nonce.rs:296-300 | a stored nonce refuses consumption exactly until the timeout has passed, or for ever without one |
| Nonce.ScannedExactly | sa-token-core/src/nonce.rs:357-382 | a cleanup looks at all pages up to the last, to an unsupported scan, or to an error, which it reports |
| Nonce.SweptExactly | sa-token-core/src/nonce.rs:366-376 | a stored record goes exactly when it is visited, live and stamped before the cutoff |
| Nonce.SweptCountExactly | sa-token-core/src/nonce.rs:348-383 | the number reported is the number gone, and no other record changes |
| Nonce.BlankTexts | sa-token-core/src/nonce.rs:317-319 | which texts are blank, by example |
| Nonce.CheckTimestampErrors | sa-token-core/src/nonce.rs:332-346 | which error a text gets exactly when |
| Nonce.NonceSpacing | sa-token-core/src/nonce.rs:278-384 | in any run of consuming, storing, cleaning and waiting, two consumptions of one nonce are at least the timeout apart, and without a timeout there is at most one |
| Nonce.ConsumedAgainExactly | sa-token-core/src/nonce.rs:316-328 | after a consumption the nonce is accepted again exactly when there is a timeout and it has passed |
| Nonce.CleanupDeletesNothing | sa-token-core/src/nonce.rs:348-383 | while all records carry the timeout in force, a cleanup deletes nothing and reports zero |
| Nonce.SweptSometimeExactly | sa-token-core/src/nonce.rs:348-383 | some later cleanup can delete a live record exactly when its entry outlives its stamp plus the timeout |
| Nonce.SweepIsSteps | sa-token-core/src/nonce.rs:366-376 | a cleanup is the same as its single-key steps in that run |
| Nonce.GeneratedNonceChecks | sa-token-core/src/nonce.rs:287-346 | a generated nonce checks exactly while its age lies above minus one second and below the window plus one second |
| MemorySessions.InMemoryDistributedStorage.SaveSession | sa-token-core/src/distributed.rs:951-980 | stores the session and lists its id once under its login |
| MemorySessions.InMemoryDistributedStorage.DeleteSession | sa-token-core/src/distributed.rs:1002-1023 | removes session and listing, and an index that becomes empty |
| MemorySessions.InMemoryDistributedStorage.GetSessionsByLoginId | sa-token-core/src/distributed.rs:1040-1060 | the stored sessions the index lists, in its order |
| MemorySessions.DistributedSessionManager.CreateSession | sa-token-core/src/distributed.rs:682-701 | appends a new session to whatever list the storage stands for |
| MemorySessions.DistributedSessionManager.UpdateSession | sa-token-core/src/distributed.rs:737-741 | replaces the session where it stands, provided it keeps its login |
| MemorySessions.DistributedSessionManager.DeleteAllSessions | sa-token-core/src/distributed.rs:872-878 | removes exactly the sessions of the login; every other session and every order stay |
| MemorySessions.DistributedSessionManager.DeleteSessionsByToken | sa-token-core/src/distributed.rs:882-894 | removes exactly the sessions of the login that carry the token; every other session and every order stay |
| MemorySessions.MemQueryRefines | sa-token-core/src/distributed.rs:1040-1060 | the per-login query is the plain filter of all sessions, in first-save order |
| MemorySessions.MemSaveRefines | sa-token-core/src/distributed.rs:951-980 | saving replaces in place or appends, in the plain list as in the maps |
| MemorySessions.MemDeleteRefines | sa-token-core/src/distributed.rs:1002-1023 | deleting takes the session out of the plain list as out of the maps |
| MemorySessions.SaveAgreesExactly | sa-token-core/src/distributed.rs:951-980 | a save keeps every index equal to its login's sessions exactly when it moves no session to another login |
| MemorySessions.EveryOperationKeepsTidy | sa-token-core/src/distributed.rs:951-1023 | whatever is saved or deleted, index lists stay duplicate-free and non-empty |
| DaoSessions.SaStorageDistributedStorage.SaveSession | sa-token-core/src/distributed.rs:1120-1132 | an expiring session and one index entry |
| DaoSessions.SaStorageDistributedStorage.DeleteSession | sa-token-core/src/distributed.rs:1143-1159 | removes the session, its entry under its login if it was still live, and an empty index |
| DaoSessions.SaStorageDistributedStorage.GetSessionsByLoginId | sa-token-core/src/distributed.rs:1161-1177 | the result and the repairs of the loop over the ids read at its start |
| DaoSessions.SessionKeys | sa-token-core/src/keys.rs:739-747 | in both layouts session keys differ, index keys differ, and a session key is an index key exactly when the id is `index:` and the login |
| DaoSessions.QueryReturnsLive | sa-token-core/src/distributed.rs:1161-1177 | with expiry the query returns exactly the live sessions of the login, each once, leaves the index equal to that list, and leaves every other list as it was |
| DaoSessions.DeleteEffect | sa-token-core/src/distributed.rs:1143-1159 | for every id, which sessions and which index entries can still be read afterwards, sessions lost through an index key included |
| DaoSessions.DeleteKeepsIndexedExactly | sa-token-core/src/distributed.rs:1143-1159 | a delete keeps every live session indexed exactly when its id does not name the index of a surviving one |
| DaoSessions.EvictKeepsIndexedExactly | sa-token-storage-memory/src/lib.rs:146-157 | dropping an expired session keeps every live one indexed exactly when its id does not name the index of a live one |
| DaoSessions.SaveKeepsIndexed | sa-token-core/src/distributed.rs:1120-1132 | a save that respects the binding keeps every live session listed, once, under its own login only |
| DaoSessions.RebindExactly | sa-token-core/src/distributed.rs:1120-1132 | after a save some binding of ids to logins is respected exactly when no other login's index lists the id |
| DaoSessions.RebindingMisleadsQuery | sa-token-core/src/distributed.rs:1120-1177 | when one does, that login's query returns a session of another login |
| DaoManager.DaoSessionManager.DeleteAllSessions | sa-token-core/src/distributed.rs:872-878 | over the Dao with expiry, exactly the live sessions of the login go and every other stays indexed, exactly when no deleted id names the index of a session that stays and the key of the emptied index keeps none |
| DaoManager.BulkDeleteExactly | sa-token-core/src/distributed.rs:872-894 | the same for both loops as functions of the store |
| DaoManager.DeleteEachEffect | sa-token-core/src/distributed.rs:1143-1159 | what deleting several sessions of one login one by one leaves readable, whatever their ids |
| DaoManager.PlainIsExact | sa-token-core/src/distributed.rs:872-894 | while no live id names an index the condition holds |
| EvictingReads.EvictingVisitExactly | sa-token-core/src/distributed.rs:1161-1177 | the loop over reads that evict is the plain loop followed by the evictions of the ids read |
| EvictingReads.EvictingQueryExactly | sa-token-core/src/distributed.rs:1161-1177 | over reads that evict the query returns exactly the live sessions, and keeps every live one indexed exactly when no expired id it reads names the index of one |
| DaoManager.DaoSessionManager.DeleteSessionsByToken | sa-token-core/src/distributed.rs:882-894 | the same, with the same exactness, for the live sessions of the login that carry the token |
| DaoManager.DaoSessionManager.CreateSession | sa-token-core/src/distributed.rs:682-701 | over the Dao the new session is read back exactly until the session timeout, and listed under its login |
| DaoManager.DaoSessionManager.UpdateSession | sa-token-core/src/distributed.rs:737-741 | over the Dao the session is replaced and read back exactly until the session timeout from now |
| DaoManager.KeptExactly | sa-token-core/src/distributed.rs:872-894 | what the bulk deletes keep, by login and token |
| DaoSessions.SavedLasts | sa-token-core/src/distributed.rs:1120-1132 | a saved session is read back exactly until its time to live has passed |
| SessionBackends.BackendsAgree | sa-token-core/src/distributed.rs:951-1177 | when nothing expires and ids keep their login, every read of a run is answered alike by both backends exactly when no delete crosses; then both answer the run as the plain list does, order included; runs whose ids name no index qualify |
| SessionBackends.AlikeExactly | sa-token-core/src/distributed.rs:951-1177 | the same from any pair of states that stand for one list |
| SessionBackends.CrossingIsSeen | sa-token-core/src/distributed.rs:1143-1177 | after a delete that crosses, some read is answered differently |
| SessionBackends.IndexIdSplitsBackends | sa-token-core/src/distributed.rs:1143-1177 | for any session, deleting the id that names its login's index makes the backends answer that login's query differently |
| SessionBackends.DaoRunKeepsIndexed | sa-token-core/src/distributed.rs:1120-1177 | with expiry and eviction, every state of a run that keeps the binding has all its live sessions indexed exactly when no operation cuts an index |
| SessionBackends.DaoQueryAfterRun | sa-token-core/src/distributed.rs:1120-1177 | so after any run from an empty store whose ids name no index a query answers exactly the live sessions |
| SessionBackends.MemRunAgrees | sa-token-core/src/distributed.rs:951-1060 | in every state such a run reaches in memory, index lists are duplicate-free, non-empty and exactly the sessions of their login |
| Sessions.WithoutMembers | sa-token-core/src/distributed.rs:872-894 | the reduced list holds everything but the login's sessions, or but those of them with the token |
| Sessions.BulkDelete | sa-token-core/src/distributed.rs:872-894 | deleting one by one the ids of the named sessions is the same as filtering them out |
| RefreshTokens.RefreshTokenManager.StoreWithExtra | sa-token-core/src/refresh.rs:150-188 | the record with its fixed expiry, and the account's index entry |
| RefreshTokens.RefreshTokenManager.ValidateToken | sa-token-core/src/refresh.rs:191-215 | each error case in order; an expired token is deleted on the way |
| RefreshTokens.RefreshTokenManager.RefreshAccessToken | sa-token-core/src/refresh.rs:219-287 | the eight writes in order, ending in the state the whole refresh describes |
| RefreshTokens.RefreshTokenManager.ReplaceOld | sa-token-core/src/repository/token_repo.rs:238-274 | the new token replaces the old in the login index, then the old body and mapping go |
| RefreshTokens.RefreshTokenManager.Delete | sa-token-core/src/refresh.rs:290-305 | everything under the token's key goes, and its entry in the default account's index |
| RefreshTokens.RefreshTokenManager.RevokeAllForUser | sa-token-core/src/refresh.rs:319-327 | every listed token is deleted, then the index |
| RefreshRuns.StoredLasts | sa-token-core/src/refresh.rs:150-215 | a stored token holds what it was stored with and validates exactly until the timeout has passed, or for ever without one |
| RefreshRuns.ValidatedExactly | sa-token-core/src/refresh.rs:191-215 | each outcome of a validation, and that only an expired record is touched, and goes |
| RefreshRuns.RefreshedExactly | sa-token-core/src/refresh.rs:219-230 | a refresh succeeds exactly when the token validates, and otherwise does only what that does |
| RefreshRuns.RefreshStores | sa-token-core/src/refresh.rs:232-285 | every field and every expiry that a refresh leaves in body, mappings and record |
| RefreshRuns.StagesHaveShape | sa-token-core/src/refresh.rs:219-287 | what is stored after each prefix of the eight writes |
| RefreshRuns.CrashLeavesABody | sa-token-core/src/refresh.rs:256-285 | a refresh stopped after any of its writes leaves the old or the new body live, exactly when the access timeout is not zero |
| RefreshRuns.CrashThenRetryOrphan | sa-token-core/src/refresh.rs:256-285 | a retry succeeds after any crash, and leaves the first attempt's body behind exactly when it had begun and not finished |
| RefreshRuns.RefreshChain | sa-token-core/src/refresh.rs:219-287 | after any chain of refreshes the newest token has body, reverse mapping, login mapping and index entry, the record points at it, and its expiry has not moved |
| RefreshRuns.ReportedExpiryExactly | sa-token-core/src/refresh.rs:204-246 | the expiry a refresh puts in the new body, and that the refresh token is good until then exactly when the record's own expiry allows |
| RefreshRuns.FirstReportExactly | sa-token-core/src/refresh.rs:150-287 | for the first refresh after storing, exactly when it comes within a millisecond |
| RefreshRuns.ReportOutlivesToken | sa-token-core/src/refresh.rs:150-287 | an input for which the token is refused a day before the reported expiry |
| RefreshRuns.ChainRetiresOld | sa-token-core/src/refresh.rs:219-287 | every replaced access token has lost body, mapping and index entry |
| RefreshKeys.KeysAreTexts | sa-token-core/src/keys.rs:482-650 | the keys a refresh touches are one key in the model exactly when their three-segment texts are one |
| RefreshRevocation.NamesIndexExactly | sa-token-core/src/keys.rs:639-648 | in both layouts, a token's key is the key of some account's index exactly when its text says so |
| RefreshRevocation.NamesNamespace | sa-token-core/src/keys.rs:639-648 | in the three-segment layout it is that account's exactly when the token is `user:` and the namespace |
| RefreshRevocation.AfterHasEffect | sa-token-core/src/refresh.rs:150-327 | for every operation, which records and which index entries it leaves, lists lost through a token's key included |
| RefreshRevocation.AfterKeepsListed | sa-token-core/src/refresh.rs:150-327 | an operation keeps each held refresh token in the index it was stored under exactly when it deletes no token kept under such an index |
| RefreshRevocation.RunKeepsListed | sa-token-core/src/refresh.rs:150-327 | the same for every state of a run |
| RefreshRevocation.PlainRunsQualify | sa-token-core/src/refresh.rs:150-327 | runs whose tokens name no index never do that |
| RefreshRevocation.GeneratedTokensArePlain | sa-token-core/src/refresh.rs:128-135 | no generated token names an index in the three-segment layout |
| RefreshRevocation.RevokeExactly | sa-token-core/src/refresh.rs:319-327 | a valid token is invalid after a revoke exactly when the index lists it or is kept under its key, and otherwise as valid as before |
| RefreshRevocation.RevokeLeavesNothingValid | sa-token-core/src/refresh.rs:319-327 | after any run that cuts no index, revoking an account invalidates every refresh token held for it |
| RefreshRevocation.RevokeEndsEveryStoredToken | sa-token-core/src/refresh.rs:319-327 | after any run whose tokens name no index, a token only ever stored for one account is invalid once that account is revoked, held or not |
| RefreshRevocation.DeletedIndexDefeatsRevoke | sa-token-core/src/refresh.rs:290-327 | for any account of any login type and any token, deleting a token kept under the account's index key leaves the other valid after a revoke |
| RefreshRevocation.DeleteUnlistsExactly | sa-token-core/src/refresh.rs:290-305 | a delete takes a stored token off its index exactly when the login type shares the default account's keys or the index is kept under the token's key |
| RefreshRevocation.AdminTokenStaysListed | sa-token-core/src/refresh.rs:290-305 | an input for which it does not |
| RefreshRevocation.RefreshFilesUnderDefault | sa-token-core/src/refresh.rs:256-273 | a refresh enters the new token in the login index of the account it was stored for exactly when that shares the default account's keys |
| RefreshRevocation.DefaultKeysExactly | sa-token-core/src/keys.rs:405-450 | which login types share the default account's keys, in both layouts |
| TempToken.TempTokenManager.Create | sa-token-core/src/temp_token.rs:88-133 | takes the first of twelve candidates that is free, writes body and index; otherwise an error and no change |
| TempToken.TempTokenManager.Parse | sa-token-core/src/temp_token.rs:137-154 | the live record, or the error; one past its own expiry is deleted |
| TempToken.TempTokenManager.FindToken | sa-token-core/src/temp_token.rs:158-168 | the token the value's index names |
| TempToken.TempTokenManager.Delete | sa-token-core/src/temp_token.rs:171-183 | deletes the index entry of the record's value in the given namespace, then the body |
| TempToken.TokenKeyInjective | sa-token-core/src/keys.rs:779-783 | body keys of colon-free tokens name namespace and token, whatever the namespace holds, in both layouts |
| TempToken.ValueKeyInjective | sa-token-core/src/keys.rs:788-792 | index keys name namespace and value |
| TempTokenRuns.CreatedExactly | sa-token-core/src/temp_token.rs:88-121 | a create succeeds exactly with a namespace, a non-zero timeout and one of twelve draws free, with the first such; otherwise an error and no change |
| TempTokenRuns.CreatedLasts | sa-token-core/src/temp_token.rs:56-133 | the token parses to its value and namespace exactly until the timeout has passed, or for ever when negative, and its index entry lasts as long |
| TempTokenRuns.ParsedExactly | sa-token-core/src/temp_token.rs:137-154 | each outcome of a parse and what it changes |
| TempTokenRuns.DeletedIsGone | sa-token-core/src/temp_token.rs:171-183 | a deleted token does not parse |
| TempTokenRuns.CreateAltersNoRecord | sa-token-core/src/temp_token.rs:88-133 | creating a token never alters an existing record |
| TempTokenRuns.RunKeepsSound | sa-token-core/src/temp_token.rs:88-183 | every run of draws without a colon and deletes without one keeps the index sound |
| TempTokenRuns.ReachableIsSound | sa-token-core/src/temp_token.rs:88-183 | so in every state reached from an empty store a value's index entry is absent or names the newest indexed token of that value and namespace, whose record is stored and lives as long |
| TempTokenRuns.FoundTokenParses | sa-token-core/src/temp_token.rs:137-168 | what the index names is the newest token and parses to a record of that value |
| TempTokenIndex.FoundAfterRun | sa-token-core/src/temp_token.rs:88-183 | in every state reached from an empty store `find_token` finds the newest indexed token of a value exactly while it parses and neither it nor a live token of that value there was deleted or drawn again since |
| TempTokenIndex.OlderDeleteHidesNewer | sa-token-core/src/temp_token.rs:171-183 | for any two tokens of a value, deleting the older leaves the newer parsing but not found |
| TempTokenRuns.ParseChangesNothing | sa-token-core/src/temp_token.rs:137-154 | a record expires with its entry, so parsing never evicts one |
| TempTokenRuns.DeleteSoundExactly | sa-token-core/src/temp_token.rs:171-183 | a delete keeps the index sound exactly when it does not reach a record another namespace's index names; a colon-free token never does |
| TempTokenRuns.CrossingDelete | sa-token-core/src/temp_token.rs:171-183 | a delete that does: the index then names a token that is gone |

## Left out

- Web framework plugins, macros, `StpUtil`, `SaLogic`, `SaTokenManager`, OAuth2, SSO, online users, event bus: forwarding to what is modelled here, or other subsystems.
- `disable.rs`, `safe.rs`, `token_io.rs`, `router.rs`, cookie and query helpers, configuration builders: only easy members.
- Storage errors and failing random generators: every storage call succeeds, except the scan of a nonce cleanup.
- `mget`, `mset`, `mdel`, `scan_all_keys`, `get_del`, `compare_and_delete`, `expire`, `ttl`: no protocol here uses them.
- Interleaving inside one session, nonce-cleanup, refresh or temp-token call: each is one step of a run (for refresh, also cut short after any write). Only Same-Token and the counters are interleaved call by call.
- The in-memory locks, and so freedom from deadlock (the query takes them in the opposite order to save and delete), and the read-modify-write of `set_attribute` and `refresh_session`.
- Service credentials, `register_service`, `verify_service`, session attributes: no invariant spans them.
- Completeness of nonce cleanup: deleting during a cursor scan may skip keys. What it deletes is exact for any pages the scan returns.
- Serializers, base64, hashing, RFC 3339 text: values; a stored time that does not parse is a case of its own (`Garbled`, `None`).
- Overflow of `i64` timestamps and timeouts, and of the counters past the range of `i64` (the counter lemmas require the range).
- Storage keys as text in `Nonce`, `Sign` and `SameToken`: each keeps keys of one category, or two constant ones, which texts tell apart. `RefreshTokens` keeps refresh records and indexes as text and the other kinds apart; in the four-segment layout login types that hold colons could make those meet.
- Backends whose lists are kept apart from scalars (`sa-token-storage-redis/src/lib.rs:219-221`): there deleting a key leaves the list, so an id that names an index does no harm, and after a revoke a list of dead tokens may stay.
- Trimming colons from the root of the four-segment layout: the root is taken as it is stored.
- The `_with_type` variants of the token, token-session, last-active and safe keys: in the three-segment layout they give the text of the plain ones; `sso_login_token` is the login-token key.
- `make_key`, scan patterns and key parsing: thin.
