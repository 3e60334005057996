# Player records: the cache-backed data layer, in Dafny

This project models the player-record layer of a small game-server admin
tool. Player records are kept in Firestore under
`servers/{server_ip}/players/{player_ip}/accounts/{steam64}`. The model
covers two Python files:

- `utils.py` is the current layer. `load_players_cache` builds an
  in-memory dict of players from the store. `get_players` searches that
  dict. `add_player`, `delete_player` and `delete_account` check
  existence in the store, write to it, and then patch the dict.
- `firebase_utils.py` is an older variant with no cache. Its
  `get_players` scans the player documents directly. Its `add_player`
  may add another account to an existing player. Its `delete_player`
  removes the player document only.

Everything is immutable values and pure functions:

- `DocStore.Store` is the store for one server. It holds player
  documents by IP and account documents by (player IP, document ID).
  Accounts are kept apart from player documents because a Firestore
  subcollection can outlive its parent document.
- `PlayerCache.Cache` is the Python dict as an insertion-ordered map: a
  key sequence plus a map.
- Each operation returns `(success, new store, new cache)`.
- The order in which Firestore streams documents is an input
  (`DocStore.Listing`).

The main invariant is `Utils.Consistent`: the cache mirrors the store.
`load_players_cache` establishes it. The three `utils.py` writes preserve
it on a well-formed store (`Utils.WellFormed`: every account sits under
an existing player and carries its document ID as `steam64`).
`firebase_utils.py`'s `delete_player` breaks well-formedness, because it
leaves the accounts behind. `Scenarios.MixedDeleteThenAdd` and
`Scenarios.MixedDeleteKeepCacheThenAdd` show what that does to a later
`add_player` of `utils.py`, depending on whether the caller drops the
player's cache entry.

Where a docstring and the code disagree, the model follows the code:

- utils.py:71-72 and :76 say that `add_player` creates the player
  document if it does not already exist and then adds the account. The
  code at utils.py:98-100 returns False for any existing player, so no
  second account can be added (`Scenarios.AddRefusesSecondAccount`).
- firebase_utils.py:40 says that `add_player` returns False if the
  player already exists. The code at firebase_utils.py:52-71 accepts an
  existing player and returns False only for an existing account
  (`FirebaseUtils.AddSecondAccount`).
- firebase_utils.py:11 declares that `get_players` returns a list. For
  the empty query the test at firebase_utils.py:15 fails and the function
  returns None (`FirebaseUtils.GetPlayers`). In `utils.py` the empty
  query matches every player (`Utils.EmptyQueryReturnsAll`).
- utils.py:33 promises a match on the IP or on any account's Steam64 ID
  or name. The IP test at utils.py:42 is case-sensitive, while the
  account tests at utils.py:54-55 lowercase both sides.

Files: `wrappers.dfy` (Option), `sequences.dfy` (ordering facts),
`text.dfy` (substring test, lowercasing), `store.dfy` (the store),
`cache.dfy` (the cache), `utils.dfy`, `firebase_utils.dfy`,
`scenarios.dfy` (worked examples and properties that span both
variants).

## Model

| member | source | states |
|---|---|---|
| `Text.Contains` | utils.py:42 | Python's `in` on strings: true exactly when the needle occurs as a contiguous run somewhere in the string, the empty string included |
| `DocStore.DefaultName` | utils.py:78-79 | the stored name is the given one, or the Steam64 ID when the name is None or empty, so a stored name is empty only when the Steam64 ID is |
| `Utils.LoadPlayersCache` | utils.py:12-27 | cache keys are exactly the server's player document IDs, in stream order; each entry's ip is its key; its accounts are that player's account documents, in stream order |
| `Utils.LoadIsConsistent` | utils.py:12-27 | a freshly loaded cache mirrors the store: one entry per player document, and every account document of the player cached exactly once with its stored fields |
| `Utils.AnyAccountMatches` | utils.py:50-60 | the account loop finds a match exactly when some account's lowercased steam64 or lowercased name contains the lowercased query |
| `Utils.GetPlayers` | utils.py:31-63 | a cached player is returned iff the query is a case-sensitive substring of its IP or, ignoring case, of some account's steam64 or name; each player at most once, in cache iteration order, with its full account list |
| `Utils.EmptyQueryReturnsAll` | utils.py:42-47 | the empty query returns every cached player, in cache order |
| `Utils.LoadThenSearchFindsPlayer` | utils.py:12-63 | after loading, a search for part of a player's IP returns that player with all its cached accounts |
| `Utils.CacheAdd` | utils.py:121-134 | the player's entry is appended last if missing; the account is appended only if no cached account has its steam64, so it is then cached; every other entry and the key order are unchanged |
| `Utils.AddPlayer` | utils.py:67-136 | true iff neither the player document nor the account exists; an existing player gives false with store and cache untouched; otherwise the player document `{ip}` is written, the account `{steam64, name}` only on success, and the cache is patched only on success |
| `Utils.AddPlayerKeepsConsistency` | utils.py:85-136 | on a well-formed store with a mirroring cache, `add_player` keeps the store well-formed and the cache mirroring it |
| `Utils.DeletePlayer` | utils.py:140-174 | false with nothing changed when the player document is absent; otherwise the player document and every account under it go, other players' documents are untouched, and the cache entry is removed with the other keys kept in order |
| `Utils.DeletePlayerKeepsConsistency` | utils.py:151-170 | `delete_player` keeps a well-formed store well-formed and the cache mirroring it |
| `PlayerCache.Without` | utils.py:208 | the filtered list holds exactly the accounts whose steam64 differs; it is empty exactly when every account had that steam64; it is unchanged when none had it |
| `PlayerCache.WithoutConcat` | utils.py:208 | the filter keeps the remaining accounts in their order (it distributes over concatenation) |
| `Utils.DeleteAccount` | utils.py:176-221 | false with nothing changed when the player or the account is absent; otherwise the account document goes; a cached player's list loses that account; when the list becomes empty the player document and the cache entry go too, and only then |
| `Utils.DeleteAccountKeepsConsistency` | utils.py:200-217 | `delete_account`, with its cascade, keeps a well-formed store well-formed and the cache mirroring it |
| `Utils.DeleteLastAccountDeletesPlayer` | utils.py:205-215 | deleting the only account of a player whose cache mirrors the store succeeds and removes the player document and the cache entry |
| `Scenarios.OnePlayerSearch` | utils.py:38-60 | searching a one-player cache returns that player exactly when it matches, and nothing otherwise |
| `Scenarios.SearchByAccountName` | utils.py:49-60 | "bob" finds the player whose account is named "Bob", with that account |
| `Scenarios.SearchUnknownIp` | utils.py:41-60 | "9.9.9.9" finds nothing in a cache holding only "1.2.3.4" |
| `Scenarios.AddThenExists` | utils.py:87-116 | adding a player with a new IP to a well-formed store succeeds, and the player and account then exist |
| `Scenarios.AddRefusesSecondAccount` | utils.py:85-100 | once `add_player` has created a player, a second account for the same IP is refused and nothing changes |
| `Scenarios.MixedDeleteThenAdd` | firebase_utils.py:97-104 | after the store-only delete, with the caller also dropping the player's cache entry (that delete has no cache), re-adding an orphaned account with `utils.py`'s `add_player` returns false but creates the player document, which that cache does not mirror |
| `Scenarios.MixedDeleteKeepCacheThenAdd` | firebase_utils.py:97-104 | if the caller keeps the cache unchanged instead, the same re-add returns false, leaves the accounts as they were and restores the player document, so the cache mirrors the store again |
| `FirebaseUtils.MatchingIds` | firebase_utils.py:20-25 | a streamed document ID is kept iff the lowercased query occurs in the raw ID, the lowercased `name` field or the `steam64` field; kept IDs come in stream order |
| `FirebaseUtils.GetPlayers` | firebase_utils.py:11-29 | None exactly for the empty query; otherwise the data of the matching player documents, in stream order |
| `FirebaseUtils.AddPlayer` | firebase_utils.py:32-82 | the player document `{ip}` is created only if absent and an existing one is kept; true iff no account with that steam64 existed, and only then is `{steam64, name}` written |
| `FirebaseUtils.AddSecondAccount` | firebase_utils.py:51-79 | two different Steam64 IDs can both be added under the same IP |
| `FirebaseUtils.DeletePlayer` | firebase_utils.py:85-104 | true iff the player document existed; the document is gone afterwards; account documents are untouched; the name and steam64 arguments play no part |
| `FirebaseUtils.DeletePlayerLeavesOrphans` | firebase_utils.py:101-104 | deleting a player that has accounts leaves them under a player that no longer exists |
| `Scenarios.StoreSearchSeesOnlyIps` | firebase_utils.py:20-25 | when every player document is the `{ip}` document `add_player` writes, a non-empty query matches a player only through its IP |
| `Scenarios.StoreSearchMissesName` | firebase_utils.py:13-25 | in the store `add_player` leaves for one account named "Bob", searching "bob" returns an empty list |
| `Scenarios.CacheSearchFindsName` | utils.py:12-63 | in that same store, loading the cache and searching "bob" finds the player with its account |

## Left out

- Credential loading and client initialisation (utils.py:5-9, firebase_utils.py:4-8) are library setup. The store is a value passed in.
- `streamlit_app.py` is a rendering loop over a different top-level collection. `init_server.py` is a one-shot bootstrap with a server timestamp. Neither has logic of its own.
- `print` logging is left out. So are the `.collection("bans")` and `.collection("warnings")` calls, which create nothing in Firestore.
- The `except` branches that return False are left out, and store operations are total. This includes `delete_player`/`delete_account` of `utils.py` when given `players_dict=None`: there, the store writes happen and then the dict lookup raises.
- The race between the existence check and the write is concurrency, and nothing in the code guards against it. Each operation is modelled as one atomic step.
- The server IP only selects which `players` subtree is used. One subtree is modelled, and no operation touches another.
- Firestore streams documents in document-ID order. The model takes that order as an input (`DocStore.Listing`) and does not fix it.
- Aliasing is not modelled. The result entries at utils.py:43-45 and :56-58 share the cache's own account list, and utils.py:131 appends to that list in place. So a later `add_player` on a stale cache changes an earlier `get_players` result, and a caller that mutates a result mutates the cache. `Utils.GetPlayers` and `Utils.CacheAdd` work on values and show neither effect.
- `Text.Lower` lowers ASCII letters only. Python's `str.lower()` also lowers other Unicode letters.
- Document field values are kept as strings. `str(player_data.get("steam64", ""))` is taken to be the value's string form. An account document is taken to hold both `steam64` and `name`.

## Findings

| source | as written | input that shows it | evidently intended | confidence | as-written member | corrected member |
|---|---|---|---|---|---|---|
| firebase_utils.py:20-25 | the search reads `name` and `steam64` from the player document, but both `add_player` variants write only `{ip}` there; names and Steam64 IDs live on the account documents | a store holding player "1.2.3.4" with account {76561198000000001, "Bob"} and the query "bob": the result is an empty list | match account names and Steam64 IDs under the player, as the docstring at firebase_utils.py:13 promises and `utils.py`'s `get_players` does | medium, not executed | `Scenarios.StoreSearchMissesName` | `Utils.GetPlayers` |

`Scenarios.CacheSearchFindsName` proves that `Utils.GetPlayers` finds the player in the same store.
