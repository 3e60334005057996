/** The part of the Firestore database one server's operations touch: the
    documents under `servers/{server_ip}/players`. The server IP only picks
    which of these subtrees an operation works on; no operation crosses
    from one server to another, so one subtree is modelled. */
module DocStore {
  import opened Wrappers
  import opened Sequences

  /** A document's fields; each value is kept in its string form. */
  type Document = map<string, string>

  /** The fields of an account document: `{steam64, name}`. */
  datatype Account = Account(steam64: string, name: string)

  /** Player documents by player IP, and account documents by
      (player IP, document ID). Accounts are kept apart from the player
      documents: in Firestore a subcollection outlives its parent document. */
  datatype Store = Store(players: map<string, Document>, accounts: map<(string, string), Account>)

  /** The document both variants of `add_player` write for a new player. */
  function PlayerDocument(ip: string): (d: Document)
    ensures d.Keys == {"ip"} && d["ip"] == ip
  {
    map["ip" := ip]
  }

  /** The player document for `ip` exists (utils.py:85,
      firebase_utils.py:52). */
  predicate PlayerExists(s: Store, ip: string)
  {
    ip in s.players
  }

  /** The account document `id` exists under player `ip` (utils.py:106,
      firebase_utils.py:69). */
  predicate AccountExists(s: Store, ip: string, id: string)
  {
    (ip, id) in s.accounts
  }

  /** Every account document carries its own document ID as `steam64`, as
      both variants of `add_player` write it. */
  ghost predicate IdsMatch(s: Store)
  {
    forall k :: k in s.accounts ==> s.accounts[k].steam64 == k.1
  }

  /** Every account sits under a player document that exists. */
  ghost predicate NoOrphans(s: Store)
  {
    forall k :: k in s.accounts ==> k.0 in s.players
  }

  /** The name an account is stored under: the given one, or the Steam64 ID
      when the name is missing (`None`) or empty. */
  function DefaultName(steam64: string, name: Option<string>): (n: string)
    ensures name.Some? && name.value != "" ==> n == name.value
    ensures name.None? || name.value == "" ==> n == steam64
    ensures n == "" ==> steam64 == ""
  {
    if name.None? || name.value == "" then steam64 else name.value
  }

  /** The order in which the store streams documents: the player IDs, and
      for each player the IDs of its account documents. */
  datatype Listing = Listing(players: seq<string>, accounts: map<string, seq<string>>)

  /** `order` streams every player document of `s` exactly once. */
  ghost predicate ListsPlayers(order: seq<string>, s: Store)
  {
    NoDup(order) && forall p :: p in order <==> p in s.players
  }

  /** `ids` streams every account document under player `ip` exactly once. */
  ghost predicate ListsAccounts(ids: seq<string>, s: Store, ip: string)
  {
    NoDup(ids) && forall id :: id in ids <==> (ip, id) in s.accounts
  }

  /** `l` is a complete listing of `s`. */
  ghost predicate Lists(l: Listing, s: Store)
  {
    && ListsPlayers(l.players, s)
    && forall p :: p in s.players ==> p in l.accounts && ListsAccounts(l.accounts[p], s, p)
  }
}
