/** The older store-only player layer of `firebase_utils.py`: a search that
    scans the player documents themselves, an `add_player` that may add a
    further account to an existing player, and a `delete_player` that
    removes the player document only. No cache is involved. */
module FirebaseUtils {
  import opened Wrappers
  import opened Sequences
  import opened Text
  import opened DocStore

  /** What a write returns, with the store as it is afterwards. */
  datatype WriteResult = WriteResult(ok: bool, store: Store)

  /** The value of a document field, or the empty string when the field is
      missing (firebase_utils.py:23-24). */
  function Field(d: Document, field: string): string
  {
    if field in d then d[field] else ""
  }

  /** The search rule: the lowercased query occurs in the document ID as it
      is, in the lowercased `name` field, or in the `steam64` field. */
  ghost predicate DocMatches(q: string, id: string, d: Document)
  {
    var lq := Lower(q);
    IsSubstring(lq, id) || IsSubstring(lq, Lower(Field(d, "name"))) || IsSubstring(lq, Field(d, "steam64"))
  }

  /** The IDs of the streamed documents that match, in stream order. */
  function MatchingIds(s: Store, q: string, order: seq<string>): (ids: seq<string>)
    requires NoDup(order) && forall p :: p in order ==> p in s.players
    ensures InOrder(ids, order)
    ensures forall p :: p in order ==> (p in ids <==> DocMatches(q, p, s.players[p]))
  {
    if order == [] then []
    else
      var p := order[0];
      var d := s.players[p];
      var lq := Lower(q);
      assert NoDup(order[1..]);
      var rest := MatchingIds(s, q, order[1..]);
      InOrderExtend(rest, order);
      assert p !in order[1..];
      if Contains(p, lq) || Contains(Lower(Field(d, "name")), lq) || Contains(Field(d, "steam64"), lq)
      then [p] + rest
      else rest
  }

  /** `get_players`: `None` for the empty query (control falls off the end
      of the function); otherwise the data of every matching player
      document, in stream order. */
  function GetPlayers(s: Store, order: seq<string>, q: string): (r: Option<seq<Document>>)
    requires ListsPlayers(order, s)
    ensures r.None? <==> q == ""
    ensures r.Some? ==> var ids := MatchingIds(s, q, order);
      |r.value| == |ids| && forall i :: 0 <= i < |ids| ==> r.value[i] == s.players[ids[i]]
  {
    if q == "" then None
    else
      var ids := MatchingIds(s, q, order);
      Some(seq(|ids|, i requires 0 <= i < |ids| => s.players[ids[i]]))
  }

  /** `add_player`: the player document is created only if missing; the
      account is written unless one with that Steam64 ID already exists
      under the player, and only then is the result true. */
  function AddPlayer(s: Store, ip: string, steam64: string, name: Option<string>): (r: WriteResult)
    ensures PlayerExists(r.store, ip)
    ensures r.store.players == if PlayerExists(s, ip) then s.players else s.players[ip := PlayerDocument(ip)]
    ensures r.ok <==> !AccountExists(s, ip, steam64)
    ensures !r.ok ==> r.store.accounts == s.accounts
    ensures r.ok ==> r.store.accounts == s.accounts[(ip, steam64) := Account(steam64, DefaultName(steam64, name))]
  {
    var n := DefaultName(steam64, name);
    var s1 := if PlayerExists(s, ip) then s else s.(players := s.players[ip := PlayerDocument(ip)]);
    if AccountExists(s1, ip, steam64) then WriteResult(false, s1)
    else WriteResult(true, s1.(accounts := s1.accounts[(ip, steam64) := Account(steam64, n)]))
  }

  /** `delete_player`: removes the player document when it exists; the
      account documents under it stay, and the name and Steam64 arguments
      play no part. */
  function DeletePlayer(s: Store, ip: string, name: string, steam64: string): (r: WriteResult)
    ensures r.ok <==> PlayerExists(s, ip)
    ensures r.store.players == s.players - {ip}
    ensures r.store.accounts == s.accounts
    ensures !PlayerExists(r.store, ip)
  {
    if !PlayerExists(s, ip) then WriteResult(false, s)
    else WriteResult(true, s.(players := s.players - {ip}))
  }

  /** Unlike the cache-backed variant, a second account can be added to an
      existing player. */
  lemma AddSecondAccount(s: Store, ip: string, id1: string, id2: string, name: Option<string>)
    requires !AccountExists(s, ip, id1) && !AccountExists(s, ip, id2) && id1 != id2
    ensures var r1 := AddPlayer(s, ip, id1, name);
      var r2 := AddPlayer(r1.store, ip, id2, name);
      r1.ok && r2.ok && AccountExists(r2.store, ip, id1) && AccountExists(r2.store, ip, id2)
  {
  }

  /** Deleting a player that has accounts leaves them behind under a player
      document that no longer exists. */
  lemma DeletePlayerLeavesOrphans(s: Store, ip: string, name: string, steam64: string, id: string)
    requires PlayerExists(s, ip) && AccountExists(s, ip, id)
    ensures var r := DeletePlayer(s, ip, name, steam64);
      r.ok && AccountExists(r.store, ip, id) && !NoOrphans(r.store)
  {
  }
}
