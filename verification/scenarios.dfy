/** Concrete runs and properties that relate the two variants: the worked
    search examples, the multi-account difference between the two
    `add_player`s, what mixing the two `delete_player`s does, and the
    search of `firebase_utils.py` that cannot find a player by account
    name. */
module Scenarios {
  import opened Wrappers
  import opened Text
  import opened DocStore
  import opened PlayerCache
  import Utils
  import FirebaseUtils

  const BobIp := "1.2.3.4"
  const BobId := "76561198000000001"

  /** One player with one account named "Bob". */
  function BobCache(): (c: Cache)
    ensures c.Valid()
  {
    Cache([BobIp], map[BobIp := Entry(BobIp, [Account(BobId, "Bob")])])
  }

  /** A search of a one-player cache returns that player or nothing. */
  lemma OnePlayerSearch(q: string, c: Cache)
    requires c.Valid() && |c.keys| == 1
    ensures var k := c.keys[0];
      Utils.GetPlayers(q, c) == if Utils.Matches(q, k, c.entries[k].accounts) then [Entry(k, c.entries[k].accounts)] else []
  {
    var k := c.keys[0];
    var accs := c.entries[k].accounts;
    assert c.keys[1..] == [];
    assert Utils.Search(q, c, c.keys[1..]) == [];
    assert Utils.GetPlayers(q, c) == Utils.Search(q, c, c.keys);
    assert Utils.Matches(q, k, accs) <==> Contains(k, q) || Utils.AnyAccountMatches(Lower(q), accs);
  }

  /** Searching for "bob" finds the player through its account name,
      ignoring case. */
  lemma SearchByAccountName()
    ensures Utils.GetPlayers("bob", BobCache()) == [Entry(BobIp, [Account(BobId, "Bob")])]
  {
    var a := Account(BobId, "Bob");
    assert Lower("Bob") == "bob";
    assert Lower("bob") == "bob";
    assert OccursAt("bob", "bob", 0);
    assert Utils.AccountMatches("bob", a);
    assert a in [a];
    OnePlayerSearch("bob", BobCache());
  }

  /** A query holding a character the string lacks does not occur in it. */
  lemma MissingCharBlocks(q: string, hay: string, k: nat)
    requires k < |q|
    requires forall i :: 0 <= i < |hay| ==> hay[i] != q[k]
    ensures !IsSubstring(q, hay)
  {
    forall i | 0 <= i && i + |q| <= |hay|
      ensures !OccursAt(q, hay, i)
    {
      assert hay[i..i + |q|][k] == hay[i + k];
    }
  }

  /** Searching for an IP no player has finds nothing. */
  lemma SearchUnknownIp()
    ensures Utils.GetPlayers("9.9.9.9", BobCache()) == []
  {
    var q := "9.9.9.9";
    var a := Account(BobId, "Bob");
    assert Lower(q) == q;
    assert Lower(BobId) == BobId;
    MissingCharBlocks(q, BobIp, 0);
    MissingCharBlocks(q, BobId, 1);
    MissingCharBlocks(q, Lower("Bob"), 1);
    assert !Utils.AccountMatches(q, a);
    assert !Utils.Matches(q, BobIp, [a]);
    OnePlayerSearch(q, BobCache());
  }

  /** Adding a player with a new IP to a well-formed store succeeds, and
      the player and the account then exist. */
  lemma AddThenExists(s: Store, c: Option<Cache>, ip: string, steam64: string, name: Option<string>)
    requires Utils.WellFormed(s) && !PlayerExists(s, ip)
    requires c.Some? ==> c.value.Valid()
    ensures var r := Utils.AddPlayer(s, ip, steam64, c, name);
      r.ok && PlayerExists(r.store, ip) && AccountExists(r.store, ip, steam64)
  {
  }

  /** The cache-backed `add_player` refuses a second account for a player
      it has just created, whereas the store-only one accepts it
      (`FirebaseUtils.AddSecondAccount`). */
  lemma AddRefusesSecondAccount(s: Store, c: Option<Cache>, ip: string, id1: string, id2: string, name: Option<string>)
    requires !PlayerExists(s, ip) && !AccountExists(s, ip, id1)
    requires c.Some? ==> c.value.Valid()
    ensures var r1 := Utils.AddPlayer(s, ip, id1, c, name);
      && r1.ok
      && (r1.cache.Some? ==> r1.cache.value.Valid())
      && var r2 := Utils.AddPlayer(r1.store, ip, id2, r1.cache, name);
      !r2.ok && r2.store == r1.store && r2.cache == r1.cache
  {
  }

  /** A player removed with the store-only `delete_player` leaves its
      accounts behind. That `delete_player` has no cache, so here the
      caller drops the player's cache entry itself. Re-adding one of the
      orphaned accounts through the cache-backed `add_player` then fails
      yet creates the player document, which that cache no longer
      mirrors. */
  lemma MixedDeleteThenAdd(s: Store, c: Cache, ip: string, id: string, name: Option<string>)
    requires Utils.Consistent(s, c) && AccountExists(s, ip, id) && PlayerExists(s, ip)
    ensures var s1 := FirebaseUtils.DeletePlayer(s, ip, "", id).store;
      var r := Utils.AddPlayer(s1, ip, id, Some(c.Delete(ip)), name);
      && !r.ok
      && PlayerExists(r.store, ip)
      && AccountExists(r.store, ip, id)
      && r.cache == Some(c.Delete(ip))
      && !Utils.Consistent(r.store, r.cache.value)
  {
  }

  /** When the caller instead keeps the cache as it was, the same re-add
      restores the player document the cache still holds, and the cache
      mirrors the store again. */
  lemma MixedDeleteKeepCacheThenAdd(s: Store, c: Cache, ip: string, id: string, name: Option<string>)
    requires Utils.Consistent(s, c) && AccountExists(s, ip, id) && PlayerExists(s, ip)
    ensures var s1 := FirebaseUtils.DeletePlayer(s, ip, "", id).store;
      var r := Utils.AddPlayer(s1, ip, id, Some(c), name);
      && !r.ok
      && r.cache == Some(c)
      && r.store.accounts == s.accounts
      && Utils.Consistent(r.store, c)
  {
  }

  // ---------------------------------------------------------------------
  // The store-only search looks for names on the player document

  /** The store both `add_player` variants leave behind for Bob. */
  function BobStore(): (s: Store)
    ensures s.players == map[BobIp := PlayerDocument(BobIp)]
    ensures s.accounts == map[(BobIp, BobId) := Account(BobId, "Bob")]
  {
    FirebaseUtils.AddPlayer(Store(map[], map[]), BobIp, BobId, Some("Bob")).store
  }

  /** As written, the store-only `get_players` matches a player document
      created by `add_player` only through its IP: such a document has no
      `name` or `steam64` field. */
  lemma StoreSearchSeesOnlyIps(s: Store, order: seq<string>, q: string)
    requires ListsPlayers(order, s) && q != ""
    requires forall p :: p in s.players ==> s.players[p] == PlayerDocument(p)
    ensures forall p :: p in order ==> (p in FirebaseUtils.MatchingIds(s, q, order) <==> IsSubstring(Lower(q), p))
  {
  }

  /** So searching for Bob's name finds no player. */
  lemma StoreSearchMissesName()
    ensures FirebaseUtils.GetPlayers(BobStore(), [BobIp], "bob") == Some([])
  {
    var s := BobStore();
    assert Lower("bob") == "bob";
    MissingCharBlocks("bob", BobIp, 0);
    assert [BobIp][1..] == [];
    assert FirebaseUtils.MatchingIds(s, "bob", []) == [];
    assert !Contains(BobIp, "bob");
    assert FirebaseUtils.Field(s.players[BobIp], "name") == "";
    assert FirebaseUtils.Field(s.players[BobIp], "steam64") == "";
    assert !Contains("", "bob");
    assert FirebaseUtils.MatchingIds(s, "bob", [BobIp]) == [];
  }

  /** The cache-backed search finds Bob by name in the same store. */
  lemma CacheSearchFindsName()
    ensures var s := BobStore();
      var c := Utils.LoadPlayersCache(s, Listing([BobIp], map[BobIp := [BobId]]));
      Utils.GetPlayers("bob", c) == [Entry(BobIp, [Account(BobId, "Bob")])]
  {
    var s := BobStore();
    var l := Listing([BobIp], map[BobIp := [BobId]]);
    assert Lists(l, s);
    var c := Utils.LoadPlayersCache(s, l);
    assert c.entries[BobIp].accounts == [Account(BobId, "Bob")];
    assert c == BobCache();
    SearchByAccountName();
  }
}
