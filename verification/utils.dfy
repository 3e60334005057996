/** The cache-backed player layer of `utils.py`: building the cache from
    the store, searching it, and the add/delete operations that write the
    store and then patch the cache. Every operation is a pure function
    from the old store and cache to `(success, new store, new cache)`. */
module Utils {
  import opened Wrappers
  import opened Sequences
  import opened Text
  import opened DocStore
  import opened PlayerCache

  /** What `add_player` returns, with the store and the cache (if one was
      passed) as they are afterwards. */
  datatype AddResult = AddResult(ok: bool, store: Store, cache: Option<Cache>)

  /** What `delete_player` and `delete_account` return, with the store and
      cache as they are afterwards. */
  datatype DeleteResult = DeleteResult(ok: bool, store: Store, cache: Cache)

  // ---------------------------------------------------------------------
  // The cache mirrors the store

  /** The cached entry of player `p` holds exactly its account documents,
      each once. */
  ghost predicate Mirrors(s: Store, p: string, e: Entry)
  {
    && e.ip == p
    && DistinctIds(e.accounts)
    && (forall a :: a in e.accounts ==> AccountExists(s, p, a.steam64) && s.accounts[(p, a.steam64)] == a)
    && (forall id :: AccountExists(s, p, id) ==> HasId(e.accounts, id))
  }

  /** The cache holds one entry per player document and mirrors each. */
  ghost predicate Consistent(s: Store, c: Cache)
  {
    && c.Valid()
    && (forall p :: p in c.entries <==> PlayerExists(s, p))
    && (forall p :: p in c.entries ==> Mirrors(s, p, c.entries[p]))
  }

  /** The shape every write of this layer keeps: account documents carry
      their ID as `steam64` and sit under an existing player. */
  ghost predicate WellFormed(s: Store)
  {
    IdsMatch(s) && NoOrphans(s)
  }

  // ---------------------------------------------------------------------
  // load_players_cache

  /** The account documents of player `ip`, read in the order they are
      streamed (utils.py:19-20). */
  function FetchAccounts(s: Store, ip: string, ids: seq<string>): (accs: seq<Account>)
    requires ListsAccounts(ids, s, ip)
    ensures |accs| == |ids|
    ensures forall i :: 0 <= i < |ids| ==> accs[i] == s.accounts[(ip, ids[i])]
  {
    seq(|ids|, i requires 0 <= i < |ids| => s.accounts[(ip, ids[i])])
  }

  /** The cache once the loop has visited the players `ps`, in order. */
  function LoadPlayers(s: Store, l: Listing, ps: seq<string>): (c: Cache)
    requires Lists(l, s)
    requires NoDup(ps) && forall p :: p in ps ==> PlayerExists(s, p)
    ensures c.Valid()
    ensures c.keys == ps
    ensures forall p :: p in ps ==> p in l.accounts && ListsAccounts(l.accounts[p], s, p)
    ensures forall p :: p in ps ==> p in c.entries && c.entries[p] == Entry(p, FetchAccounts(s, p, l.accounts[p]))
    decreases |ps|
  {
    if ps == [] then EmptyCache()
    else
      var p := ps[|ps| - 1];
      var prefix := ps[..|ps| - 1];
      assert ps == prefix + [p];
      var c := LoadPlayers(s, l, prefix);
      assert PlayerExists(s, p) && p in l.accounts && ListsAccounts(l.accounts[p], s, p);
      c.Put(p, Entry(p, FetchAccounts(s, p, l.accounts[p])))
  }

  /** `load_players_cache`: one entry per player document, in stream order,
      each holding the player's IP and its account documents in stream
      order. */
  function LoadPlayersCache(s: Store, l: Listing): (c: Cache)
    requires Lists(l, s)
    ensures c.Valid()
    ensures c.keys == l.players
    ensures forall p :: p in c.entries <==> PlayerExists(s, p)
    ensures forall p :: p in c.entries ==>
      && c.entries[p].ip == p
      && |c.entries[p].accounts| == |l.accounts[p]|
      && forall i :: 0 <= i < |l.accounts[p]| ==> c.entries[p].accounts[i] == s.accounts[(p, l.accounts[p][i])]
  {
    LoadPlayers(s, l, l.players)
  }

  // ---------------------------------------------------------------------
  // get_players

  /** The lowercased query occurs in the account's lowercased Steam64 ID or
      lowercased name. */
  ghost predicate AccountMatches(lq: string, a: Account)
  {
    IsSubstring(lq, Lower(a.steam64)) || IsSubstring(lq, Lower(a.name))
  }

  /** The search rule: the query occurs in the IP as it is (case-sensitive),
      or, ignoring case, in some account's Steam64 ID or name. */
  ghost predicate Matches(q: string, ip: string, accs: seq<Account>)
  {
    IsSubstring(q, ip) || exists a :: a in accs && AccountMatches(Lower(q), a)
  }

  /** Some account of a non-empty list matches exactly when its first one
      does or one of the rest does. */
  lemma SomeAccountMatchesSplit(lq: string, accs: seq<Account>)
    requires accs != []
    ensures (exists a :: a in accs && AccountMatches(lq, a))
      <==> AccountMatches(lq, accs[0]) || exists a :: a in accs[1..] && AccountMatches(lq, a)
  {
  }

  /** The inner loop over the accounts, stopping at the first match. */
  function AnyAccountMatches(lq: string, accs: seq<Account>): (b: bool)
    ensures b <==> exists a :: a in accs && AccountMatches(lq, a)
  {
    if accs == [] then false
    else
      SomeAccountMatchesSplit(lq, accs);
      Contains(Lower(accs[0].steam64), lq) || Contains(Lower(accs[0].name), lq)
      || AnyAccountMatches(lq, accs[1..])
  }

  /** Prepending an entry prepends its IP. */
  lemma IpsCons(e: Entry, r: seq<Entry>)
    ensures Ips([e] + r) == [e.ip] + Ips(r)
  {
  }

  /** The outer loop over the cache keys `ks`, in order. */
  function Search(q: string, c: Cache, ks: seq<string>): (r: seq<Entry>)
    requires NoDup(ks) && forall k :: k in ks ==> k in c.entries
    ensures InOrder(Ips(r), ks)
    ensures forall i :: 0 <= i < |r| ==> r[i].ip in c.entries && r[i].accounts == c.entries[r[i].ip].accounts
    ensures forall k :: k in ks ==> (k in Ips(r) <==> Matches(q, k, c.entries[k].accounts))
  {
    if ks == [] then []
    else
      var k := ks[0];
      var accs := c.entries[k].accounts;
      assert NoDup(ks[1..]);
      var rest := Search(q, c, ks[1..]);
      InOrderExtend(Ips(rest), ks);
      IpsCons(Entry(k, accs), rest);
      assert k !in ks[1..];
      if Contains(k, q) || AnyAccountMatches(Lower(q), accs) then [Entry(k, accs)] + rest else rest
  }

  /** `get_players`: the cached players that match the query, each once, in
      the cache's iteration order, each with its full account list. */
  function GetPlayers(q: string, c: Cache): (r: seq<Entry>)
    requires c.Valid()
    ensures InOrder(Ips(r), c.keys)
    ensures NoDup(Ips(r))
    ensures forall i :: 0 <= i < |r| ==> r[i].ip in c.entries && r[i].accounts == c.entries[r[i].ip].accounts
    ensures forall k :: k in c.entries ==> (k in Ips(r) <==> Matches(q, k, c.entries[k].accounts))
  {
    var r := Search(q, c, c.keys);
    InOrderNoDup(Ips(r), c.keys);
    r
  }

  // ---------------------------------------------------------------------
  // add_player

  /** The cache update of `add_player`: the player's entry is created last
      if missing, and the account is appended unless an account with its
      Steam64 ID is already cached. */
  function CacheAdd(c: Cache, ip: string, a: Account): (c': Cache)
    requires c.Valid()
    ensures c'.Valid()
    ensures c'.entries.Keys == c.entries.Keys + {ip}
    ensures c'.keys == if ip in c.entries then c.keys else c.keys + [ip]
    ensures forall k :: k in c.entries && k != ip ==> c'.entries[k] == c.entries[k]
    ensures ip in c.entries ==> c'.entries[ip].ip == c.entries[ip].ip
    ensures ip !in c.entries ==> c'.entries[ip].ip == ip
    ensures var before := if ip in c.entries then c.entries[ip].accounts else [];
      c'.entries[ip].accounts == if HasId(before, a.steam64) then before else before + [a]
    ensures HasId(c'.entries[ip].accounts, a.steam64)
  {
    var c1 := if ip in c.entries then c else c.Put(ip, Entry(ip, []));
    var e := c1.entries[ip];
    if HasId(e.accounts, a.steam64) then c1
    else
      assert a in e.accounts + [a];
      c1.Put(ip, e.(accounts := e.accounts + [a]))
  }

  /** `add_player` with `players_dict` given (`Some`) or `None`. */
  function AddPlayer(s: Store, ip: string, steam64: string, cache: Option<Cache>, name: Option<string>): (r: AddResult)
    requires cache.Some? ==> cache.value.Valid()
    ensures r.ok <==> !PlayerExists(s, ip) && !AccountExists(s, ip, steam64)
    ensures PlayerExists(s, ip) ==> r.store == s && r.cache == cache
    ensures !PlayerExists(s, ip) ==> r.store.players == s.players[ip := PlayerDocument(ip)]
    ensures !r.ok ==> r.store.accounts == s.accounts && r.cache == cache
    ensures r.ok ==> r.store.accounts == s.accounts[(ip, steam64) := Account(steam64, DefaultName(steam64, name))]
    ensures r.ok ==> r.cache.Some? == cache.Some?
    ensures r.ok && cache.Some? ==> r.cache.value == CacheAdd(cache.value, ip, Account(steam64, DefaultName(steam64, name)))
  {
    var n := DefaultName(steam64, name);
    if PlayerExists(s, ip) then AddResult(false, s, cache)
    else
      var s1 := s.(players := s.players[ip := PlayerDocument(ip)]);
      if AccountExists(s1, ip, steam64) then AddResult(false, s1, cache)
      else
        var a := Account(steam64, n);
        var s2 := s1.(accounts := s1.accounts[(ip, steam64) := a]);
        AddResult(true, s2, if cache.Some? then Some(CacheAdd(cache.value, ip, a)) else None)
  }

  // ---------------------------------------------------------------------
  // delete_player

  /** `delete_player`: when the player document exists, it and every account
      under it go, and so does its cache entry. */
  function DeletePlayer(s: Store, ip: string, c: Cache): (r: DeleteResult)
    requires c.Valid()
    ensures r.ok <==> PlayerExists(s, ip)
    ensures !r.ok ==> r.store == s && r.cache == c
    ensures r.ok ==> r.store.players == s.players - {ip}
    ensures r.ok ==> forall k :: k in r.store.accounts <==> k in s.accounts && k.0 != ip
    ensures r.ok ==> forall k :: k in r.store.accounts ==> r.store.accounts[k] == s.accounts[k]
    ensures r.ok ==> r.cache.Valid() && r.cache.entries == c.entries - {ip} && InOrder(r.cache.keys, c.keys)
  {
    if !PlayerExists(s, ip) then DeleteResult(false, s, c)
    else
      var accounts := map k | k in s.accounts && k.0 != ip :: s.accounts[k];
      var s' := Store(s.players - {ip}, accounts);
      DeleteResult(true, s', if ip in c.entries then c.Delete(ip) else c)
  }

  // ---------------------------------------------------------------------
  // delete_account

  /** `delete_account`: the account document goes; a cached player loses the
      account from its list, and when that list is left empty the player
      document and the cache entry go too. */
  function DeleteAccount(s: Store, ip: string, steam64: string, c: Cache): (r: DeleteResult)
    requires c.Valid()
    ensures r.ok <==> PlayerExists(s, ip) && AccountExists(s, ip, steam64)
    ensures !r.ok ==> r.store == s && r.cache == c
    ensures r.ok ==> r.store.accounts == s.accounts - {(ip, steam64)} && r.cache.Valid()
    ensures r.ok && ip !in c.entries ==> r.store.players == s.players && r.cache == c
    ensures r.ok && ip in c.entries && Without(c.entries[ip].accounts, steam64) == [] ==>
      && r.store.players == s.players - {ip}
      && r.cache.entries == c.entries - {ip}
      && InOrder(r.cache.keys, c.keys)
    ensures r.ok && ip in c.entries && Without(c.entries[ip].accounts, steam64) != [] ==>
      && r.store.players == s.players
      && r.cache.keys == c.keys
      && r.cache.entries == c.entries[ip := c.entries[ip].(accounts := Without(c.entries[ip].accounts, steam64))]
  {
    if !PlayerExists(s, ip) || !AccountExists(s, ip, steam64) then DeleteResult(false, s, c)
    else
      var s1 := s.(accounts := s.accounts - {(ip, steam64)});
      if ip !in c.entries then DeleteResult(true, s1, c)
      else
        var e := c.entries[ip];
        var left := Without(e.accounts, steam64);
        var c1 := c.Put(ip, e.(accounts := left));
        if left == [] then DeleteResult(true, s1.(players := s1.players - {ip}), c1.Delete(ip))
        else DeleteResult(true, s1, c1)
  }

  // ---------------------------------------------------------------------
  // Properties relating the operations

  /** An entry keeps mirroring a player whose account documents a write
      left alone. */
  lemma MirrorsFrame(s: Store, s': Store, p: string, e: Entry)
    requires Mirrors(s, p, e)
    requires forall id :: (p, id) in s'.accounts ==> (p, id) in s.accounts
    requires forall id :: (p, id) in s.accounts ==> (p, id) in s'.accounts && s'.accounts[(p, id)] == s.accounts[(p, id)]
    ensures Mirrors(s', p, e)
  {
  }

  /** A freshly loaded cache mirrors the store. */
  lemma LoadIsConsistent(s: Store, l: Listing)
    requires Lists(l, s) && IdsMatch(s)
    ensures Consistent(s, LoadPlayersCache(s, l))
  {
    var c := LoadPlayersCache(s, l);
    forall p | p in c.entries
      ensures Mirrors(s, p, c.entries[p])
    {
      var ids := l.accounts[p];
      var accs := c.entries[p].accounts;
      forall a | a in accs
        ensures AccountExists(s, p, a.steam64) && s.accounts[(p, a.steam64)] == a
      {
        var i :| 0 <= i < |accs| && accs[i] == a;
        assert accs[i] == s.accounts[(p, ids[i])];
      }
      forall id | AccountExists(s, p, id)
        ensures HasId(accs, id)
      {
        var i :| 0 <= i < |ids| && ids[i] == id;
        assert accs[i] in accs;
      }
    }
  }

  /** The write `add_player` makes for a new player keeps the cache
      mirroring a well-formed store. */
  lemma AddNewPlayerKeepsConsistency(s: Store, c: Cache, ip: string, a: Account)
    requires WellFormed(s) && Consistent(s, c) && !PlayerExists(s, ip)
    ensures var s' := Store(s.players[ip := PlayerDocument(ip)], s.accounts[(ip, a.steam64) := a]);
      WellFormed(s') && Consistent(s', CacheAdd(c, ip, a))
  {
    var s' := Store(s.players[ip := PlayerDocument(ip)], s.accounts[(ip, a.steam64) := a]);
    var c' := CacheAdd(c, ip, a);
    assert ip !in c.entries;
    assert c'.entries[ip].accounts == [a];
    assert forall id :: AccountExists(s', ip, id) ==> id == a.steam64;
    assert Mirrors(s', ip, c'.entries[ip]);
    forall p | p in c'.entries && p != ip
      ensures Mirrors(s', p, c'.entries[p])
    {
      assert Mirrors(s, p, c.entries[p]);
      MirrorsFrame(s, s', p, c.entries[p]);
    }
  }

  /** `add_player` keeps the cache mirroring a well-formed store. */
  lemma AddPlayerKeepsConsistency(s: Store, c: Cache, ip: string, steam64: string, name: Option<string>)
    requires WellFormed(s) && Consistent(s, c)
    ensures var r := AddPlayer(s, ip, steam64, Some(c), name);
      WellFormed(r.store) && r.cache.Some? && Consistent(r.store, r.cache.value)
  {
    if !PlayerExists(s, ip) {
      assert !AccountExists(s, ip, steam64);
      AddNewPlayerKeepsConsistency(s, c, ip, Account(steam64, DefaultName(steam64, name)));
    }
  }

  /** `delete_player` keeps the cache mirroring a well-formed store. */
  lemma DeletePlayerKeepsConsistency(s: Store, c: Cache, ip: string)
    requires WellFormed(s) && Consistent(s, c)
    ensures var r := DeletePlayer(s, ip, c);
      WellFormed(r.store) && Consistent(r.store, r.cache)
  {
    var r := DeletePlayer(s, ip, c);
    if r.ok {
      forall p | p in r.cache.entries
        ensures Mirrors(r.store, p, r.cache.entries[p])
      {
        assert Mirrors(s, p, c.entries[p]);
        MirrorsFrame(s, r.store, p, c.entries[p]);
      }
    }
  }

  /** Filtering an account out of a mirroring entry mirrors the store
      without that account document. */
  lemma FilteredEntryMirrors(s: Store, ip: string, e: Entry, steam64: string)
    requires Mirrors(s, ip, e)
    ensures Mirrors(s.(accounts := s.accounts - {(ip, steam64)}), ip, e.(accounts := Without(e.accounts, steam64)))
  {
    var s' := s.(accounts := s.accounts - {(ip, steam64)});
    var left := Without(e.accounts, steam64);
    forall id | AccountExists(s', ip, id)
      ensures HasId(left, id)
    {
      assert HasId(e.accounts, id);
      var a :| a in e.accounts && a.steam64 == id;
      assert a in left;
    }
  }

  /** `delete_account` keeps the cache mirroring a well-formed store when
      accounts remain under the player. */
  lemma DeleteAccountKeepsConsistencyPartial(s: Store, c: Cache, ip: string, steam64: string)
    requires WellFormed(s) && Consistent(s, c) && ip in c.entries
    ensures var s' := s.(accounts := s.accounts - {(ip, steam64)});
      var c' := c.Put(ip, c.entries[ip].(accounts := Without(c.entries[ip].accounts, steam64)));
      WellFormed(s') && Consistent(s', c')
  {
    var e := c.entries[ip];
    var s' := s.(accounts := s.accounts - {(ip, steam64)});
    var c' := c.Put(ip, e.(accounts := Without(e.accounts, steam64)));
    assert Mirrors(s, ip, e);
    FilteredEntryMirrors(s, ip, e, steam64);
    assert c'.entries.Keys == c.entries.Keys;
    forall p | p in c'.entries && p != ip
      ensures Mirrors(s', p, c'.entries[p])
    {
      assert Mirrors(s, p, c.entries[p]);
      MirrorsFrame(s, s', p, c.entries[p]);
    }
  }

  /** `delete_account` keeps the cache mirroring a well-formed store when
      it removes the player's last cached account and so the player. */
  lemma DeleteAccountKeepsConsistencyCascade(s: Store, c: Cache, ip: string, steam64: string)
    requires WellFormed(s) && Consistent(s, c) && ip in c.entries
    requires Without(c.entries[ip].accounts, steam64) == []
    ensures var s' := Store(s.players - {ip}, s.accounts - {(ip, steam64)});
      WellFormed(s') && Consistent(s', c.Delete(ip))
  {
    var e := c.entries[ip];
    var s1 := s.(accounts := s.accounts - {(ip, steam64)});
    var s' := Store(s.players - {ip}, s1.accounts);
    var c' := c.Delete(ip);
    assert Mirrors(s, ip, e);
    FilteredEntryMirrors(s, ip, e, steam64);
    assert Mirrors(s1, ip, e.(accounts := []));
    assert forall id :: AccountExists(s1, ip, id) ==> HasId([], id);
    assert forall id :: !AccountExists(s1, ip, id);
    forall k | k in s'.accounts
      ensures k.0 != ip
    {
      assert AccountExists(s1, k.0, k.1);
    }
    forall p | p in c'.entries
      ensures Mirrors(s', p, c'.entries[p])
    {
      assert Mirrors(s, p, c.entries[p]);
      MirrorsFrame(s, s', p, c.entries[p]);
    }
  }

  /** `delete_account` keeps the cache mirroring a well-formed store,
      including when it deletes the player whose last account went. */
  lemma DeleteAccountKeepsConsistency(s: Store, c: Cache, ip: string, steam64: string)
    requires WellFormed(s) && Consistent(s, c)
    ensures var r := DeleteAccount(s, ip, steam64, c);
      WellFormed(r.store) && Consistent(r.store, r.cache)
  {
    var r := DeleteAccount(s, ip, steam64, c);
    if PlayerExists(s, ip) && AccountExists(s, ip, steam64) {
      assert ip in c.entries;
      var e := c.entries[ip];
      var left := Without(e.accounts, steam64);
      var s1 := s.(accounts := s.accounts - {(ip, steam64)});
      var c1 := c.Put(ip, e.(accounts := left));
      if left == [] {
        assert c1.Delete(ip) == c.Delete(ip);
        assert r == DeleteResult(true, Store(s.players - {ip}, s1.accounts), c.Delete(ip));
        DeleteAccountKeepsConsistencyCascade(s, c, ip, steam64);
      } else {
        assert r == DeleteResult(true, s1, c1);
        DeleteAccountKeepsConsistencyPartial(s, c, ip, steam64);
      }
    }
  }

  /** Deleting the only account of a cached player deletes the player
      document and its cache entry as well. */
  lemma DeleteLastAccountDeletesPlayer(s: Store, c: Cache, ip: string, steam64: string)
    requires Consistent(s, c)
    requires AccountExists(s, ip, steam64) && PlayerExists(s, ip)
    requires forall id :: AccountExists(s, ip, id) ==> id == steam64
    ensures var r := DeleteAccount(s, ip, steam64, c);
      r.ok && !PlayerExists(r.store, ip) && ip !in r.cache.entries
  {
  }

  /** The empty query matches every player visited, so the search returns
      them all, in order. */
  lemma {:induction false} SearchEmptyQuery(c: Cache, ks: seq<string>)
    requires NoDup(ks) && forall k :: k in ks ==> k in c.entries
    ensures Ips(Search("", c, ks)) == ks
  {
    if ks != [] {
      EmptyIsSubstring(ks[0]);
      assert NoDup(ks[1..]);
      SearchEmptyQuery(c, ks[1..]);
      IpsCons(Entry(ks[0], c.entries[ks[0]].accounts), Search("", c, ks[1..]));
    }
  }

  /** `get_players("")` returns every cached player, in the cache's order. */
  lemma EmptyQueryReturnsAll(c: Cache)
    requires c.Valid()
    ensures Ips(GetPlayers("", c)) == c.keys
  {
    SearchEmptyQuery(c, c.keys);
  }

  /** Searching a freshly loaded cache for part of a player's IP finds that
      player, with all its account documents. */
  lemma LoadThenSearchFindsPlayer(s: Store, l: Listing, q: string, p: string)
    requires Lists(l, s) && PlayerExists(s, p) && IsSubstring(q, p)
    ensures var c := LoadPlayersCache(s, l);
      var r := GetPlayers(q, c);
      exists i :: 0 <= i < |r| && r[i].ip == p && r[i].accounts == c.entries[p].accounts
  {
    var c := LoadPlayersCache(s, l);
    var r := GetPlayers(q, c);
    assert p in Ips(r);
    var i :| 0 <= i < |r| && Ips(r)[i] == p;
    assert r[i].ip == p;
  }
}
