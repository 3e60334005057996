/** The in-memory player cache `players_dict`: a Python dict from player IP
    to `{"ip": ..., "accounts": [...]}`, iterated in insertion order. */
module PlayerCache {
  import opened Sequences
  import opened DocStore

  /** One cached player: its IP and its account list, in list order. */
  datatype Entry = Entry(ip: string, accounts: seq<Account>)

  /** An insertion-ordered map: `keys` lists the dict's keys in iteration
      order and `entries` holds the values. */
  datatype Cache = Cache(keys: seq<string>, entries: map<string, Entry>)
  {
    /** Each key is listed once, and exactly the keys of `entries` are listed. */
    ghost predicate Valid()
    {
      NoDup(keys) && forall k :: k in keys <==> k in entries
    }

    /** `d[k] = e`: a new key goes last, an existing key keeps its place. */
    function Put(k: string, e: Entry): (c: Cache)
      requires Valid()
      ensures c.Valid()
      ensures k in c.entries && c.entries[k] == e
    {
      if k in entries then this.(entries := entries[k := e])
      else
        assert forall i :: 0 <= i < |keys| ==> keys[i] in entries;
        Cache(keys + [k], entries[k := e])
    }

    /** `del d[k]`: the remaining keys keep their relative order. */
    function Delete(k: string): (c: Cache)
      requires Valid()
      ensures c.Valid()
      ensures c.entries == entries - {k}
      ensures InOrder(c.keys, keys)
    {
      Cache(RemoveValue(keys, k), entries - {k})
    }
  }

  /** The empty dict `{}`. */
  function EmptyCache(): (c: Cache)
    ensures c.Valid() && c.entries == map[]
  {
    Cache([], map[])
  }

  /** The IPs of a list of cached players. */
  function Ips(r: seq<Entry>): (ips: seq<string>)
    ensures |ips| == |r|
    ensures forall i :: 0 <= i < |r| ==> ips[i] == r[i].ip
  {
    seq(|r|, i requires 0 <= i < |r| => r[i].ip)
  }

  /** Some account in the list has Steam64 ID `id`: the duplicate test
      before a cached account is appended (utils.py:130). */
  predicate HasId(accs: seq<Account>, id: string)
  {
    exists a :: a in accs && a.steam64 == id
  }

  /** No two accounts in the list share a Steam64 ID. */
  ghost predicate DistinctIds(accs: seq<Account>)
  {
    forall i, j :: 0 <= i < j < |accs| ==> accs[i].steam64 != accs[j].steam64
  }

  /** The accounts whose Steam64 ID is not `id`, in their original order:
      the cache filter of `delete_account` (utils.py:208). */
  function Without(accs: seq<Account>, id: string): (r: seq<Account>)
    ensures forall a :: a in r <==> a in accs && a.steam64 != id
    ensures !HasId(r, id)
    ensures !HasId(accs, id) ==> r == accs
    ensures DistinctIds(accs) ==> DistinctIds(r)
    ensures r == [] <==> forall i :: 0 <= i < |accs| ==> accs[i].steam64 == id
  {
    if accs == [] then []
    else if accs[0].steam64 == id then Without(accs[1..], id)
    else [accs[0]] + Without(accs[1..], id)
  }

  /** Filtering keeps the order of what it keeps: it distributes over
      concatenation. */
  lemma {:induction false} WithoutConcat(xs: seq<Account>, ys: seq<Account>, id: string)
    ensures Without(xs + ys, id) == Without(xs, id) + Without(ys, id)
  {
    if xs == [] {
      assert xs + ys == ys;
    } else {
      assert (xs + ys)[1..] == xs[1..] + ys;
      WithoutConcat(xs[1..], ys, id);
    }
  }
}
