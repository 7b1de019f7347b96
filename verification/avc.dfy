/**
 * The FLASK access vector cache (avc.c).
 *
 * The cache maps a (source SID, target SID, class) triple to the access
 * vector decision the security server computed for it.  Entries hang on 512
 * hash chains; each chain holds at most one entry per key.  A revocation
 * sequence number keeps stale decisions out, a reclaim pass evicts entries
 * that have not been used since the last pass once the cache grows past
 * its threshold, and revocation events edit cached decisions in place.
 *
 * RCU, the per-slot locks and the atomics are single steps here.  The
 * security server (security_compute_av), the callbacks and xmalloc are
 * parameters: their results are passed in.
 */
module Avc {
  import opened Options
  import opened Arith

  const CacheSlots: nat := 512          // AVC_CACHE_SLOTS
  const DefCacheThreshold: nat := 512   // AVC_DEF_CACHE_THRESHOLD
  const CacheReclaim: nat := 16         // AVC_CACHE_RECLAIM

  /** SECSID_WILD: matches every SID. */
  const SecsidWild: bv32 := 0xFFFF_FFFF

  /** errno values the cache returns (negated). */
  const ENOENT: int := 2
  const EAGAIN: int := 11
  const ENOMEM: int := 12
  const EACCES: int := 13

  datatype Key = Key(ssid: bv32, tsid: bv32, tclass: bv16)

  /** A u32 sequence number, compared unsigned. */
  type U32 = x: int | 0 <= x < 0x1_0000_0000

  /** A permission: one bit position of an access vector. */
  type Perm = p: nat | p < 32

  /** A u32 access vector, as the set of its bits that are set. */
  type AccessVector = set<Perm>

  /** struct av_decision */
  datatype AvDecision = AvDecision(allowed: AccessVector, decided: AccessVector, auditallow: AccessVector,
                                   auditdeny: AccessVector, seqno: U32)

  /** struct avc_entry: the key, the decision and the recently-used counter. */
  datatype Entry = Entry(key: Key, avd: AvDecision, used: int)

  /**
   * struct avc_cache: the hash chains, the reclaim scan's position, the
   * number of live entries, the latest revocation notification, and
   * avc_cache_threshold.
   */
  datatype Cache = Cache(slots: seq<seq<Entry>>, lruHint: nat, activeNodes: int, latestNotif: U32, threshold: nat)

  // ---------------------------------------------------------------------
  // Hash chains

  /** The number the lowest n bits of x spell. */
  function LowBits(x: bv32, n: nat): (r: nat)
    ensures r < Pow2(n)
  {
    if n == 0 then 0 else (if x & 1 == 1 then 1 else 0) + 2 * LowBits(x >> 1, n - 1)
  }

  /**
   * avc_hash: the SIDs and the class mixed by shifts and exclusive-or,
   * masked to the slot count (its lowest nine bits).
   */
  function Hash(k: Key): (h: nat)
    ensures h < CacheSlots
  {
    assert Pow2(9) == CacheSlots;
    LowBits(k.ssid ^ (k.tsid << 2) ^ ((k.tclass as bv32) << 4), 9)
  }

  /** The keys on a chain. */
  function KeySet(s: seq<Entry>): (K: set<Key>)
    ensures forall e | e in s :: e.key in K
  {
    set e | e in s :: e.key
  }

  predicate UniqueKeys(s: seq<Entry>)
  {
    forall a, b | 0 <= a < b < |s| :: s[a].key != s[b].key
  }

  /** The position of the first entry for k on a chain, or its length. */
  function Index(s: seq<Entry>, k: Key): (i: nat)
    ensures i <= |s|
    ensures i < |s| ==> s[i].key == k
    ensures forall j | 0 <= j < i :: s[j].key != k
    ensures i == |s| <==> k !in KeySet(s)
  {
    if |s| == 0 then 0
    else if s[0].key == k then 0
    else
      KeySetCons(s);
      1 + Index(s[1..], k)
  }

  /** Past a head with another key, the search goes on in the tail. */
  lemma IndexCons(s: seq<Entry>, k: Key)
    requires |s| > 0 && s[0].key != k
    ensures Index(s, k) == 1 + Index(s[1..], k)
  {
  }

  /** The keys of a non-empty chain: its head's and its tail's. */
  lemma KeySetCons(s: seq<Entry>)
    requires |s| > 0
    ensures KeySet(s) == {s[0].key} + KeySet(s[1..])
  {
    assert forall e | e in s[1..] :: e in s;
    forall x | x in KeySet(s) ensures x in {s[0].key} + KeySet(s[1..]) {
      var e :| e in s && e.key == x;
      var j :| 0 <= j < |s| && s[j] == e;
      if j > 0 {
        assert s[1..][j - 1] == e;
      }
    }
  }

  /** Every entry sits on the chain of its key, and no chain holds a key twice. */
  predicate Placed(ss: seq<seq<Entry>>)
  {
    |ss| == CacheSlots
    && (forall i, j | 0 <= i < |ss| && 0 <= j < |ss[i]| :: Hash(ss[i][j].key) == i)
    && (forall i | 0 <= i < |ss| :: UniqueKeys(ss[i]))
  }

  /** The cache invariant: entries well placed, and activeNodes counts them. */
  predicate Valid(c: Cache)
  {
    Placed(c.slots) && c.activeNodes == Total(c.slots)
  }

  /** The number of entries on all chains. */
  function Total(ss: seq<seq<Entry>>): nat
  {
    if |ss| == 0 then 0 else Total(ss[..|ss| - 1]) + |ss[|ss| - 1]|
  }

  lemma {:induction false} TotalUpdate(ss: seq<seq<Entry>>, i: nat, t: seq<Entry>)
    requires i < |ss|
    ensures Total(ss[i := t]) + |ss[i]| == Total(ss) + |t|
    decreases |ss|
  {
    var n := |ss| - 1;
    if i < n {
      assert ss[i := t][..n] == ss[..n][i := t];
      TotalUpdate(ss[..n], i, t);
    } else {
      assert ss[i := t][..n] == ss[..n];
    }
  }

  /** n empty chains. */
  function NoEntries(n: nat): (r: seq<seq<Entry>>)
    ensures |r| == n && forall i | 0 <= i < n :: r[i] == []
  {
    if n == 0 then [] else NoEntries(n - 1) + [[]]
  }

  lemma {:induction false} TotalEmpty(n: nat)
    ensures Total(NoEntries(n)) == 0
  {
    if n > 0 {
      assert NoEntries(n)[..n - 1] == NoEntries(n - 1);
      TotalEmpty(n - 1);
    }
  }

  /** The decision cached for k: what avc_search_node finds on k's chain. */
  function Cached(c: Cache, k: Key): (d: Option<AvDecision>)
    requires |c.slots| == CacheSlots
    ensures d.Some? <==> k in KeySet(c.slots[Hash(k)])
  {
    var s := c.slots[Hash(k)];
    var i := Index(s, k);
    if i < |s| then Some(s[i].avd) else None
  }

  /** On a chain without duplicate keys an entry is the one found for its key. */
  lemma FoundIsOnly(s: seq<Entry>, j: nat)
    requires UniqueKeys(s) && j < |s|
    ensures Index(s, s[j].key) == j
  {
  }

  /** Under Valid, an entry anywhere in the cache is what Cached reports for its key. */
  lemma CachedSound(c: Cache, i: nat, j: nat)
    requires Valid(c) && i < |c.slots| && j < |c.slots[i]|
    ensures Cached(c, c.slots[i][j].key) == Some(c.slots[i][j].avd)
  {
    FoundIsOnly(c.slots[i], j);
  }

  // ---------------------------------------------------------------------
  // Search and lookup

  /** A cache and the entry an operation found or made. */
  datatype Search = Search(cache: Cache, entry: Option<Entry>)

  /** avc_search_node: find the entry for k and mark it recently used. */
  function SearchNode(c: Cache, k: Key): (r: Search)
    requires |c.slots| == CacheSlots
    ensures r.entry.Some? <==> Cached(c, k).Some?
    ensures r.entry.Some? ==> r.entry.value == Entry(k, Cached(c, k).value, 1)
    ensures |r.cache.slots| == CacheSlots
    ensures forall k' :: Cached(r.cache, k') == Cached(c, k')
    ensures r.cache.activeNodes == c.activeNodes && r.cache.threshold == c.threshold && r.cache.latestNotif == c.latestNotif
  {
    var h := Hash(k);
    var s := c.slots[h];
    var i := Index(s, k);
    if i == |s| then Search(c, None)
    else
      var e := s[i].(used := 1);
      var s' := s[i := e];
      var c' := c.(slots := c.slots[h := s']);
      assert forall k' :: Index(s', k') == Index(s, k') by {
        SameKeysIndex(s, s');
      }
      assert KeySet(s') == KeySet(s) by {
        SameKeysIndex(s, s');
      }
      Search(c', Some(e))
  }

  /** Two chains with the same keys in the same order find the same positions. */
  lemma SameKeysIndex(s: seq<Entry>, s': seq<Entry>)
    requires |s| == |s'| && forall j | 0 <= j < |s| :: s[j].key == s'[j].key
    ensures forall k :: Index(s', k) == Index(s, k)
    ensures KeySet(s') == KeySet(s)
  {
    forall k ensures Index(s', k) == Index(s, k) {
      var i, i' := Index(s, k), Index(s', k);
      assert i < |s| ==> s'[i].key == k;
      assert i' < |s| ==> s[i'].key == k;
    }
    forall x | x in KeySet(s) ensures x in KeySet(s') {
      var e :| e in s && e.key == x;
      var j :| 0 <= j < |s| && s[j] == e;
      assert s'[j] in s';
    }
    forall x | x in KeySet(s') ensures x in KeySet(s) {
      var e :| e in s' && e.key == x;
      var j :| 0 <= j < |s'| && s'[j] == e;
      assert s[j] in s;
    }
  }

  /** Every bit of `requested` is in `v`. */
  predicate Covers(v: AccessVector, requested: AccessVector)
  {
    requested <= v
  }

  /**
   * avc_lookup: the entry for k, provided its decided vector covers every
   * requested bit.  Any entry found is marked recently used.
   */
  function Lookup(c: Cache, k: Key, requested: AccessVector): (r: Search)
    requires |c.slots| == CacheSlots
    ensures r.entry.Some? <==> Cached(c, k).Some? && Covers(Cached(c, k).value.decided, requested)
    ensures r.entry.Some? ==> r.entry.value.key == k && r.entry.value.avd == Cached(c, k).value
    ensures |r.cache.slots| == CacheSlots
    ensures forall k' :: Cached(r.cache, k') == Cached(c, k')
    ensures r.cache.activeNodes == c.activeNodes && r.cache.threshold == c.threshold && r.cache.latestNotif == c.latestNotif
  {
    var s := SearchNode(c, k);
    if s.entry.Some? && Covers(s.entry.value.avd.decided, requested) then s
    else Search(s.cache, None)
  }

  // ---------------------------------------------------------------------
  // Revocation sequence numbers

  datatype Notif = Notif(ret: int, latest: U32)

  /**
   * avc_latest_notif_update(seqno, is_insert): an insert with a sequence
   * number older than the latest revocation is refused; otherwise the
   * latest notification moves up to seqno.  The comparisons are unsigned.
   */
  function NotifUpdate(latest: U32, seqno: U32, isInsert: bool): (r: Notif)
    ensures isInsert ==> r.latest == latest && (r.ret == -EAGAIN <==> seqno < latest) && (r.ret == 0 <==> latest <= seqno)
    ensures !isInsert ==> r.ret == 0 && latest <= r.latest && seqno <= r.latest && (r.latest == latest || r.latest == seqno)
  {
    if isInsert then
      if seqno < latest then Notif(-EAGAIN, latest) else Notif(0, latest)
    else
      if seqno > latest then Notif(0, seqno) else Notif(0, latest)
  }

  /** The latest notification never goes back, and an insert never moves it. */
  lemma NotifMonotone(latest: U32, seqno: U32, isInsert: bool, later: U32)
    requires NotifUpdate(latest, seqno, isInsert).latest <= later
    ensures latest <= later
    ensures NotifUpdate(latest, seqno, isInsert).ret == 0 && isInsert ==> NotifUpdate(latest, seqno, isInsert).latest == latest
  {
  }

  // ---------------------------------------------------------------------
  // Reclaim

  /** The (key, decision) pairs on a chain. */
  function Pairs(s: seq<Entry>): (P: set<(Key, AvDecision)>)
    ensures forall e | e in s :: (e.key, e.avd) in P
  {
    set e | e in s :: (e.key, e.avd)
  }

  /** A non-empty chain is its head followed by its tail. */
  lemma ChainCons(s: seq<Entry>)
    requires |s| > 0
    ensures KeySet(s) == {s[0].key} + KeySet(s[1..])
    ensures Pairs(s) == {(s[0].key, s[0].avd)} + Pairs(s[1..])
    ensures forall e | e in s :: e == s[0] || e in s[1..]
    ensures UniqueKeys(s) <==> s[0].key !in KeySet(s[1..]) && UniqueKeys(s[1..])
  {
    KeySetCons(s);
    forall e | e in s ensures e == s[0] || e in s[1..] {
      var j :| 0 <= j < |s| && s[j] == e;
      if j > 0 {
        assert s[1..][j - 1] == e;
      }
    }
    assert forall e | e in s[1..] :: e in s;
    if UniqueKeys(s) {
      forall a, b | 0 <= a < b < |s[1..]| ensures s[1..][a].key != s[1..][b].key {
        assert s[1..][a] == s[a + 1] && s[1..][b] == s[b + 1];
      }
      forall e | e in s[1..] ensures e.key != s[0].key {
        var j :| 0 <= j < |s[1..]| && s[1..][j] == e;
        assert s[j + 1] == e;
      }
    }
    if s[0].key !in KeySet(s[1..]) && UniqueKeys(s[1..]) {
      forall a, b | 0 <= a < b < |s| ensures s[a].key != s[b].key {
        assert s[b] == s[1..][b - 1];
        if a > 0 {
          assert s[a] == s[1..][a - 1];
        }
      }
    }
  }

  /** Every entry of s whose key is gone from s' had its counter at one. */
  predicate OnlyUnused(s: seq<Entry>, s': seq<Entry>)
  {
    forall e | e in s && e.key !in KeySet(s') :: e.used == 1
  }

  /** One chain after the reclaim pass went over it, and the running count of evictions. */
  datatype Sweep = Sweep(kept: seq<Entry>, reclaimed: nat)

  /**
   * The inner loop of avc_reclaim_node over one chain: every entry it
   * visits has its counter decremented and is evicted when the counter
   * reaches zero; the pass stops as soon as 16 entries are gone.  What
   * stays keeps its decision, and what goes had not been used since the
   * previous pass.
   */
  function SweepChain(s: seq<Entry>, ecx: nat): (r: Sweep)
    requires ecx < CacheReclaim
    ensures ecx <= r.reclaimed <= CacheReclaim
    ensures |r.kept| + (r.reclaimed - ecx) == |s|
    ensures Pairs(r.kept) <= Pairs(s) && KeySet(r.kept) <= KeySet(s)
    ensures OnlyUnused(s, r.kept)
    ensures UniqueKeys(s) ==> UniqueKeys(r.kept)
    decreases |s|
  {
    if |s| == 0 then Sweep([], ecx)
    else
      ChainCons(s);
      var e := s[0];
      if e.used - 1 == 0 then
        if ecx + 1 >= CacheReclaim then Sweep(s[1..], ecx + 1)
        else SweepChain(s[1..], ecx + 1)
      else
        var r := SweepChain(s[1..], ecx);
        var kept := [e.(used := e.used - 1)] + r.kept;
        assert kept[1..] == r.kept;
        ChainCons(kept);
        Sweep(kept, r.reclaimed)
  }

  /** Every chain of ss' keeps only entries of the same chain of ss, with their decisions. */
  predicate Shrunk(ss: seq<seq<Entry>>, ss': seq<seq<Entry>>)
    requires |ss| == |ss'|
  {
    forall i | 0 <= i < |ss| ::
      Pairs(ss'[i]) <= Pairs(ss[i]) && KeySet(ss'[i]) <= KeySet(ss[i])
      && (UniqueKeys(ss[i]) ==> UniqueKeys(ss'[i]))
      && OnlyUnused(ss[i], ss'[i])
  }

  /** The chains after a reclaim pass, the final lru_hint, and the number of evictions. */
  datatype Pass = Pass(slots: seq<seq<Entry>>, lruHint: nat, reclaimed: nat)

  /** The chain the reclaim pass visits at its step `m` when lru_hint started at `hint`. */
  function Visit(hint: nat, m: nat): (h: nat)
    ensures h < CacheSlots
  {
    (hint + 1 + m) % CacheSlots
  }

  /** Whether chain i is among the ones left to visit: steps 0 .. left-1 from `hint`. */
  predicate Pending(hint: nat, left: nat, i: nat)
  {
    (i - hint - 1) % (CacheSlots as int) < left
  }

  /** The first step visits one chain; the rest visit the others still pending. */
  lemma PendingStep(hint: nat, left: nat)
    requires 0 < left <= CacheSlots
    ensures forall i | 0 <= i < CacheSlots :: Pending(hint, left, i) <==> i == Visit(hint, 0) || Pending(hint + 1, left - 1, i)
    ensures !Pending(hint + 1, left - 1, Visit(hint, 0))
  {
  }

  /**
   * avc_reclaim_node from its try-th chain on: advance lru_hint, sweep the
   * chain it names, and stop after 16 evictions or 512 chains.  Chains
   * the rest of the pass does not reach are left as they are.
   */
  function ReclaimFrom(ss: seq<seq<Entry>>, hint: nat, tries: nat, ecx: nat): (r: Pass)
    requires |ss| == CacheSlots && tries <= CacheSlots && ecx < CacheReclaim
    ensures ecx <= r.reclaimed <= CacheReclaim
    ensures |r.slots| == CacheSlots
    ensures Total(r.slots) + (r.reclaimed - ecx) == Total(ss)
    ensures Shrunk(ss, r.slots)
    ensures forall i | 0 <= i < CacheSlots && !Pending(hint, CacheSlots - tries, i) :: r.slots[i] == ss[i]
    decreases CacheSlots - tries
  {
    if tries == CacheSlots then Pass(ss, hint, ecx)
    else
      var h := Visit(hint, 0);
      var sw := SweepChain(ss[h], ecx);
      var ss' := ss[h := sw.kept];
      TotalUpdate(ss, h, sw.kept);
      PendingStep(hint, CacheSlots - tries);
      if sw.reclaimed >= CacheReclaim then Pass(ss', hint + 1, sw.reclaimed)
      else ReclaimFrom(ss', hint + 1, tries + 1, sw.reclaimed)
  }

  /** What avc_reclaim_node leaves of the cache and how many entries it evicted. */
  datatype Reclaim = Reclaim(cache: Cache, reclaimed: nat)

  /** avc_reclaim_node: one pass over (at most) every chain, starting after lru_hint. */
  function ReclaimNode(c: Cache): (r: Reclaim)
    requires |c.slots| == CacheSlots
    ensures r.reclaimed <= CacheReclaim
    ensures r.cache.activeNodes + r.reclaimed == c.activeNodes
    ensures Total(r.cache.slots) + r.reclaimed == Total(c.slots)
    ensures |r.cache.slots| == CacheSlots && Shrunk(c.slots, r.cache.slots)
    ensures r.cache.latestNotif == c.latestNotif && r.cache.threshold == c.threshold
  {
    var p := ReclaimFrom(c.slots, c.lruHint, 0, 0);
    Reclaim(c.(slots := p.slots, lruHint := p.lruHint, activeNodes := c.activeNodes - p.reclaimed), p.reclaimed)
  }

  /**
   * A reclaim pass keeps the cache valid, evicts no more than 16 entries,
   * evicts only entries whose counter reached zero, and leaves the
   * decision of every entry it keeps alone.
   */
  lemma ReclaimValid(c: Cache)
    requires Valid(c)
    ensures var r := ReclaimNode(c);
      Valid(r.cache) && r.reclaimed <= CacheReclaim
      && (forall k | Cached(r.cache, k).Some? :: Cached(r.cache, k) == Cached(c, k))
      && (forall i, j | 0 <= i < CacheSlots && 0 <= j < |c.slots[i]| && Cached(r.cache, c.slots[i][j].key).None? ::
            c.slots[i][j].used == 1)
  {
    var r := ReclaimNode(c).cache;
    forall i, j | 0 <= i < |r.slots| && 0 <= j < |r.slots[i]| ensures Hash(r.slots[i][j].key) == i {
      assert r.slots[i][j].key in KeySet(r.slots[i]);
      var e :| e in c.slots[i] && e.key == r.slots[i][j].key;
      var j' :| 0 <= j' < |c.slots[i]| && c.slots[i][j'] == e;
    }
    forall k | Cached(r, k).Some? ensures Cached(r, k) == Cached(c, k) {
      var h := Hash(k);
      var jr := Index(r.slots[h], k);
      assert (k, r.slots[h][jr].avd) in Pairs(c.slots[h]);
      var e :| e in c.slots[h] && (e.key, e.avd) == (k, r.slots[h][jr].avd);
      var j :| 0 <= j < |c.slots[h]| && c.slots[h][j] == e;
      FoundIsOnly(c.slots[h], j);
    }
    forall i, j | 0 <= i < CacheSlots && 0 <= j < |c.slots[i]| && Cached(r, c.slots[i][j].key).None?
      ensures c.slots[i][j].used == 1
    {
      assert c.slots[i][j] in c.slots[i];
    }
  }

  // ---------------------------------------------------------------------
  // Node allocation and insertion

  /**
   * avc_alloc_node: when xmalloc succeeds (`mem`), a new entry is counted
   * and, once the count exceeds the threshold, a reclaim pass runs.
   */
  function AllocNode(c: Cache, mem: bool): (r: Cache)
    requires |c.slots| == CacheSlots
    ensures |r.slots| == CacheSlots && r.latestNotif == c.latestNotif && r.threshold == c.threshold
    ensures !mem ==> r == c
    ensures mem && c.activeNodes + 1 <= c.threshold ==> r == c.(activeNodes := c.activeNodes + 1)
    ensures mem ==> r.activeNodes == Total(r.slots) + 1 + (c.activeNodes - Total(c.slots))
    ensures mem ==> r.activeNodes <= c.activeNodes + 1
  {
    if !mem then c
    else
      var c1 := c.(activeNodes := c.activeNodes + 1);
      if c1.activeNodes > c.threshold then ReclaimNode(c1).cache else c1
  }

  /** A node allocation keeps the cache valid but for the node in hand, and evicts at most. */
  lemma AllocValid(c: Cache, mem: bool)
    requires Valid(c) && mem
    ensures var r := AllocNode(c, mem);
      r.activeNodes == Total(r.slots) + 1
      && Valid(r.(activeNodes := r.activeNodes - 1))
      && forall k | Cached(r, k).Some? :: Cached(r, k) == Cached(c, k)
  {
    var c1 := c.(activeNodes := c.activeNodes + 1);
    if c1.activeNodes > c.threshold {
      ReclaimValid(c1.(activeNodes := c.activeNodes));
    }
  }

  /** Put e on its chain: in place of the entry with the same key, or at the head. */
  function Place(s: seq<Entry>, e: Entry): (r: seq<Entry>)
    ensures KeySet(r) == KeySet(s) + {e.key}
    ensures Index(r, e.key) < |r| && r[Index(r, e.key)] == e
    ensures forall k | k != e.key :: Index(s, k) < |s| ==> Index(r, k) < |r| && r[Index(r, k)] == s[Index(s, k)]
    ensures |r| == if e.key in KeySet(s) then |s| else |s| + 1
    ensures UniqueKeys(s) ==> UniqueKeys(r)
    ensures forall x | x in r :: x == e || x in s
  {
    var i := Index(s, e.key);
    if i < |s| then
      var r := s[i := e];
      PlaceAt(s, e, i, r);
      r
    else
      var r := [e] + s;
      PlaceHead(s, e, r);
      PlaceHeadIndex(s, e, r);
      r
  }

  lemma PlaceAt(s: seq<Entry>, e: Entry, i: nat, r: seq<Entry>)
    requires i == Index(s, e.key) && i < |s| && r == s[i := e]
    ensures KeySet(r) == KeySet(s) + {e.key}
    ensures Index(r, e.key) < |r| && r[Index(r, e.key)] == e
    ensures forall k | k != e.key :: Index(s, k) < |s| ==> Index(r, k) < |r| && r[Index(r, k)] == s[Index(s, k)]
    ensures UniqueKeys(s) ==> UniqueKeys(r)
    ensures forall x | x in r :: x == e || x in s
  {
    SameKeysIndex(s, r);
    forall x | x in r ensures x == e || x in s {
      var j :| 0 <= j < |r| && r[j] == x;
      if j != i {
        assert s[j] == x;
      }
    }
  }

  lemma PlaceHead(s: seq<Entry>, e: Entry, r: seq<Entry>)
    requires Index(s, e.key) == |s| && r == [e] + s
    ensures KeySet(r) == KeySet(s) + {e.key}
    ensures UniqueKeys(s) ==> UniqueKeys(r)
    ensures forall x | x in r :: x == e || x in s
  {
    assert r[1..] == s;
    ChainCons(r);
  }

  lemma PlaceHeadIndex(s: seq<Entry>, e: Entry, r: seq<Entry>)
    requires r == [e] + s
    ensures Index(r, e.key) < |r| && r[Index(r, e.key)] == e
    ensures forall k | k != e.key :: Index(s, k) < |s| ==> Index(r, k) < |r| && r[Index(r, k)] == s[Index(s, k)]
  {
    assert r[1..] == s;
    forall k | k != e.key && Index(s, k) < |s| ensures Index(r, k) < |r| && r[Index(r, k)] == s[Index(s, k)] {
      var i := Index(s, k);
      IndexCons(r, k);
      assert r[1 + i] == s[i];
    }
  }



  /**
   * avc_insert(ssid, tsid, tclass, ae): refused for a decision older than
   * the latest revocation or when no node can be allocated; otherwise the
   * new entry replaces the one for the key, or goes to the head of its
   * chain, and is returned.
   */
  function Insert(c: Cache, k: Key, avd: AvDecision, mem: bool): (r: Search)
    requires |c.slots| == CacheSlots
    ensures |r.cache.slots| == CacheSlots
    ensures r.cache.threshold == c.threshold && r.cache.activeNodes <= c.activeNodes + 1
    ensures avd.seqno < c.latestNotif || !mem ==> r == Search(c, None)
    ensures !(avd.seqno < c.latestNotif) && mem ==>
      r.entry == Some(Entry(k, avd, 1)) && Cached(r.cache, k) == Some(avd)
      && forall k' | k' != k :: Cached(r.cache, k') == Cached(AllocNode(c, mem), k')
  {
    if NotifUpdate(c.latestNotif, avd.seqno, true).ret != 0 then Search(c, None)
    else if !mem then Search(c, None)
    else
      var c1 := AllocNode(c, mem);
      var h := Hash(k);
      var e := Entry(k, avd, 1);
      var s' := Place(c1.slots[h], e);
      var replaced := k in KeySet(c1.slots[h]);
      var c2 := c1.(slots := c1.slots[h := s'],
                    activeNodes := if replaced then c1.activeNodes - 1 else c1.activeNodes);
      PlaceCached(c1, e, c2);
      Search(c2, Some(e))
  }

  /**
   * Insertion keeps the cache valid, leaves exactly one entry for the key,
   * and leaves every other cached decision alone or evicted.
   */
  lemma InsertValid(c: Cache, k: Key, avd: AvDecision, mem: bool)
    requires Valid(c)
    ensures var r := Insert(c, k, avd, mem);
      Valid(r.cache)
      && (r.entry.Some? ==> |set j | 0 <= j < |r.cache.slots[Hash(k)]| && r.cache.slots[Hash(k)][j].key == k| == 1)
      && forall k' | k' != k && Cached(r.cache, k').Some? :: Cached(r.cache, k') == Cached(c, k')
  {
    var r := Insert(c, k, avd, mem);
    if !(avd.seqno < c.latestNotif) && mem {
      var c1 := AllocNode(c, mem);
      AllocValid(c, mem);
      var h := Hash(k);
      var e := Entry(k, avd, 1);
      var s' := Place(c1.slots[h], e);
      ChainHashes(c1.slots, h);
      ReplaceChain(c1.slots, h, s');
      OnlyOne(r.cache.slots[h], k);
    }
  }

  /** Placing an entry on its chain changes what is cached for its key only. */
  lemma PlaceCached(c1: Cache, e: Entry, c2: Cache)
    requires |c1.slots| == CacheSlots
    requires c2.slots == c1.slots[Hash(e.key) := Place(c1.slots[Hash(e.key)], e)]
    ensures Cached(c2, e.key) == Some(e.avd)
    ensures forall k | k != e.key :: Cached(c2, k) == Cached(c1, k)
  {
    var h := Hash(e.key);
    forall k | k != e.key ensures Cached(c2, k) == Cached(c1, k) {
      if Hash(k) == h {
        assert k in KeySet(c2.slots[h]) <==> k in KeySet(c1.slots[h]);
      }
    }
  }

  /** The entries on a chain of well-placed chains all hash to it. */
  lemma ChainHashes(ss: seq<seq<Entry>>, h: nat)
    requires Placed(ss) && h < CacheSlots
    ensures forall x | x in ss[h] :: Hash(x.key) == h
  {
    forall x | x in ss[h] ensures Hash(x.key) == h {
      var j :| 0 <= j < |ss[h]| && ss[h][j] == x;
    }
  }

  /** Replacing one chain by a chain of well-placed, distinct entries keeps the chains well placed. */
  lemma ReplaceChain(ss: seq<seq<Entry>>, h: nat, t: seq<Entry>)
    requires Placed(ss) && h < CacheSlots
    requires forall e | e in t :: Hash(e.key) == h
    requires UniqueKeys(t)
    ensures Placed(ss[h := t])
    ensures Total(ss[h := t]) + |ss[h]| == Total(ss) + |t|
  {
    TotalUpdate(ss, h, t);
    var ss': seq<seq<Entry>> := ss[h := t];
    forall i, j | 0 <= i < CacheSlots && 0 <= j < |ss'[i]| ensures Hash(ss'[i][j].key) == i {
      if i == h {
        assert t[j] in t;
      }
    }
  }

  /** A chain without duplicate keys holds the entry for a cached key exactly once. */
  lemma OnlyOne(s: seq<Entry>, k: Key)
    requires UniqueKeys(s) && k in KeySet(s)
    ensures |set j | 0 <= j < |s| && s[j].key == k| == 1
  {
    var i := Index(s, k);
    assert (set j | 0 <= j < |s| && s[j].key == k) == {i};
  }

  // ---------------------------------------------------------------------
  // Editing cached decisions

  /** The callback events avc_update_node acts on; Reset and the rest leave the decision alone. */
  datatype Event = Grant | TryRevoke | Revoke | Reset | AuditAllowEnable | AuditAllowDisable
                 | AuditDenyEnable | AuditDenyDisable

  /** `v` with exactly the bits of perms set, and no other bit changed. */
  predicate SetBits(old_v: AccessVector, perms: AccessVector, v: AccessVector)
  {
    perms <= v && v - perms == old_v - perms
  }

  /** `v` with exactly the bits of perms cleared, and no other bit changed. */
  predicate ClearBits(old_v: AccessVector, perms: AccessVector, v: AccessVector)
  {
    v * perms == {} && v - perms == old_v - perms
  }

  /**
   * The switch in avc_update_node: an event edits one vector of the
   * decision (see ApplyAllowed, ApplyAuditAllow, ApplyAuditDeny).
   */
  function Apply(ev: Event, perms: AccessVector, d: AvDecision): (r: AvDecision)
    ensures r.decided == d.decided && r.seqno == d.seqno
    ensures ev == Reset ==> r == d
  {
    match ev
    case Grant => d.(allowed := d.allowed + perms)
    case TryRevoke => d.(allowed := d.allowed - perms)
    case Revoke => d.(allowed := d.allowed - perms)
    case AuditAllowEnable => d.(auditallow := d.auditallow + perms)
    case AuditAllowDisable => d.(auditallow := d.auditallow - perms)
    case AuditDenyEnable => d.(auditdeny := d.auditdeny + perms)
    case AuditDenyDisable => d.(auditdeny := d.auditdeny - perms)
    case Reset => d
  }

  /** A grant sets the permissions in the allowed vector; a revocation clears them. */
  lemma ApplyAllowed(ev: Event, perms: AccessVector, d: AvDecision)
    requires ev in {Grant, TryRevoke, Revoke}
    ensures var r := Apply(ev, perms, d);
      r.auditallow == d.auditallow && r.auditdeny == d.auditdeny
      && (ev == Grant ==> SetBits(d.allowed, perms, r.allowed))
      && (ev != Grant ==> ClearBits(d.allowed, perms, r.allowed))
  {
  }

  /** The audit-allow events set or clear the permissions in the auditallow vector. */
  lemma ApplyAuditAllow(ev: Event, perms: AccessVector, d: AvDecision)
    requires ev in {AuditAllowEnable, AuditAllowDisable}
    ensures var r := Apply(ev, perms, d);
      r.allowed == d.allowed && r.auditdeny == d.auditdeny
      && (ev == AuditAllowEnable ==> SetBits(d.auditallow, perms, r.auditallow))
      && (ev == AuditAllowDisable ==> ClearBits(d.auditallow, perms, r.auditallow))
  {
  }

  /** The audit-deny events set or clear the permissions in the auditdeny vector. */
  lemma ApplyAuditDeny(ev: Event, perms: AccessVector, d: AvDecision)
    requires ev in {AuditDenyEnable, AuditDenyDisable}
    ensures var r := Apply(ev, perms, d);
      r.allowed == d.allowed && r.auditallow == d.auditallow
      && (ev == AuditDenyEnable ==> SetBits(d.auditdeny, perms, r.auditdeny))
      && (ev == AuditDenyDisable ==> ClearBits(d.auditdeny, perms, r.auditdeny))
  {
  }

  /** Setting bits and then clearing them gives back the vector without them. */
  lemma GrantThenRevoke(d: AvDecision, perms: AccessVector)
    ensures Apply(Revoke, perms, Apply(Grant, perms, d)).allowed == d.allowed - perms
    ensures d.allowed * perms == {} ==> Apply(Revoke, perms, Apply(Grant, perms, d)) == d
  {
    if d.allowed * perms == {} {
      forall x | x in d.allowed ensures x !in perms {
        assert x !in d.allowed * perms;
      }
      assert (d.allowed + perms) - perms == d.allowed;
    }
  }

  datatype Update = Update(rc: int, cache: Cache)

  /**
   * avc_update_node(event, perms, ssid, tsid, tclass): allocate a node (which
   * may run a reclaim pass), then replace the entry for the key with a copy
   * whose decision the event edits.  -ENOMEM when nothing can be allocated,
   * -ENOENT when the key is not cached.
   */
  function UpdateNode(c: Cache, ev: Event, perms: AccessVector, k: Key, mem: bool): (r: Update)
    requires |c.slots| == CacheSlots
    ensures |r.cache.slots| == CacheSlots
    ensures !mem ==> r == Update(-ENOMEM, c)
    ensures mem ==> (r.rc == -ENOENT <==> Cached(AllocNode(c, mem), k).None?) && (r.rc == 0 || r.rc == -ENOENT)
    ensures mem && r.rc == -ENOENT && c.activeNodes + 1 <= c.threshold ==> r.cache == c
    ensures r.rc == 0 ==> Cached(r.cache, k) == Some(Apply(ev, perms, Cached(AllocNode(c, mem), k).value))
    ensures r.rc == 0 ==> forall k' | k' != k :: Cached(r.cache, k') == Cached(AllocNode(c, mem), k')
  {
    if !mem then Update(-ENOMEM, c)
    else
      var c1 := AllocNode(c, mem);
      var h := Hash(k);
      var s := c1.slots[h];
      var i := Index(s, k);
      if i == |s| then Update(-ENOENT, c1.(activeNodes := c1.activeNodes - 1))
      else
        var e := Entry(k, Apply(ev, perms, s[i].avd), 1);
        var c2 := c1.(slots := c1.slots[h := Place(s, e)], activeNodes := c1.activeNodes - 1);
        PlaceCached(c1, e, c2);
        Update(0, c2)
  }

  lemma UpdateValid(c: Cache, ev: Event, perms: AccessVector, k: Key, mem: bool)
    requires Valid(c)
    ensures Valid(UpdateNode(c, ev, perms, k, mem).cache)
  {
    if mem {
      var c1 := AllocNode(c, mem);
      AllocValid(c, mem);
      var h := Hash(k);
      var s := c1.slots[h];
      var i := Index(s, k);
      if i < |s| {
        var e := Entry(k, Apply(ev, perms, s[i].avd), 1);
        var s' := Place(s, e);
        ChainHashes(c1.slots, h);
        ReplaceChain(c1.slots, h, s');
      }
    }
  }

  // ---------------------------------------------------------------------
  // Reset

  /**
   * A registered callback: whether its event set includes the reset event,
   * and what it returns when called for one.
   */
  datatype Callback = Callback(wantsReset: bool, result: int)

  /** What the reset loop over the callbacks returns: the first failure of one registered for resets, else 0. */
  function ResetCallbacks(cbs: seq<Callback>): (rc: int)
    ensures rc != 0 ==> exists i | 0 <= i < |cbs| :: cbs[i].wantsReset && cbs[i].result == rc
    ensures rc == 0 <==> forall i | 0 <= i < |cbs| :: cbs[i].wantsReset ==> cbs[i].result == 0
  {
    if |cbs| == 0 then 0
    else if cbs[0].wantsReset && cbs[0].result != 0 then cbs[0].result
    else
      var rc := ResetCallbacks(cbs[1..]);
      assert forall i | 1 <= i < |cbs| :: cbs[i] == cbs[1..][i - 1];
      rc
  }

  /**
   * avc_ss_reset(seqno): empty every chain, run the reset callbacks, and
   * on success record seqno as the latest revocation.
   */
  function SsReset(c: Cache, seqno: U32, cbs: seq<Callback>): (r: Update)
    ensures r.cache.slots == NoEntries(CacheSlots) && r.cache.activeNodes == c.activeNodes - Total(c.slots)
    ensures r.rc == ResetCallbacks(cbs)
    ensures r.rc != 0 ==> r.cache.latestNotif == c.latestNotif
    ensures r.rc == 0 ==> r.cache.latestNotif == NotifUpdate(c.latestNotif, seqno, false).latest
  {
    var emptied := c.(slots := NoEntries(CacheSlots), activeNodes := c.activeNodes - Total(c.slots));
    var rc := ResetCallbacks(cbs);
    if rc != 0 then Update(rc, emptied)
    else Update(0, emptied.(latestNotif := NotifUpdate(c.latestNotif, seqno, false).latest))
  }

  /** After a reset nothing is cached, the cache is valid, and no decision older than seqno can be inserted. */
  lemma ResetEmpties(c: Cache, seqno: U32, cbs: seq<Callback>, k: Key, avd: AvDecision, mem: bool)
    requires Valid(c)
    ensures var r := SsReset(c, seqno, cbs);
      Valid(r.cache) && Cached(r.cache, k).None?
      && (r.rc == 0 && avd.seqno < seqno ==> Insert(r.cache, k, avd, mem).entry.None?)
  {
    TotalEmpty(CacheSlots);
    var r := SsReset(c, seqno, cbs);
    assert Index(r.cache.slots[Hash(k)], k) == 0;
  }

  // ---------------------------------------------------------------------
  // Permission checks

  /** The outcome of security_compute_av: its return code and the decision. */
  datatype Computed = Computed(rc: int, avd: AvDecision)

  /** The outcome of avc_has_perm_noaudit: the return code, the decision copied out, the cache. */
  datatype Check = Check(rc: int, avd: Option<AvDecision>, cache: Cache)

  /** The requested bits the decision does not allow. */
  function Denied(requested: AccessVector, d: AvDecision): AccessVector
  {
    requested - d.allowed
  }

  /**
   * avc_has_perm_noaudit: consult the cache, fall back on the security
   * server (`server`) on a miss and cache its answer, then decide.  An
   * empty request or any denied bit is refused with -EACCES when
   * enforcing; in permissive mode it is let through and, when there is a
   * cache entry, the requested bits are granted to it.  `insertMem` and
   * `updateMem` say whether the node allocations of the insert and of the
   * grant succeed.
   */
  function HasPermNoaudit(c: Cache, k: Key, requested: AccessVector, enforcing: bool, server: Computed,
                          insertMem: bool, updateMem: bool): (r: Check)
    requires |c.slots| == CacheSlots
    ensures |r.cache.slots| == CacheSlots
    ensures r.avd.None? <==> r.rc == server.rc && server.rc != 0
                             && !(Cached(c, k).Some? && Covers(Cached(c, k).value.decided, requested))
    ensures Cached(c, k).Some? && Covers(Cached(c, k).value.decided, requested) ==> r.avd == Some(Cached(c, k).value)
    ensures !(Cached(c, k).Some? && Covers(Cached(c, k).value.decided, requested)) && server.rc == 0 ==>
      r.avd == Some(server.avd)
    ensures r.avd.Some? ==>
      (r.rc == -EACCES <==> enforcing && (requested == {} || Denied(requested, r.avd.value) != {}))
      && (r.rc != -EACCES ==> r.rc == 0)
  {
    var l := Lookup(c, k, requested);
    var found: Search :=
      if l.entry.Some? then l
      else if server.rc != 0 then Search(l.cache, None)
      else Insert(l.cache, k, server.avd, insertMem);
    if l.entry.None? && server.rc != 0 then Check(server.rc, None, l.cache)
    else
      var avd := if found.entry.Some? then found.entry.value.avd else server.avd;
      if requested == {} || Denied(requested, avd) != {} then
        if enforcing then Check(-EACCES, Some(avd), found.cache)
        else if found.entry.Some? then
          Check(0, Some(avd), UpdateNode(found.cache, Grant, requested, k, updateMem).cache)
        else Check(0, Some(avd), found.cache)
      else Check(0, Some(avd), found.cache)
  }

  /**
   * In permissive mode the check succeeds, and when the cache had room for
   * the allocations (no reclaim pass ran) the cached decision afterwards
   * allows every requested bit.
   */
  lemma PermissiveGrants(c: Cache, k: Key, requested: AccessVector, server: Computed)
    requires |c.slots| == CacheSlots && c.activeNodes + 2 <= c.threshold
    requires (Cached(c, k).Some? && Covers(Cached(c, k).value.decided, requested))
             || (server.rc == 0 && c.latestNotif <= server.avd.seqno)
    ensures var r := HasPermNoaudit(c, k, requested, false, server, true, true);
      r.rc == 0 && Cached(r.cache, k).Some? && Covers(Cached(r.cache, k).value.allowed, requested)
  {
    var l := Lookup(c, k, requested);
    var found := if l.entry.Some? then l else Insert(l.cache, k, server.avd, true);
    assert found.entry.Some? && Cached(found.cache, k) == Some(found.entry.value.avd);
    var avd := found.entry.value.avd;
    if requested == {} || Denied(requested, avd) != {} {
      assert AllocNode(found.cache, true) == found.cache.(activeNodes := found.cache.activeNodes + 1);
      ApplyAllowed(Grant, requested, avd);
    } else {
      forall p | p in requested ensures p in avd.allowed {
        assert p !in Denied(requested, avd);
      }
    }
  }

  // ---------------------------------------------------------------------
  // Auditing

  /** What avc_audit logs: whether the access was denied, and the bits it names. */
  datatype AuditRecord = AuditRecord(denied: bool, audited: AccessVector)

  /**
   * The decision of avc_audit: denied bits are logged when auditdeny asks
   * for one of them; a failure with nothing denied logs the whole request
   * as denied; a grant is logged when auditallow asks for one of its bits.
   */
  function Audit(requested: AccessVector, d: AvDecision, result: int): (r: Option<AuditRecord>)
    ensures r.None? <==>
      (Denied(requested, d) != {} && Denied(requested, d) * d.auditdeny == {})
      || (Denied(requested, d) == {} && result == 0 && requested * d.auditallow == {})
    ensures r.Some? && Denied(requested, d) != {} ==> r.value == AuditRecord(true, Denied(requested, d))
    ensures r.Some? && Denied(requested, d) == {} ==> r.value == AuditRecord(result != 0, requested)
  {
    var denied := Denied(requested, d);
    if denied != {} then
      if denied * d.auditdeny == {} then None else Some(AuditRecord(true, denied))
    else if result != 0 then Some(AuditRecord(true, requested))
    else if requested * d.auditallow == {} then None
    else Some(AuditRecord(false, requested))
  }

  /** An audit record of a denial only ever names requested bits the decision does not allow. */
  lemma AuditNamesDenied(requested: AccessVector, d: AvDecision, result: int)
    requires Audit(requested, d, result).Some?
    ensures var a := Audit(requested, d, result).value;
      a.audited <= requested && (!a.denied ==> Covers(d.allowed, requested))
  {
    forall p | p in requested && Denied(requested, d) == {} ensures p in d.allowed {
      assert p !in Denied(requested, d);
    }
  }

  /** avc_sidcmp: equal SIDs, or either one the wildcard. */
  function SidCmp(x: bv32, y: bv32): bool
  {
    x == y || x == SecsidWild || y == SecsidWild
  }

  /** The wildcard matches everything and the comparison is symmetric. */
  lemma SidCmpProps(x: bv32, y: bv32)
    ensures SidCmp(x, y) == SidCmp(y, x)
    ensures SidCmp(x, x) && SidCmp(SecsidWild, y)
    ensures x != SecsidWild && y != SecsidWild ==> (SidCmp(x, y) <==> x == y)
  {
  }
}
