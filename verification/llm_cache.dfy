/** The in-memory tier of the response cache: raw model outputs keyed by cache key, each
    with an absolute expiry time, kept in one insertion order that both `Set` and a `Get`
    hit update (the order of a JavaScript `Map`). The clock is the explicit `now`
    argument, in milliseconds. */
module LlmCache {
  import opened Outcomes
  import Text

  /** A raw model output and the absolute time (ms) after which it is stale. */
  datatype Entry = Entry(value: string, expire: int)

  /** The map's entries in iteration order: the front is the oldest, the back the most
      recently inserted or touched. */
  type Order = seq<(string, Entry)>

  /** Construction options; a missing option is `None` and falls back with `??`. */
  datatype Options = Options(max: Option<int>, ttlSeconds: Option<int>, persistPath: Option<string>)

  datatype Cache = Cache(entries: Order, max: int, ttlSeconds: int, persistPath: Option<string>)

  /** What a `Get` returns: the cache after the call and the value (`None` is `null`). */
  datatype Lookup = Lookup(cache: Cache, value: Option<string>)

  const DefaultMax: int := 200
  const DefaultTtlSeconds: int := 60 * 60 * 6

  /** A JavaScript `Map` never holds a key twice. */
  predicate DistinctKeys(es: Order) {
    forall i, j :: 0 <= i < j < |es| ==> es[i].0 != es[j].0
  }

  predicate HasKey(es: Order, k: string) {
    exists i :: 0 <= i < |es| && es[i].0 == k
  }

  /** The state every public operation preserves once the bound is non-negative. */
  predicate Valid(c: Cache) {
    DistinctKeys(c.entries) && 0 <= c.max && |c.entries| <= c.max
  }

  /** Position of key `k` in the order, if present. */
  function IndexOf(es: Order, k: string): (r: Option<nat>)
    ensures r.None? <==> !HasKey(es, k)
    ensures r.Some? ==> r.value < |es| && es[r.value].0 == k
    ensures r.Some? ==> forall j :: 0 <= j < r.value ==> es[j].0 != k
  {
    if es == [] then None
    else if es[0].0 == k then Some(0)
    else
      match IndexOf(es[1..], k)
      case None =>
        assert forall i :: 1 <= i < |es| ==> es[i] == es[1..][i - 1];
        None
      case Some(i) => Some(i + 1)
  }

  /** `map.get(k)`: the entry stored under `k`, if any. */
  function Find(es: Order, k: string): (r: Option<Entry>)
    ensures r.None? <==> !HasKey(es, k)
    ensures r.Some? ==> (k, r.value) in es
  {
    match IndexOf(es, k)
    case None => None
    case Some(i) => Some(es[i].1)
  }

  /** `map.delete(k)`: every entry under another key stays, in the same order. */
  function Delete(es: Order, k: string): (r: Order)
    ensures !HasKey(r, k)
    ensures forall p :: p in r <==> p in es && p.0 != k
    ensures |r| <= |es|
    ensures HasKey(es, k) ==> |r| < |es|
    ensures DistinctKeys(es) ==> DistinctKeys(r)
  {
    if es == [] then []
    else
      var rest := Delete(es[1..], k);
      DistinctTail(es);
      if es[0].0 == k then rest
      else
        HasKeyTail(es, k);
        FrontKeyFresh(es, rest);
        DistinctCons(es[0], rest);
        [es[0]] + rest
  }

  /** A key held by the map but not by its front entry is held by the rest. */
  lemma HasKeyTail(es: Order, k: string)
    requires es != [] && es[0].0 != k
    ensures HasKey(es, k) ==> HasKey(es[1..], k)
  {
    if HasKey(es, k) {
      var i :| 0 <= i < |es| && es[i].0 == k;
      assert es[1..][i - 1] == es[i];
    }
  }

  /** With distinct keys, no entry taken from behind the front shares the front key. */
  lemma FrontKeyFresh(es: Order, rest: Order)
    requires es != [] && forall p :: p in rest ==> p in es[1..]
    ensures DistinctKeys(es) ==> !HasKey(rest, es[0].0)
  {
    if DistinctKeys(es) {
      forall i | 0 <= i < |rest| ensures rest[i].0 != es[0].0 {
        assert rest[i] in es[1..];
        var j :| 0 <= j < |es[1..]| && es[1..][j] == rest[i];
        assert es[j + 1] == rest[i];
      }
    }
  }

  /** Dropping the front entry keeps the keys distinct. */
  lemma DistinctTail(es: Order)
    requires es != []
    ensures DistinctKeys(es) ==> DistinctKeys(es[1..])
  {
    if DistinctKeys(es) {
      forall i, j | 0 <= i < j < |es[1..]| ensures es[1..][i].0 != es[1..][j].0 {
        assert es[1..][i] == es[i + 1] && es[1..][j] == es[j + 1];
      }
    }
  }

  /** Putting an entry with a fresh key in front keeps the keys distinct. */
  lemma DistinctCons(p: (string, Entry), es: Order)
    ensures DistinctKeys(es) && !HasKey(es, p.0) ==> DistinctKeys([p] + es)
  {
    if DistinctKeys(es) && !HasKey(es, p.0) {
      var r := [p] + es;
      forall i, j | 0 <= i < j < |r| ensures r[i].0 != r[j].0 {
        assert r[j] == es[j - 1];
        if i > 0 {
          assert r[i] == es[i - 1];
        }
      }
    }
  }

  /** Appending an entry with a fresh key keeps the keys distinct. */
  lemma DistinctSnoc(es: Order, p: (string, Entry))
    requires DistinctKeys(es) && !HasKey(es, p.0)
    ensures DistinctKeys(es + [p])
  {
    var r := es + [p];
    forall i, j | 0 <= i < j < |r| ensures r[i].0 != r[j].0 {
      assert r[i] == es[i];
    }
  }

  /** Deleting a key that is absent changes nothing. */
  lemma {:induction false} DeleteAbsent(es: Order, k: string)
    requires !HasKey(es, k)
    ensures Delete(es, k) == es
  {
    if es != [] {
      assert es[0].0 != k;
      assert !HasKey(es[1..], k) by {
        forall i | 0 <= i < |es[1..]| ensures es[1..][i].0 != k {
          assert es[1..][i] == es[i + 1];
        }
      }
      DeleteAbsent(es[1..], k);
      assert es == [es[0]] + es[1..];
    }
  }

  /** Deleting a key stored at position `i` removes exactly that position. */
  lemma {:induction false} DeleteAt(es: Order, k: string, i: nat)
    requires DistinctKeys(es) && i < |es| && es[i].0 == k
    ensures Delete(es, k) == es[..i] + es[i + 1..]
  {
    if i == 0 {
      DeleteFront(es, k);
    } else {
      DistinctTail(es);
      assert es[1..][i - 1] == es[i];
      DeleteAt(es[1..], k, i - 1);
      DeleteKeep(es, k);
      Text.RemoveAfterFront(es, i);
    }
  }

  /** Deleting the front key of a map with distinct keys drops the front entry. */
  lemma DeleteFront(es: Order, k: string)
    requires DistinctKeys(es) && es != [] && es[0].0 == k
    ensures Delete(es, k) == es[1..]
  {
    assert !HasKey(es[1..], k) by {
      forall j | 0 <= j < |es[1..]| ensures es[1..][j].0 != k {
        assert es[1..][j] == es[j + 1];
      }
    }
    DeleteAbsent(es[1..], k);
  }

  /** A front entry under another key stays in front. */
  lemma DeleteKeep(es: Order, k: string)
    requires es != [] && es[0].0 != k
    ensures Delete(es, k) == [es[0]] + Delete(es[1..], k)
  {
  }

  /** `map.set(k, e)`: an existing key keeps its position, a new key goes to the back. */
  function Put(es: Order, k: string, e: Entry): (r: Order)
    requires DistinctKeys(es)
    ensures DistinctKeys(r)
    ensures Find(r, k) == Some(e)
    ensures HasKey(es, k) ==> |r| == |es|
    ensures !HasKey(es, k) ==> r == es + [(k, e)]
    ensures forall k' :: HasKey(es, k') ==> HasKey(r, k')
  {
    match IndexOf(es, k)
    case Some(i) =>
      var r := es[i := (k, e)];
      assert DistinctKeys(r) by {
        forall a, b | 0 <= a < b < |r| ensures r[a].0 != r[b].0 {
          assert r[a].0 == es[a].0 && r[b].0 == es[b].0;
        }
      }
      assert forall k' :: HasKey(es, k') ==> HasKey(r, k') by {
        forall k' | HasKey(es, k') ensures HasKey(r, k') {
          var j :| 0 <= j < |es| && es[j].0 == k';
          assert r[j].0 == k';
        }
      }
      FindAt(r, k, i);
      r
    case None =>
      var r := es + [(k, e)];
      DistinctSnoc(es, (k, e));
      FindAt(r, k, |es|);
      assert forall j :: 0 <= j < |es| ==> r[j] == es[j];
      r
  }

  /** In a map with distinct keys, the entry found under `k` is the one at its position. */
  lemma FindAt(es: Order, k: string, i: nat)
    requires DistinctKeys(es) && i < |es| && es[i].0 == k
    ensures IndexOf(es, k) == Some(i)
    ensures Find(es, k) == Some(es[i].1)
  {
  }

  /** Overwriting a present key keeps its position and every other entry. */
  lemma PutExisting(es: Order, k: string, e: Entry, i: nat)
    requires DistinctKeys(es) && i < |es| && es[i].0 == k
    ensures Put(es, k, e) == es[i := (k, e)]
  {
    FindAt(es, k, i);
  }

  /** `get(key)` at time `now`: a missing key is a miss; an entry past its expiry is
      deleted and is a miss; a hit is moved to the most-recent end, its expiry untouched. */
  function Get(c: Cache, k: string, now: nat): (r: Lookup)
    ensures r.cache.max == c.max && r.cache.ttlSeconds == c.ttlSeconds
    ensures r.cache.persistPath == c.persistPath
    ensures DistinctKeys(c.entries) ==> DistinctKeys(r.cache.entries)
    ensures |r.cache.entries| <= |c.entries|
    ensures r.value.Some? <==> Find(c.entries, k).Some? && now <= Find(c.entries, k).value.expire
    ensures r.value.Some? ==> r.value.value == Find(c.entries, k).value.value
  {
    match IndexOf(c.entries, k)
    case None => Lookup(c, None)
    case Some(i) =>
      var e := c.entries[i].1;
      var rest := Delete(c.entries, k);
      if now > e.expire then
        Lookup(c.(entries := rest), None)
      else
        var r := rest + [(k, e)];
        assert DistinctKeys(c.entries) ==> DistinctKeys(r) by {
          if DistinctKeys(c.entries) {
            DistinctSnoc(rest, (k, e));
          }
        }
        Lookup(c.(entries := r), Some(e.value))
  }

  /** The expiry `set` stamps on an entry written at time `now`. */
  function ExpiryAt(c: Cache, now: nat): int {
    now + c.ttlSeconds * 1000
  }

  /** `set(key, value)` at time `now`: store with an absolute expiry, then, if the map has
      grown past `max`, evict the single entry at the front of the order. */
  function Set(c: Cache, k: string, v: string, now: nat): (r: Cache)
    requires DistinctKeys(c.entries)
    ensures r.max == c.max && r.ttlSeconds == c.ttlSeconds && r.persistPath == c.persistPath
    ensures DistinctKeys(r.entries)
    ensures Valid(c) ==> Valid(r)
  {
    var es := Put(c.entries, k, Entry(v, ExpiryAt(c, now)));
    if |es| > c.max then
      DistinctTail(es);
      c.(entries := es[1..])
    else
      c.(entries := es)
  }

  /** `clear()`: the map becomes empty; the snapshot file is handled by `DiskAfterClear`. */
  function Clear(c: Cache): (r: Cache)
    ensures forall k :: !HasKey(r.entries, k)
    ensures Valid(c) ==> Valid(r)
  {
    c.(entries := [])
  }

  /** Whether a snapshot path is configured (`if (this.persistPath)`). */
  predicate Persists(c: Cache) {
    c.persistPath.Some? && c.persistPath.value != ""
  }

  /** The array `persistToDisk` serialises: the entries in map order. */
  function Snapshot(c: Cache): Order {
    c.entries
  }

  /** The snapshot file after a `set` (`None` = no file): rewritten with the whole map when
      persistence is configured and the write succeeds, otherwise left as it was. */
  function DiskAfterSet(c: Cache, disk: Option<Order>, writeOk: bool): (r: Option<Order>)
    ensures Persists(c) && writeOk ==> r == Some(c.entries)
    ensures !(Persists(c) && writeOk) ==> r == disk
  {
    if Persists(c) && writeOk then Some(Snapshot(c)) else disk
  }

  /** The snapshot file after `clear()`: unlinked when persistence is configured and the
      unlink succeeds; a failed unlink is ignored. */
  function DiskAfterClear(c: Cache, disk: Option<Order>, unlinkOk: bool): (r: Option<Order>)
    ensures Persists(c) && unlinkOk ==> r.None?
    ensures !(Persists(c) && unlinkOk) ==> r == disk
  {
    if Persists(c) && unlinkOk then None else disk
  }

  /** The entries of `es` still live at `now`, in order. */
  function Live(es: Order, now: nat): (r: Order)
    ensures forall p :: p in r <==> p in es && p.1.expire > now
    ensures |r| <= |es|
  {
    if es == [] then []
    else (if es[0].1.expire > now then [es[0]] else []) + Live(es[1..], now)
  }

  /** `loadFromDisk`'s loop: every live pair of the file is `map.set` in file order. */
  function LoadInto(acc: Order, file: Order, now: nat): (r: Order)
    requires DistinctKeys(acc)
    ensures DistinctKeys(r)
    ensures forall p :: p in r && p !in acc ==> p in file && p.1.expire > now
    ensures forall k :: HasKey(acc, k) ==> HasKey(r, k)
    ensures forall i :: 0 <= i < |file| && file[i].1.expire > now ==> HasKey(r, file[i].0)
    decreases |file|
  {
    if file == [] then acc
    else
      var (k, e) := file[0];
      var next := if e.expire > now then Put(acc, k, e) else acc;
      assert forall p :: p in next && p !in acc ==> p == file[0];
      assert e.expire > now ==> HasKey(next, k) by {
        if e.expire > now {
          var j :| 0 <= j < |next| && next[j] == (k, e);
        }
      }
      var r := LoadInto(next, file[1..], now);
      assert forall i :: 1 <= i < |file| ==> file[i] == file[1..][i - 1];
      r
  }

  /** The entries a cache starts with: a snapshot that was missing or did not parse
      (`None`) gives a cold start, otherwise its live pairs are loaded. */
  function Loaded(file: Option<Order>, now: nat): (r: Order)
    ensures DistinctKeys(r)
    ensures forall p :: p in r ==> p.1.expire > now
    ensures file.None? ==> r == []
    ensures file.Some? ==> forall p :: p in r ==> p in file.value
    ensures file.Some? ==> forall i :: 0 <= i < |file.value| && file.value[i].1.expire > now ==> HasKey(r, file.value[i].0)
  {
    match file
    case None => []
    case Some(arr) => LoadInto([], arr, now)
  }

  /** `new LLMCache(opts)`: `??` defaults for `max` and `ttlSeconds`; when a snapshot path
      is configured the snapshot read at `now` is loaded. */
  function New(opts: Options, file: Option<Order>, now: nat): (r: Cache)
    ensures r.max == opts.max.GetOr(DefaultMax)
    ensures r.ttlSeconds == opts.ttlSeconds.GetOr(DefaultTtlSeconds)
    ensures r.persistPath == opts.persistPath
    ensures !Persists(r) ==> r.entries == []
    ensures Persists(r) ==> r.entries == Loaded(file, now)
    ensures DistinctKeys(r.entries)
  {
    var c := Cache([], opts.max.GetOr(DefaultMax), opts.ttlSeconds.GetOr(DefaultTtlSeconds), opts.persistPath);
    if Persists(c) then c.(entries := Loaded(file, now)) else c
  }

  /** The options of `defaultLLMCache`: `Number(env) || default` for the two numbers
      (`None` = unset or NaN) and `env || undefined` for the path. */
  function DefaultOptions(envMax: Option<int>, envTtl: Option<int>, envPath: Option<string>): (r: Options)
    ensures r.max.Some? && r.ttlSeconds.Some?
    ensures (envMax.None? || envMax == Some(0)) ==> r.max == Some(DefaultMax)
    ensures envMax.Some? && envMax.value != 0 ==> r.max == envMax
    ensures (envTtl.None? || envTtl == Some(0)) ==> r.ttlSeconds == Some(DefaultTtlSeconds)
    ensures envTtl.Some? && envTtl.value != 0 ==> r.ttlSeconds == envTtl
    ensures r.persistPath.Some? <==> envPath.Some? && envPath.value != ""
    ensures r.persistPath.Some? ==> r.persistPath == envPath
  {
    Options(
      Some(NumberOr(envMax, DefaultMax)),
      Some(NumberOr(envTtl, DefaultTtlSeconds)),
      if envPath.Some? && envPath.value != "" then envPath else None)
  }

  // ---------------------------------------------------------------------------------
  // Properties of the operations
  // ---------------------------------------------------------------------------------

  /** A `get` on an absent key returns `null` and leaves the cache as it was. */
  lemma GetAbsent(c: Cache, k: string, now: nat)
    requires !HasKey(c.entries, k)
    ensures Get(c, k, now) == Lookup(c, None)
  {
  }

  /** A `get` strictly after the expiry removes exactly that entry and returns `null`. */
  lemma GetExpired(c: Cache, k: string, now: nat, i: nat)
    requires DistinctKeys(c.entries) && i < |c.entries| && c.entries[i].0 == k
    requires now > c.entries[i].1.expire
    ensures Get(c, k, now) == Lookup(c.(entries := c.entries[..i] + c.entries[i + 1..]), None)
  {
    assert IndexOf(c.entries, k) == Some(i);
    DeleteAt(c.entries, k, i);
  }

  /** A `get` at or before the expiry returns the stored value and moves the entry, with
      its expiry unchanged, behind all others, whose relative order is kept. */
  lemma GetHit(c: Cache, k: string, now: nat, i: nat)
    requires DistinctKeys(c.entries) && i < |c.entries| && c.entries[i].0 == k
    requires now <= c.entries[i].1.expire
    ensures Get(c, k, now) ==
      Lookup(c.(entries := c.entries[..i] + c.entries[i + 1..] + [c.entries[i]]), Some(c.entries[i].1.value))
  {
    assert IndexOf(c.entries, k) == Some(i);
    DeleteAt(c.entries, k, i);
  }

  /** `set` on a key already present overwrites it in place: same position, same size,
      every other entry untouched, and the expiry is `now + ttlSeconds * 1000`. */
  lemma SetExisting(c: Cache, k: string, v: string, now: nat, i: nat)
    requires Valid(c) && i < |c.entries| && c.entries[i].0 == k
    ensures Set(c, k, v, now).entries == c.entries[i := (k, Entry(v, now + c.ttlSeconds * 1000))]
  {
    PutExisting(c.entries, k, Entry(v, ExpiryAt(c, now)), i);
  }

  /** `set` on a new key appends it and, when the map then holds more than `max` entries,
      evicts exactly the front entry, whether or not it has expired. */
  lemma SetNew(c: Cache, k: string, v: string, now: nat)
    requires DistinctKeys(c.entries) && !HasKey(c.entries, k)
    ensures var grown := c.entries + [(k, Entry(v, now + c.ttlSeconds * 1000))];
      Set(c, k, v, now).entries == if |grown| > c.max then grown[1..] else grown
  {
  }

  /** The capacity bound survives every `set`, `get` and `clear`. */
  lemma SizeBounded(c: Cache, k: string, v: string, now: nat)
    requires Valid(c)
    ensures |Set(c, k, v, now).entries| <= c.max
    ensures |Get(c, k, now).cache.entries| <= c.max
    ensures Clear(c).entries == []
  {
  }

  /** With room for at least one entry, a `get` after a `set` of the same key returns the
      value just stored exactly until the expiry the `set` stamped, and misses after it. */
  lemma {:induction false} SetThenGet(c: Cache, k: string, v: string, now: nat, later: nat)
    requires Valid(c) && c.max >= 1
    ensures Get(Set(c, k, v, now), k, later).value ==
      (if later <= now + c.ttlSeconds * 1000 then Some(v) else None)
  {
    var e := Entry(v, ExpiryAt(c, now));
    var es := Put(c.entries, k, e);
    var r := Set(c, k, v, now);
    if HasKey(c.entries, k) {
      assert r.entries == es;
    } else {
      assert es == c.entries + [(k, e)];
      if |es| > c.max {
        assert r.entries == es[1..];
        assert r.entries[|r.entries| - 1] == (k, e);
      }
    }
    assert (k, e) in r.entries;
  }

  /** With `max = 0` a `set` evicts the entry it has just written. */
  lemma SetWithZeroMax(c: Cache, k: string, v: string, now: nat)
    requires Valid(c) && c.max == 0
    ensures Set(c, k, v, now).entries == []
  {
  }

  /** No key of `file` is already in `acc`. */
  predicate FreshKeys(acc: Order, file: Order) {
    forall i :: 0 <= i < |file| ==> !HasKey(acc, file[i].0)
  }

  /** The live pairs of `file` that the first step of `LoadInto` adds. */
  function LiveHead(file: Order, now: nat): Order
    requires file != []
  {
    if file[0].1.expire > now then [file[0]] else []
  }

  /** One step of the load loop appends the head when it is live, and the rest of the file
      stays fresh for what has been loaded. */
  lemma LoadStep(acc: Order, file: Order, now: nat)
    requires file != [] && DistinctKeys(acc) && DistinctKeys(file) && FreshKeys(acc, file)
    ensures DistinctKeys(acc + LiveHead(file, now)) && DistinctKeys(file[1..])
    ensures LoadInto(acc, file, now) == LoadInto(acc + LiveHead(file, now), file[1..], now)
    ensures FreshKeys(acc + LiveHead(file, now), file[1..])
  {
    assert !HasKey(acc, file[0].0);
    DistinctTail(file);
    DistinctSnoc(acc, file[0]);
    var next := acc + LiveHead(file, now);
    if file[0].1.expire > now {
      assert Put(acc, file[0].0, file[0].1) == next;
    } else {
      assert acc + [] == acc;
    }
    forall i | 0 <= i < |file[1..]| ensures !HasKey(next, file[1..][i].0) {
      assert file[1..][i] == file[i + 1];
      assert file[i + 1].0 != file[0].0;
      assert !HasKey(acc, file[i + 1].0);
    }
  }

  /** Loading live pairs whose keys are distinct and absent from the map appends them in
      file order. */
  lemma {:induction false} LoadIntoAppends(acc: Order, file: Order, now: nat)
    requires DistinctKeys(acc) && DistinctKeys(file) && FreshKeys(acc, file)
    ensures LoadInto(acc, file, now) == acc + Live(file, now)
    decreases |file|
  {
    if file == [] {
      assert acc + [] == acc;
    } else {
      LoadStep(acc, file, now);
      LoadIntoAppends(acc + LiveHead(file, now), file[1..], now);
      Text.AppendAssoc(acc, LiveHead(file, now), Live(file[1..], now));
    }
  }

  /** Snapshot round trip: a cache rebuilt at `later` from the snapshot of a cache with
      distinct keys recovers exactly its entries still live at `later`, in the same
      order, and none of the expired ones. */
  lemma SnapshotRoundTrip(c: Cache, later: nat)
    requires DistinctKeys(c.entries)
    ensures Loaded(Some(Snapshot(c)), later) == Live(c.entries, later)
  {
    LoadIntoAppends([], c.entries, later);
    assert [] + Live(c.entries, later) == Live(c.entries, later);
  }

  /** A cache constructed with a snapshot path from the snapshot another cache wrote
      starts with exactly that cache's entries still live at construction time, in map
      order, and keeps the configured options. */
  lemma NewFromSnapshot(opts: Options, c: Cache, later: nat)
    requires DistinctKeys(c.entries)
    requires opts.persistPath.Some? && opts.persistPath.value != ""
    ensures New(opts, Some(Snapshot(c)), later).entries == Live(c.entries, later)
    ensures New(opts, Some(Snapshot(c)), later).persistPath == opts.persistPath
  {
    SnapshotRoundTrip(c, later);
  }
}
