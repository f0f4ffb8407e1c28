/** The persistent tier of the response cache: one JSON file per cache key in a cache
    directory, each holding `{createdAt, ttl, value}` with times in seconds. Expiry is
    lazy: a read that finds an entry too old deletes it. The clock is the explicit `nowMs`
    argument; every file-system step that can fail is an explicit outcome argument. */
module LlmFileCache {
  import opened Outcomes
  import opened JsonValue

  /** What reading one cache file yields. `Unreadable` covers a read error, contents that
      do not parse, and a parsed `null` (reading a field of it throws); in a `Record` a
      missing or `null` field is `None` (and a missing `value` is `JNull`). Contents that
      parse to a number, string, boolean or array are a `Record` with every field missing,
      since every property read on them gives `undefined`. */
  datatype FileState =
    | Unreadable
    | Record(createdAt: Option<int>, ttl: Option<int>, value: Json)

  /** The cache directory: whether it exists, its files by file name, and the store-wide
      default TTL in seconds fixed when the module loads. */
  datatype Store = Store(dirExists: bool, files: map<string, FileState>, defaultTtl: int)

  /** The store after a read, and the value handed back (`JNull` is `null`). */
  datatype ReadResult = ReadResult(store: Store, value: Json)

  /** The store after a write, and whether the write threw. */
  datatype WriteResult = WriteResult(store: Store, threw: bool)

  const ThirtyDays: int := 60 * 60 * 24 * 30

  /** `DEFAULT_TTL`: `Number(env) || 30 days`, so an unset, zero or NaN value falls back. */
  function DefaultTtl(env: Option<int>): (r: int)
    ensures env.None? || env == Some(0) ==> r == 2592000
    ensures env.Some? && env.value != 0 ==> r == env.value
  {
    NumberOr(env, ThirtyDays)
  }

  /** A directory that does not exist holds no files. */
  predicate Valid(s: Store) {
    !s.dirExists ==> s.files == map[]
  }

  /** `filePathForKey`: the file `<key>.json` inside the cache directory. */
  function FileName(key: string): (r: string)
    ensures |r| == |key| + 5 && r[..|key|] == key && r[|key|..] == ".json"
  {
    key + ".json"
  }

  /** Different keys never share a file. */
  lemma FileNameInjective(k1: string, k2: string)
    ensures FileName(k1) == FileName(k2) ==> k1 == k2
  {
    if FileName(k1) == FileName(k2) {
      assert |k1| == |k2|;
      assert k1 == FileName(k1)[..|k1|];
    }
  }

  /** The file stored for `key`, if any. */
  function FileOf(s: Store, key: string): Option<FileState> {
    if FileName(key) in s.files then Some(s.files[FileName(key)]) else None
  }

  /** `Math.floor(Date.now() / 1000)`. */
  function Seconds(nowMs: nat): nat {
    nowMs / 1000
  }

  /** `obj.createdAt || 0`. */
  function CreatedOf(rec: FileState): int
    requires rec.Record?
  {
    rec.createdAt.GetOr(0)
  }

  /** `obj.ttl || DEFAULT_TTL`: a missing or zero TTL uses the default. */
  function TtlOf(rec: FileState, defaultTtl: int): int
    requires rec.Record?
  {
    NumberOr(rec.ttl, defaultTtl)
  }

  /** An entry is stale once its age in whole seconds is strictly greater than its TTL. */
  predicate Expired(rec: FileState, defaultTtl: int, nowMs: nat)
    requires rec.Record?
  {
    Seconds(nowMs) - CreatedOf(rec) > TtlOf(rec, defaultTtl)
  }

  /** The file map with `key`'s file removed. */
  function Unlink(files: map<string, FileState>, key: string): map<string, FileState> {
    map n | n in files && n != FileName(key) :: files[n]
  }

  /** `getCachedJSON(key)` at `nowMs`: a missing or unreadable file gives `null`; a stale
      entry is unlinked (a failed unlink is ignored) and gives `null`; otherwise the
      stored value. */
  function GetCachedJson(s: Store, key: string, nowMs: nat, unlinkOk: bool): (r: ReadResult)
    ensures r.store.dirExists == s.dirExists && r.store.defaultTtl == s.defaultTtl
    ensures Valid(s) ==> Valid(r.store)
    ensures FileOf(s, key).None? || FileOf(s, key) == Some(Unreadable) ==> r == ReadResult(s, JNull)
    ensures r.value != JNull ==>
      (FileOf(s, key).Some? && FileOf(s, key).value.Record? && r.value == FileOf(s, key).value.value)
    ensures r.value != JNull ==> !Expired(FileOf(s, key).value, s.defaultTtl, nowMs) && r.store == s
  {
    var name := FileName(key);
    if name !in s.files then ReadResult(s, JNull)
    else
      match s.files[name]
      case Unreadable => ReadResult(s, JNull)
      case Record(_, _, value) =>
        if Expired(s.files[name], s.defaultTtl, nowMs) then
          ReadResult(if unlinkOk then s.(files := Unlink(s.files, key)) else s, JNull)
        else
          ReadResult(s, value)
  }

  /** `setCachedJSON(key, value, ttlSeconds)` at `nowMs`: create the directory (a failure
      is ignored), then write `{createdAt: now in seconds, ttl: ttlSeconds || DEFAULT_TTL,
      value}` over any previous entry. A failed write, including one into a directory
      that could not be created, throws. */
  function SetCachedJson(s: Store, key: string, value: Json, ttlSeconds: Option<int>, nowMs: nat,
                         mkdirOk: bool, writeOk: bool): (r: WriteResult)
    ensures r.store.defaultTtl == s.defaultTtl
    ensures Valid(s) ==> Valid(r.store)
    ensures r.threw <==> !((s.dirExists || mkdirOk) && writeOk)
    ensures r.threw ==> r.store.files == s.files
    ensures !r.threw ==>
      (FileOf(r.store, key) == Some(Record(Some(Seconds(nowMs)), Some(NumberOr(ttlSeconds, s.defaultTtl)), value)))
  {
    var dir := s.dirExists || mkdirOk;
    var s1 := s.(dirExists := dir);
    if dir && writeOk then
      var entry := Record(Some(Seconds(nowMs)), Some(NumberOr(ttlSeconds, s.defaultTtl)), value);
      WriteResult(s1.(files := s.files[FileName(key) := entry]), false)
    else
      WriteResult(s1, true)
  }

  /** `clearFileCache()`: every file in the directory is removed; a missing directory is
      not an error. */
  function ClearFileCache(s: Store): (r: Store)
    ensures r.dirExists == s.dirExists && r.defaultTtl == s.defaultTtl
    ensures forall key :: FileOf(r, key).None?
  {
    s.(files := map[])
  }

  // ---------------------------------------------------------------------------------
  // Properties of the operations
  // ---------------------------------------------------------------------------------

  /** A record is a hit exactly while its age does not exceed its TTL (an age equal to the
      TTL still hits); a stale record reads as `null` and its file is gone afterwards
      when the unlink succeeds. A missing or zero `createdAt` counts as 0 and a missing or
      zero `ttl` as the store default. */
  lemma ExpiryRule(s: Store, key: string, nowMs: nat, unlinkOk: bool)
    requires FileOf(s, key).Some? && FileOf(s, key).value.Record?
    ensures var rec := FileOf(s, key).value;
      var age := nowMs / 1000 - rec.createdAt.GetOr(0);
      var ttl := if rec.ttl.None? || rec.ttl == Some(0) then s.defaultTtl else rec.ttl.value;
      var r := GetCachedJson(s, key, nowMs, unlinkOk);
      && (age <= ttl ==> r == ReadResult(s, rec.value))
      && (age > ttl ==> r.value == JNull && (unlinkOk ==> FileOf(r.store, key).None?))
  {
  }

  /** Round trip: a value written with TTL `ttlSeconds` (0 or missing means the default)
      is read back by any read whose clock is at most that many seconds later, and
      reads as `null`, with its file removed when the unlink succeeds, once more seconds
      have passed. */
  lemma RoundTrip(s: Store, key: string, value: Json, ttlSeconds: Option<int>, setMs: nat, getMs: nat,
                  mkdirOk: bool, writeOk: bool, unlinkOk: bool)
    requires (s.dirExists || mkdirOk) && writeOk
    ensures var w := SetCachedJson(s, key, value, ttlSeconds, setMs, mkdirOk, writeOk);
      var ttl := if ttlSeconds.None? || ttlSeconds == Some(0) then s.defaultTtl else ttlSeconds.value;
      var r := GetCachedJson(w.store, key, getMs, unlinkOk);
      && !w.threw
      && (getMs / 1000 - setMs / 1000 <= ttl ==> r.value == value && r.store == w.store)
      && (getMs / 1000 - setMs / 1000 > ttl ==> r.value == JNull && (unlinkOk ==> FileOf(r.store, key).None?))
  {
  }

  /** Reading or writing one key leaves every other key's file as it was. */
  lemma OtherKeysUntouched(s: Store, key: string, other: string, value: Json, ttlSeconds: Option<int>,
                           nowMs: nat, mkdirOk: bool, writeOk: bool, unlinkOk: bool)
    requires other != key
    ensures FileOf(GetCachedJson(s, key, nowMs, unlinkOk).store, other) == FileOf(s, other)
    ensures FileOf(SetCachedJson(s, key, value, ttlSeconds, nowMs, mkdirOk, writeOk).store, other) == FileOf(s, other)
  {
    FileNameInjective(key, other);
  }

  /** A file whose JSON is not an object (a number, string, boolean or array) has no
      `createdAt`, so it counts as written at time 0: once the clock has passed the store
      default TTL it reads as `null` and is unlinked when the unlink succeeds. */
  lemma NonObjectFileIsStale(s: Store, key: string, nowMs: nat, unlinkOk: bool)
    requires FileOf(s, key) == Some(Record(None, None, JNull)) && nowMs / 1000 > s.defaultTtl
    ensures var r := GetCachedJson(s, key, nowMs, unlinkOk);
      r.value == JNull && (unlinkOk ==> FileOf(r.store, key).None?)
  {
  }

  /** After `clearFileCache` every key reads as `null`. */
  lemma ClearedReadsNull(s: Store, key: string, nowMs: nat, unlinkOk: bool)
    ensures GetCachedJson(ClearFileCache(s), key, nowMs, unlinkOk).value == JNull
  {
  }
}
