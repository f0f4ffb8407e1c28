/** The `POST /resume/generate` get-or-compute chain as one state transition over the two
    cache tiers: validate the prompt, build the full prompt and its cache key, try the
    file cache, then the memory cache, then the model, salvage the output, and persist
    it. Everything the handler reaches outside itself is an argument: the clock, the
    hash, `JSON.parse`, the model's answer and the outcome of every file-system step. */
module Generate {
  import opened Outcomes
  import opened Text
  import JsonValue
  import LlmCache
  import LlmFileCache
  import opened OutputParse
  import opened Profile
  import opened Prompts

  /** The request: the body's `prompt`, `type` and `coverLetterData` (`None` when missing,
      `null` or otherwise falsy) and the `x-force-llm` header. */
  datatype Request = Request(prompt: Option<string>, kind: Option<string>, coverData: Option<CoverData>,
                             forceHeader: Option<string>)

  /** The environment variables the chain reads. */
  datatype Env = Env(geminiModel: Option<string>, googleModel: Option<string>, forceLlm: Option<string>)

  /** Everything outside the handler for one request: the clock in milliseconds, SHA-256
      as hex, `JSON.parse`, the model's answer (its text, or the message it failed with)
      and whether each file-system step succeeds. */
  datatype World = World(nowMs: nat, hash: string -> string, parse: string -> Option<JsonValue.Json>,
                         llm: Result<string, string>,
                         unlinkOk: bool, mkdirOk: bool, writeOk: bool, memWriteOk: bool)

  /** Both cache tiers, and the memory cache's snapshot file. */
  datatype Caches = Caches(files: LlmFileCache.Store, mem: LlmCache.Cache, memDisk: Option<LlmCache.Order>)

  /** A call to the model: full prompt, model name and temperature in tenths. */
  datatype LlmCall = LlmCall(prompt: string, model: Option<string>, temperatureTenths: int)

  /** What the handler answers: 400 with a JSON error, 500 with a message, or 200 with the
      PDF rendered from `result` (the rendering is not modelled). */
  datatype Reply =
    | BadRequest(error: string)
    | ServerError(message: string)
    | Generated(kind: Kind, result: JsonValue.Json)

  /** The caches after the request, the reply, and the model call made, if any. */
  datatype Outcome = Outcome(caches: Caches, reply: Reply, call: Option<LlmCall>)

  const PromptRequired: string := "prompt required"

  /** The caches a request can meet: memory keys are distinct and a missing cache directory
      holds no files. */
  predicate Consistent(c: Caches) {
    LlmCache.DistinctKeys(c.mem.entries) && LlmFileCache.Valid(c.files)
  }

  /** `!prompt || !prompt.trim()`. */
  predicate Blank(prompt: Option<string>) {
    prompt.None? || !Truthy(Trim(prompt.value))
  }

  /** A prompt is rejected exactly when it is missing or whitespace only. */
  lemma BlankMeansAllSpace(prompt: Option<string>)
    ensures Blank(prompt) <==> prompt.None? || AllSpace(prompt.value)
  {
    if prompt.Some? {
      TrimEmptyIff(prompt.value);
    }
  }

  /** Only the exact type `cover` selects the cover letter; anything else is a CV. */
  function KindOf(req: Request): Kind {
    if req.kind == Some("cover") then Cover else Cv
  }

  /** `GEMINI_MODEL || GOOGLE_GENAI_MODEL`. */
  function Model(env: Env): (r: Option<string>)
    ensures r.Some? && Truthy(r.value) <==>
      (env.geminiModel.Some? && Truthy(env.geminiModel.value)) ||
      (env.googleModel.Some? && Truthy(env.googleModel.value))
    ensures env.geminiModel.Some? && Truthy(env.geminiModel.value) ==> r == env.geminiModel
    ensures !(env.geminiModel.Some? && Truthy(env.geminiModel.value)) ==> r == env.googleModel
  {
    if env.geminiModel.Some? && Truthy(env.geminiModel.value) then env.geminiModel else env.googleModel
  }

  /** `model || ''`, as interpolated into the key. */
  function ModelText(model: Option<string>): (r: string)
    ensures model.None? ==> r == ""
    ensures model.Some? ==> r == model.value
  {
    model.GetOr("")
  }

  /** The header `x-force-llm: 1` or the variable `FORCE_LLM=1`. */
  predicate Force(req: Request, env: Env) {
    req.forceHeader == Some("1") || env.forceLlm == Some("1")
  }

  /** 0.3 for a cover letter, 0.1 for a CV. */
  function TemperatureTenths(kind: Kind): (r: int)
    ensures kind == Cover <==> r == 3
    ensures kind == Cv ==> r == 1
  {
    if kind == Cover then 3 else 1
  }

  function FullPrompt(kind: Kind, m: Master, prompt: string, cd: Option<CoverData>): string {
    if kind == Cover then BuildCoverPrompt(m, prompt, cd) else BuildPrompt(m, prompt)
  }

  /** The text that is hashed into the cache key. */
  function KeyInput(model: Option<string>, fullPrompt: string): string {
    ModelText(model) + "|" + fullPrompt
  }

  function CacheKey(hash: string -> string, model: Option<string>, fullPrompt: string): string {
    hash(KeyInput(model, fullPrompt))
  }

  /** The key input determines the model and the prompt when the model name has no `|`,
      and an absent model hashes as the empty name. */
  lemma KeyInputInjective(m1: Option<string>, f1: string, m2: Option<string>, f2: string)
    requires '|' !in ModelText(m1) && '|' !in ModelText(m2)
    ensures KeyInput(m1, f1) == KeyInput(m2, f2) <==> ModelText(m1) == ModelText(m2) && f1 == f2
    ensures KeyInput(None, f1) == KeyInput(Some(""), f1)
  {
    var (a, b) := (ModelText(m1), ModelText(m2));
    if KeyInput(m1, f1) == KeyInput(m2, f2) {
      var s := KeyInput(m1, f1);
      BarAfter(a, f1);
      BarAfter(b, f2);
      assert a == s[..|a|] && b == s[..|b|];
      assert f1 == s[|a| + 1..];
    }
  }

  /** In a key input, the first bar is the one after the model name. */
  lemma BarAfter(name: string, rest: string)
    requires '|' !in name
    ensures FirstIndex(name + "|" + rest, '|') == Some(|name|)
  {
    var s := name + "|" + rest;
    forall k | 0 <= k < |name| ensures s[k] != '|' {
      assert s[k] == name[k];
    }
    FirstIndexAt(s, '|', |name|);
  }

  /** `String(err?.message || err)` for an `Error` thrown with `message`. */
  function ErrorText(message: string): (r: string)
    ensures r != ""
    ensures message != "" ==> r == message
  {
    if message == "" then "Error" else message
  }

  /** The file tier: the stored value and the store after the read, or nothing read when
      forced. */
  function FileTier(files: LlmFileCache.Store, key: string, force: bool, w: World): (r: LlmFileCache.ReadResult)
    ensures force ==> r == LlmFileCache.ReadResult(files, JsonValue.JNull)
  {
    if force then LlmFileCache.ReadResult(files, JsonValue.JNull)
    else LlmFileCache.GetCachedJson(files, key, w.nowMs, w.unlinkOk)
  }

  /** The memory tier: the raw text and the cache after the lookup, or nothing when forced. */
  function MemTier(mem: LlmCache.Cache, key: string, force: bool, w: World): (r: LlmCache.Lookup)
    ensures force ==> r == LlmCache.Lookup(mem, None)
    ensures LlmCache.DistinctKeys(mem.entries) ==> LlmCache.DistinctKeys(r.cache.entries)
  {
    if force then LlmCache.Lookup(mem, None)
    else LlmCache.Get(mem, key, w.nowMs)
  }

  /** A truthy memory hit is used as is; otherwise the model is called, and its output is
      stored in memory (and in the snapshot when one is kept). */
  function RawOutput(c: Caches, key: string, looked: LlmCache.Lookup, call: LlmCall, w: World)
    : (r: (Caches, Result<string, string>, Option<LlmCall>))
    requires LlmCache.DistinctKeys(looked.cache.entries)
    ensures Consistent(c.(mem := looked.cache)) ==> Consistent(r.0)
    ensures r.0.files == c.files
    ensures r.2.Some? <==> !(looked.value.Some? && Truthy(looked.value.value))
    ensures r.2.Some? ==> r.2 == Some(call) && r.1 == w.llm
    ensures r.2.None? ==> r.0 == c.(mem := looked.cache) && r.1 == Success(looked.value.value)
    ensures r.2.Some? && w.llm.Failure? ==> r.0 == c.(mem := looked.cache)
    ensures r.2.Some? && w.llm.Success? ==>
      && r.0.mem == LlmCache.Set(looked.cache, key, w.llm.value, w.nowMs)
      && r.0.memDisk == LlmCache.DiskAfterSet(r.0.mem, c.memDisk, w.memWriteOk)
  {
    var c1 := c.(mem := looked.cache);
    if looked.value.Some? && Truthy(looked.value.value) then
      (c1, Success(looked.value.value), None)
    else
      match w.llm
      case Failure(e) => (c1, Failure(e), Some(call))
      case Success(out) =>
        var mem := LlmCache.Set(c1.mem, key, out, w.nowMs);
        (c1.(mem := mem, memDisk := LlmCache.DiskAfterSet(mem, c1.memDisk, w.memWriteOk)), Success(out), Some(call))
  }

  /** Salvage the raw output into the result and persist it in the file cache; a failed
      file write is swallowed. */
  function Finish(kind: Kind, c: Caches, key: string, raw: Result<string, string>, call: Option<LlmCall>, w: World)
    : (r: Outcome)
    ensures r.call == call && r.caches.mem == c.mem && r.caches.memDisk == c.memDisk
    ensures LlmFileCache.Valid(c.files) ==> LlmFileCache.Valid(r.caches.files)
    ensures raw.Failure? ==> r == Outcome(c, ServerError(ErrorText(raw.error)), call)
    ensures raw.Success? && ParseOutput(kind, raw.value, w.parse).Failure? ==>
      r == Outcome(c, ServerError(ParseOutput(kind, raw.value, w.parse).error), call)
    ensures raw.Success? && ParseOutput(kind, raw.value, w.parse).Success? ==>
      var j := ParseOutput(kind, raw.value, w.parse).value;
      r.reply == Generated(kind, j) &&
      r.caches.files == LlmFileCache.SetCachedJson(c.files, key, j, None, w.nowMs, w.mkdirOk, w.writeOk).store
  {
    match raw
    case Failure(e) => Outcome(c, ServerError(ErrorText(e)), call)
    case Success(out) =>
      match ParseOutput(kind, out, w.parse)
      case Failure(e) => Outcome(c, ServerError(e), call)
      case Success(j) =>
        var written := LlmFileCache.SetCachedJson(c.files, key, j, None, w.nowMs, w.mkdirOk, w.writeOk);
        Outcome(c.(files := written.store), Generated(kind, j), call)
  }

  /** The get-or-compute chain for a validated request, given its kind, the model call it
      would make and its cache key: the file tier, then the memory tier, then the model,
      then salvage and persist. */
  function Serve(kind: Kind, call: LlmCall, key: string, force: bool, c: Caches, w: World): (r: Outcome)
    requires Consistent(c)
    ensures Consistent(r.caches)
    ensures !r.reply.BadRequest?
    ensures r.caches.mem.max == c.mem.max && r.caches.mem.ttlSeconds == c.mem.ttlSeconds
    ensures r.caches.files.defaultTtl == c.files.defaultTtl
    ensures r.call.Some? ==> r.call == Some(call)
    ensures force ==> r.call.Some?
    ensures r.reply.Generated? ==> r.reply.kind == kind
  {
    var read := FileTier(c.files, key, force, w);
    var c1 := c.(files := read.store);
    if JsonValue.Truthy(read.value) then
      Outcome(c1, Generated(kind, read.value), None)
    else
      var looked := MemTier(c1.mem, key, force, w);
      var (c2, raw, made) := RawOutput(c1, key, looked, call, w);
      Finish(kind, c2, key, raw, made, w)
  }

  /** The model call a validated request makes when it reaches the model. */
  function CallOf(req: Request, env: Env, m: Master): LlmCall
    requires req.prompt.Some?
  {
    var kind := KindOf(req);
    LlmCall(FullPrompt(kind, m, req.prompt.value, req.coverData), Model(env), TemperatureTenths(kind))
  }

  /** The key of a request: the model or `''`, a bar, and the full prompt, hashed. */
  function KeyOf(req: Request, env: Env, m: Master, w: World): string
    requires req.prompt.Some?
  {
    CacheKey(w.hash, Model(env), FullPrompt(KindOf(req), m, req.prompt.value, req.coverData))
  }

  /** The handler: a missing or blank prompt is a 400 and touches nothing; any other
      request runs the chain under its own kind, call and key. */
  function Handle(req: Request, env: Env, m: Master, c: Caches, w: World): (r: Outcome)
    requires Consistent(c)
    ensures Consistent(r.caches)
    ensures r.reply.BadRequest? <==> Blank(req.prompt)
    ensures Blank(req.prompt) ==> r == Outcome(c, BadRequest(PromptRequired), None)
    ensures r.caches.mem.max == c.mem.max && r.caches.mem.ttlSeconds == c.mem.ttlSeconds
    ensures r.caches.files.defaultTtl == c.files.defaultTtl
    ensures r.call.Some? ==> (!Blank(req.prompt) &&
      r.call.value == LlmCall(FullPrompt(KindOf(req), m, req.prompt.value, req.coverData), Model(env),
                              TemperatureTenths(KindOf(req))))
    ensures !Blank(req.prompt) && Force(req, env) ==> r.call.Some?
    ensures r.reply.Generated? ==> r.reply.kind == KindOf(req)
  {
    if Blank(req.prompt) then Outcome(c, BadRequest(PromptRequired), None)
    else Serve(KindOf(req), CallOf(req, env, m), KeyOf(req, env, m, w), Force(req, env), c, w)
  }

  // ---------------------------------------------------------------------------------
  // Properties of the chain
  // ---------------------------------------------------------------------------------

  /** A forced request reads neither cache: the file store is untouched until the final
      write, the memory cache gets no lookup, and the model is always called. */
  lemma ForceBypassesCaches(kind: Kind, call: LlmCall, key: string, c: Caches, w: World)
    requires Consistent(c)
    ensures var r := Serve(kind, call, key, true, c, w);
      && r.call == Some(call)
      && (w.llm.Success? ==> r.caches.mem == LlmCache.Set(c.mem, key, w.llm.value, w.nowMs))
      && (w.llm.Failure? ==> r.caches == c && r.reply == ServerError(ErrorText(w.llm.error)))
  {
  }

  /** A truthy value in the file cache is the answer: no memory lookup, no model call, and
      no cache is written. */
  lemma FileHitShortCircuits(kind: Kind, call: LlmCall, key: string, c: Caches, w: World)
    requires Consistent(c)
    requires JsonValue.Truthy(LlmFileCache.GetCachedJson(c.files, key, w.nowMs, w.unlinkOk).value)
    ensures var read := LlmFileCache.GetCachedJson(c.files, key, w.nowMs, w.unlinkOk);
      Serve(kind, call, key, false, c, w) == Outcome(c, Generated(kind, read.value), None)
  {
  }

  /** On a file miss, a truthy memory hit is used without calling the model; the memory
      cache keeps the result of the lookup and the salvaged result is written to the file
      cache. */
  lemma MemoryHitSkipsModel(kind: Kind, call: LlmCall, key: string, c: Caches, w: World)
    requires Consistent(c)
    requires var read := LlmFileCache.GetCachedJson(c.files, key, w.nowMs, w.unlinkOk);
      var looked := LlmCache.Get(c.mem, key, w.nowMs);
      !JsonValue.Truthy(read.value) && looked.value.Some? && Truthy(looked.value.value)
    ensures var read := LlmFileCache.GetCachedJson(c.files, key, w.nowMs, w.unlinkOk);
      var looked := LlmCache.Get(c.mem, key, w.nowMs);
      var r := Serve(kind, call, key, false, c, w);
      var parsed := ParseOutput(kind, looked.value.value, w.parse);
      && r.call.None?
      && r.caches.mem == looked.cache && r.caches.memDisk == c.memDisk
      && (parsed.Success? ==> (r.reply == Generated(kind, parsed.value) &&
            r.caches.files == LlmFileCache.SetCachedJson(read.store, key, parsed.value, None, w.nowMs,
                                                          w.mkdirOk, w.writeOk).store))
      && (parsed.Failure? ==> r.reply == ServerError(parsed.error))
  {
  }

  /** A model failure is a 500 carrying the failure's message; nothing is cached: the
      caches are as the two reads left them, and the snapshot is untouched. */
  lemma ModelErrorIsServerError(kind: Kind, call: LlmCall, key: string, force: bool, c: Caches, w: World)
    requires Consistent(c) && w.llm.Failure?
    ensures var r := Serve(kind, call, key, force, c, w);
      r.call.Some? ==>
        && r.reply == ServerError(ErrorText(w.llm.error))
        && r.caches == c.(files := FileTier(c.files, key, force, w).store, mem := MemTier(c.mem, key, force, w).cache)
        && r.caches.memDisk == c.memDisk
  {
  }

  /** Cache writes never change the answer: a request that differs only in whether the
      file-cache and snapshot writes succeed gets the same reply and makes the same call. */
  lemma WriteFailuresSwallowed(kind: Kind, call: LlmCall, key: string, force: bool, c: Caches, w: World,
                               mkdirOk: bool, writeOk: bool, memWriteOk: bool)
    requires Consistent(c)
    ensures var w2 := w.(mkdirOk := mkdirOk, writeOk := writeOk, memWriteOk := memWriteOk);
      var (r1, r2) := (Serve(kind, call, key, force, c, w), Serve(kind, call, key, force, c, w2));
      r1.reply == r2.reply && r1.call == r2.call
  {
  }

  /** A CV whose raw output is not JSON but holds a braced span is answered with what the
      span parses to, or with the invalid-JSON message; without a span, with the
      non-JSON message. */
  lemma SalvageMessages(call: LlmCall, key: string, force: bool, c: Caches, w: World)
    requires Consistent(c) && w.llm.Success? && w.parse(w.llm.value).None?
    ensures var r := Serve(Cv, call, key, force, c, w);
      r.call.Some? ==>
        && (GreedySpan(w.llm.value).None? ==> r.reply == ServerError(NonJsonError))
        && (GreedySpan(w.llm.value).Some? && w.parse(GreedySpan(w.llm.value).value).None? ==>
              r.reply == ServerError(InvalidJsonError))
        && (GreedySpan(w.llm.value).Some? && w.parse(GreedySpan(w.llm.value).value).Some? ==>
              r.reply == Generated(Cv, w.parse(GreedySpan(w.llm.value).value).value))
  {
  }

  /** Memoisation through the file cache: once a call's truthy result was written, the
      same key, within the file TTL of the first request, is answered with the same result
      without a call and without changing any cache. */
  lemma RepeatAnsweredFromFile(kind: Kind, call: LlmCall, key: string, force: bool, c: Caches,
                               w1: World, w2: World)
    requires Consistent(c) && w2.parse == w1.parse
    requires w1.writeOk && (c.files.dirExists || w1.mkdirOk)
    requires w2.nowMs / 1000 - w1.nowMs / 1000 <= c.files.defaultTtl
    requires var r1 := Serve(kind, call, key, force, c, w1);
      r1.call.Some? && r1.reply.Generated? && JsonValue.Truthy(r1.reply.result)
    ensures var r1 := Serve(kind, call, key, force, c, w1);
      Serve(kind, call, key, false, r1.caches, w2) == Outcome(r1.caches, r1.reply, None)
  {
    var r1 := Serve(kind, call, key, force, c, w1);
    var read := FileTier(c.files, key, force, w1);
    var c1 := c.(files := read.store);
    var looked := MemTier(c1.mem, key, force, w1);
    var (c2, raw, made) := RawOutput(c1, key, looked, call, w1);
    assert r1 == Finish(kind, c2, key, raw, made, w1);
    LlmFileCache.RoundTrip(c2.files, key, r1.reply.result, None, w1.nowMs, w2.nowMs, w1.mkdirOk, w1.writeOk,
                           w2.unlinkOk);
  }

  /** Memoisation through the memory cache: when the model's truthy output is kept in a
      memory cache with room for it, the same key, while the entry lives and while the
      file cache still misses, is answered from memory without a call. */
  lemma RepeatAnsweredFromMemory(kind: Kind, call: LlmCall, key: string, force: bool, c: Caches,
                                 w1: World, w2: World)
    requires Consistent(c) && LlmCache.Valid(c.mem) && c.mem.max >= 1
    requires w2.nowMs <= w1.nowMs + c.mem.ttlSeconds * 1000
    requires w1.llm.Success? && Truthy(w1.llm.value)
    requires var r1 := Serve(kind, call, key, force, c, w1);
      var read := LlmFileCache.GetCachedJson(r1.caches.files, key, w2.nowMs, w2.unlinkOk);
      r1.call.Some? && !JsonValue.Truthy(read.value)
    ensures var r1 := Serve(kind, call, key, force, c, w1);
      Serve(kind, call, key, false, r1.caches, w2).call.None?
  {
    var r1 := Serve(kind, call, key, force, c, w1);
    var read := FileTier(c.files, key, force, w1);
    var c1 := c.(files := read.store);
    var looked := MemTier(c1.mem, key, force, w1);
    LlmCache.SizeBounded(c1.mem, key, "", w1.nowMs);
    var mem := LlmCache.Set(looked.cache, key, w1.llm.value, w1.nowMs);
    assert r1.caches.mem == mem;
    LlmCache.SetThenGet(looked.cache, key, w1.llm.value, w1.nowMs, w2.nowMs);
  }

  /** The same request under the same hash reaches the chain with the same key, so both
      memoisation results apply to repeated requests. */
  lemma RepeatSharesKey(req: Request, env: Env, m: Master, c: Caches, w1: World, w2: World)
    requires Consistent(c) && !Blank(req.prompt) && w2.hash == w1.hash
    ensures KeyOf(req, env, m, w2) == KeyOf(req, env, m, w1)
    ensures Handle(req, env, m, c, w2) == Serve(KindOf(req), CallOf(req, env, m), KeyOf(req, env, m, w1),
                                                 Force(req, env), c, w2)
  {
  }

  /** A repeated request, not forced, that the first answer stored in the file cache is
      answered from the file, within the TTL, with no model call and no change. */
  lemma RepeatRequestAnsweredFromFile(req: Request, env: Env, m: Master, c: Caches, w1: World, w2: World)
    requires Consistent(c) && !Blank(req.prompt) && !Force(req, env)
    requires w2.hash == w1.hash && w2.parse == w1.parse
    requires w1.writeOk && (c.files.dirExists || w1.mkdirOk)
    requires w2.nowMs / 1000 - w1.nowMs / 1000 <= c.files.defaultTtl
    requires var r1 := Handle(req, env, m, c, w1);
      r1.call.Some? && r1.reply.Generated? && JsonValue.Truthy(r1.reply.result)
    ensures var r1 := Handle(req, env, m, c, w1);
      Handle(req, env, m, r1.caches, w2) == Outcome(r1.caches, r1.reply, None)
  {
    var r1 := Handle(req, env, m, c, w1);
    RepeatSharesKey(req, env, m, r1.caches, w1, w2);
    RepeatAnsweredFromFile(KindOf(req), CallOf(req, env, m), KeyOf(req, env, m, w1), false, c, w1, w2);
  }

  /** A repeated request, not forced, whose first answer came from a model call is
      answered from the memory cache, while the entry lives and the file cache misses,
      with no model call. */
  lemma RepeatRequestAnsweredFromMemory(req: Request, env: Env, m: Master, c: Caches, w1: World, w2: World)
    requires Consistent(c) && LlmCache.Valid(c.mem) && c.mem.max >= 1
    requires !Blank(req.prompt) && !Force(req, env) && w2.hash == w1.hash
    requires w2.nowMs <= w1.nowMs + c.mem.ttlSeconds * 1000
    requires w1.llm.Success? && Truthy(w1.llm.value)
    requires var r1 := Handle(req, env, m, c, w1);
      var read := LlmFileCache.GetCachedJson(r1.caches.files, KeyOf(req, env, m, w1), w2.nowMs, w2.unlinkOk);
      r1.call.Some? && !JsonValue.Truthy(read.value)
    ensures Handle(req, env, m, Handle(req, env, m, c, w1).caches, w2).call.None?
  {
    var r1 := Handle(req, env, m, c, w1);
    RepeatSharesKey(req, env, m, r1.caches, w1, w2);
    RepeatAnsweredFromMemory(KindOf(req), CallOf(req, env, m), KeyOf(req, env, m, w1), false, c, w1, w2);
  }
}
