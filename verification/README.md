# fountain résumé generator — a Dafny model of its core

This project models the server-side core of the fountain portfolio site. It covers three parts.

- The résumé generator route. `POST /resume/generate` turns a client request into a CV
  or a cover letter. It first looks in a file cache of parsed results, then in an
  in-memory LRU cache of raw model output (with an optional snapshot file), and only then
  calls the language model. A CV's output is salvaged from a greedy `{…}` span when it is
  not plain JSON. The chain is modelled together with both caches, the cache key, the
  prompt builders and the cover-letter header.
- The pure text helpers of the PDF renderer: bullet parsing, the split of a cover letter
  into paragraphs, and the header's subtitle and contact line.
- The profile data logic: category resolution of the skills, `getSkills`,
  `groupByCategory`, the contract type and the experience list, the home carousel and the
  social links.

Everything is a pure function over immutable data. The following are parameters:

- the clock (`now` in milliseconds);
- SHA-256 (`hash`) and `JSON.parse` (`parse`);
- the model's answer (a `Result`);
- the success of each file-system step (`unlinkOk`, `mkdirOk`, `writeOk`, `memWriteOk`);
- the environment variables and the master profile with its two serialisations.

Modules, one per source file, plus the shared ones:

| module | models |
|---|---|
| `Outcomes`, `Text`, `JsonValue`, `Profile` | `Option`/`Result`, JavaScript string helpers (`trim`, `toLowerCase`, `includes`, `split`, `join`), JSON values and their truthiness, the master profile |
| `LlmCache` | src/lib/server/llm-cache.ts |
| `LlmFileCache` | src/lib/server/llm-file-cache.ts |
| `Prompts`, `OutputParse`, `Generate` | src/routes/resume/generate/+server.ts |
| `CvText` | src/lib/server/cv-to-pdf.ts |
| `Skills` | src/lib/data/skills.ts |
| `Experience` | src/lib/data/experience.ts |
| `Home` | src/lib/data/home.ts |

## Model

| member | source | states |
|---|---|---|
| Outcomes.NumberOr | src/lib/server/llm-cache.ts:78-79 | `Number(env) \|\| fallback`: the fallback applies exactly when the variable is unset, NaN, zero or equal to the fallback; otherwise the value is used |
| Text.Trim | src/lib/data/skills.ts:36 | `trim` returns the slice of its input between a whitespace prefix and a whitespace suffix, and the slice neither starts nor ends with whitespace |
| Text.TrimEmptyIff | src/routes/resume/generate/+server.ts:281 | a string trims to `''` exactly when it is whitespace only |
| Text.Lower | src/lib/data/skills.ts:36 | `toLowerCase` keeps the length and maps each ASCII capital to its lower-case letter and every other character to itself |
| Text.JoinSplit | src/lib/server/cv-to-pdf.ts:10 | joining the pieces of `split(c)` with `c` gives back the original string |
| Text.SplitJoin | src/lib/server/cv-to-pdf.ts:10 | splitting a join of pieces free of `c` gives back the pieces |
| LlmCache.Delete | src/lib/server/llm-cache.ts:47 | `map.delete(k)` removes exactly the pairs under `k`, keeps every other pair and keeps keys distinct |
| LlmCache.DeleteAt | src/lib/server/llm-cache.ts:47 | with distinct keys, deleting the key at position `i` removes exactly that position and keeps the order of the rest |
| LlmCache.Put | src/lib/server/llm-cache.ts:57 | `map.set(k, e)` stores `e` under `k`, keeps an existing key's position and size, and appends a new key at the back |
| LlmCache.PutExisting | src/lib/server/llm-cache.ts:57 | overwriting a present key replaces its pair in place |
| LlmCache.Get | src/lib/server/llm-cache.ts:43-53 | `get` hits exactly when the key is stored and `now <= expire`, returns the stored value, never grows the map and keeps keys distinct |
| LlmCache.GetAbsent | src/lib/server/llm-cache.ts:44-45 | a `get` of an absent key returns `null` and leaves the cache unchanged |
| LlmCache.GetExpired | src/lib/server/llm-cache.ts:46-49 | a `get` strictly after the expiry removes exactly that entry and returns `null` |
| LlmCache.GetHit | src/lib/server/llm-cache.ts:50-52 | a hit returns the value and moves the entry, expiry unchanged, to the most-recent end, keeping the relative order of the others |
| LlmCache.Set | src/lib/server/llm-cache.ts:55-61 | `set` keeps the options, keeps keys distinct and preserves the capacity bound |
| LlmCache.SetExisting | src/lib/server/llm-cache.ts:56-57 | `set` of a present key overwrites it in place with expiry `now + ttlSeconds*1000`; size and other entries are unchanged |
| LlmCache.SetNew | src/lib/server/llm-cache.ts:56-61 | `set` of a new key appends it and, when the size then exceeds `max`, evicts exactly the front entry, expired or not |
| LlmCache.SizeBounded | src/lib/server/llm-cache.ts:55-67 | `set`, `get` and `clear` keep `size <= max`, and `clear` empties the map |
| LlmCache.SetThenGet | src/lib/server/llm-cache.ts:43-61 | with `max >= 1`, a `get` after a `set` of the same key returns the value until the stamped expiry and misses after it |
| LlmCache.SetWithZeroMax | src/lib/server/llm-cache.ts:58-61 | with `max = 0`, `set` evicts the entry it has just written |
| LlmCache.Clear | src/lib/server/llm-cache.ts:65-66 | `clear` leaves no key |
| LlmCache.DiskAfterSet | src/lib/server/llm-cache.ts:32-41 | the snapshot file is rewritten with the whole map only when a path is set and the write succeeds; otherwise it is left as it was |
| LlmCache.DiskAfterClear | src/lib/server/llm-cache.ts:67-73 | the snapshot is unlinked only when a path is set and the unlink succeeds; a failure is ignored |
| LlmCache.Live | src/lib/server/llm-cache.ts:26 | the snapshot filter keeps exactly the pairs with `expire > now` |
| LlmCache.LoadInto | src/lib/server/llm-cache.ts:26 | the load loop keeps keys distinct and only adds live pairs of the file |
| LlmCache.LoadIntoAppends | src/lib/server/llm-cache.ts:26 | loading fresh, distinct keys appends the live pairs in file order |
| LlmCache.Loaded | src/lib/server/llm-cache.ts:20-30 | a missing or unparsable snapshot gives an empty map; otherwise the map holds only snapshot pairs that are still live, with distinct keys, and every live snapshot key is present |
| LlmCache.SnapshotRoundTrip | src/lib/server/llm-cache.ts:20-41 | reloading a snapshot at a later time recovers exactly the entries still live then, in map order |
| LlmCache.New | src/lib/server/llm-cache.ts:12-18 | the constructor keeps the given path, takes the `??` defaults `max = 200` and `ttlSeconds = 21600`, starts empty without a path and with the loaded snapshot with one |
| LlmCache.DefaultOptions | src/lib/server/llm-cache.ts:77-81 | `defaultLLMCache` uses a non-zero variable as given and the defaults for an unset, NaN or zero one; a path is configured exactly from a non-empty variable, and it is that variable |
| LlmCache.NewFromSnapshot | src/lib/server/llm-cache.ts:12-41 | a cache built on the snapshot a persisting cache wrote starts with exactly that cache's live entries, in order, and keeps its path |
| LlmFileCache.DefaultTtl | src/lib/server/llm-file-cache.ts:5 | `DEFAULT_TTL` is 2592000 seconds (30 days) unless the variable holds a non-zero number |
| LlmFileCache.FileName | src/lib/server/llm-file-cache.ts:15-17 | the file of a key is the key followed by `.json`, the key read back from its front |
| LlmFileCache.FileNameInjective | src/lib/server/llm-file-cache.ts:15-17 | different keys map to different file names (`path.join` normalisation is not modelled; see Left out) |
| LlmFileCache.GetCachedJson | src/lib/server/llm-file-cache.ts:19-35 | a missing or unreadable file reads as `null` and changes nothing; a non-null value is the stored value of a record that is not stale, and the store is then unchanged |
| LlmFileCache.SetCachedJson | src/lib/server/llm-file-cache.ts:37-42 | the write throws exactly when the directory is missing and cannot be created, or the write fails; on success the key holds `{createdAt: now in seconds, ttl: ttlSeconds \|\| DEFAULT_TTL, value}` |
| LlmFileCache.ClearFileCache | src/lib/server/llm-file-cache.ts:44-51 | after clearing, no key has a file |
| LlmFileCache.ExpiryRule | src/lib/server/llm-file-cache.ts:24-31 | a record is a hit exactly while `floor(now/1000) - createdAt <= ttl`; a stale one reads `null` and is unlinked when the unlink succeeds |
| LlmFileCache.RoundTrip | src/lib/server/llm-file-cache.ts:19-42 | a written value is read back up to `ttl` seconds later and is `null` after that |
| LlmFileCache.OtherKeysUntouched | src/lib/server/llm-file-cache.ts:15-42 | reading or writing one key leaves every other key's file unchanged |
| LlmFileCache.NonObjectFileIsStale | src/lib/server/llm-file-cache.ts:24-31 | a file whose JSON is a number, string, boolean or array counts as written at time 0 and, once the clock passes the default TTL, reads as `null` and is unlinked |
| LlmFileCache.ClearedReadsNull | src/lib/server/llm-file-cache.ts:44-51 | after clearing, every key reads `null` |
| OutputParse.GreedySpan | src/routes/resume/generate/+server.ts:353 | a match of `/\{[\s\S]*\}/` starts with `{` and ends with `}` |
| OutputParse.GreedySpanIsLeftmostLongest | src/routes/resume/generate/+server.ts:353 | the span exists exactly when some `{` precedes some `}`; it runs from the first `{` to the last `}` |
| OutputParse.ParseOutput | src/routes/resume/generate/+server.ts:344-364 | a cover letter is kept as text; a CV is parsed strictly, else its greedy span is parsed; no span gives the non-JSON message and an unparsable span the invalid-JSON message |
| OutputParse.ParseErrors | src/routes/resume/generate/+server.ts:349-363 | only a CV that does not parse fails, with the non-JSON message exactly when there is no span and the invalid-JSON message exactly when there is one |
| OutputParse.SalvageSurrounded | src/routes/resume/generate/+server.ts:350-357 | prose with no `{`, then a braced body, then prose with no `}` salvages to whatever the body parses to |
| Prompts.HeaderIsLines | src/routes/resume/generate/+server.ts:194-211 | the assembled letter header is its lines, each ending in a newline: location when present, the date placeholder, then the recipient block |
| Prompts.HeaderLinesFrom | src/routes/resume/generate/+server.ts:196-211 | every header line is the location, the date placeholder, a blank line or a recipient field |
| Prompts.HeaderReadsBack | src/routes/resume/generate/+server.ts:194-211 | split on newlines, the header gives back its lines, and the recipient block with its blank lines appears exactly when some recipient field is truthy |
| Prompts.LanguageChoice | src/routes/resume/generate/+server.ts:192-223 | only a `language` of exactly `portuguese` selects Portuguese; a missing one defaults to English; the greeting and closing follow the language |
| Prompts.CoverOpensWithInstruction | src/routes/resume/generate/+server.ts:225 | the cover prompt starts with the language instruction |
| Prompts.PromptsDistinguishRequests | src/routes/resume/generate/+server.ts:125-188 | for a fixed profile, different client requests give different CV prompts |
| Prompts.CoverPromptsDistinguishRequests | src/routes/resume/generate/+server.ts:225-264 | for a fixed profile and cover data, different client requests give different cover prompts |
| Prompts.LetterHeader | src/routes/resume/generate/+server.ts:193-211 | no contract of its own: `Prompts.HeaderIsLines` states what the assembled header is |
| Prompts.BuildPrompt | src/routes/resume/generate/+server.ts:125-189 | the CV prompt is the template head with the compact profile, the client request verbatim, then the fixed tail |
| Prompts.BuildCoverPrompt | src/routes/resume/generate/+server.ts:191-265 | the cover prompt holds the client request verbatim between the letter body and the fixed closing instructions |
| Generate.BlankMeansAllSpace | src/routes/resume/generate/+server.ts:281 | a prompt is rejected exactly when it is missing or whitespace only |
| Generate.Model | src/routes/resume/generate/+server.ts:293 | `GEMINI_MODEL` is used whenever it is a non-empty string, and otherwise `GOOGLE_GENAI_MODEL` as it is |
| Generate.TemperatureTenths | src/routes/resume/generate/+server.ts:334 | the temperature is 0.3 for a cover letter and 0.1 for a CV, and no other value |
| Generate.KeyInputInjective | src/routes/resume/generate/+server.ts:300-301 | for model names without `\|`, the key input `model\|prompt` determines model text and full prompt, and an absent model keys like `''` |
| Generate.ErrorText | src/routes/resume/generate/+server.ts:402 | `String(err.message \|\| err)` is the message when it is non-empty and never empty |
| Generate.FileTier | src/routes/resume/generate/+server.ts:304-315 | a forced request reads nothing from the file cache |
| Generate.MemTier | src/routes/resume/generate/+server.ts:318-328 | a forced request gets no memory lookup; a lookup keeps memory keys distinct |
| Generate.RawOutput | src/routes/resume/generate/+server.ts:330-342 | the model is called exactly when the memory tier gave no truthy text; after a failed call only the memory lookup has changed the caches; after a successful one the memory map is the lookup's map with the output `set` under the key and the memory snapshot is that map's write; a memory hit leaves the file cache alone |
| Generate.Finish | src/routes/resume/generate/+server.ts:344-371 | a model failure is a 500 with its message and changes nothing; otherwise the parse result is the reply and is written to the file cache; the memory cache is never touched here |
| Generate.Serve | src/routes/resume/generate/+server.ts:303-372 | the chain keeps the caches consistent and their options, never answers 400, calls the model only with its own call, always calls it when forced, and answers with the request's kind |
| Generate.Handle | src/routes/resume/generate/+server.ts:272-402 | a missing or blank prompt is exactly the 400 `prompt required` with nothing touched; any call made uses the full prompt, model and temperature of the request; a forced request always calls the model |
| Generate.ForceBypassesCaches | src/routes/resume/generate/+server.ts:297-342 | a forced request calls the model, stores its output with `set`, and on a model failure answers 500 with nothing cached |
| Generate.FileHitShortCircuits | src/routes/resume/generate/+server.ts:304-318 | a truthy file-cache value is the answer with no memory lookup, no model call and no write |
| Generate.MemoryHitSkipsModel | src/routes/resume/generate/+server.ts:318-371 | on a file miss, a truthy memory hit is used without a model call and its salvaged result is written to the file cache |
| Generate.ModelErrorIsServerError | src/routes/resume/generate/+server.ts:335-402 | a model failure is a 500 with its message, and the caches are exactly those after the two lookups: nothing new is written to either tier or to the memory snapshot |
| Generate.WriteFailuresSwallowed | src/routes/resume/generate/+server.ts:337-371 | whether the cache writes succeed never changes the reply or the call |
| Generate.SalvageMessages | src/routes/resume/generate/+server.ts:349-364 | a non-JSON CV is answered with what its span parses to, or 500 with the matching one of the two messages |
| Generate.RepeatAnsweredFromFile | src/routes/resume/generate/+server.ts:304-371 | once a call's truthy result was written, the same key within the file TTL is answered with the same result without a call and without changing any cache |
| Generate.RepeatAnsweredFromMemory | src/routes/resume/generate/+server.ts:318-342 | a model output kept in memory answers the same key without a call while it lives and the file cache misses |
| Generate.RepeatSharesKey | src/routes/resume/generate/+server.ts:290-301 | the same request under the same hash reaches the chain with the same key |
| Generate.RepeatRequestAnsweredFromFile | src/routes/resume/generate/+server.ts:272-372 | a repeated, unforced request whose first answer came from the model and was stored is answered from the file within the TTL, with no call and no change |
| Generate.RepeatRequestAnsweredFromMemory | src/routes/resume/generate/+server.ts:272-342 | a repeated, unforced request whose first answer came from a successful model call makes no call while the memory entry lives and the file cache misses |
| CvText.StripMarker | src/lib/server/cv-to-pdf.ts:11 | `replace(/^[-•]\s*/, '')` drops a leading marker with the whitespace after it and nothing else |
| CvText.BulletLines | src/lib/server/cv-to-pdf.ts:9-12 | there are never more bullets than lines |
| CvText.BulletsTidy | src/lib/server/cv-to-pdf.ts:11-12 | every bullet is non-empty with no whitespace at either end |
| CvText.BulletLinesAppend | src/lib/server/cv-to-pdf.ts:10-12 | bullets are taken line by line in order, and one line gives its cleaned text or nothing |
| CvText.ParseBulletsOfLines | src/lib/server/cv-to-pdf.ts:7-13 | every text, the empty one included, yields the bullets of its lines |
| CvText.ParseBulletsFirstLine | src/lib/server/cv-to-pdf.ts:7-13 | the bullets of a text are those of its first line followed by those of the rest |
| CvText.ParseBullets | src/lib/server/cv-to-pdf.ts:7-13 | falsy text gives no bullet, and every bullet is non-empty with no whitespace at either end |
| CvText.OnlyFirstMarker | src/lib/server/cv-to-pdf.ts:11 | only one marker in first position is stripped, so `--x` gives `-x` |
| CvText.IndentedMarker | src/lib/server/cv-to-pdf.ts:11 | a marker after indentation is not stripped: `  - x` gives `- x` |
| CvText.MatchEnd | src/lib/server/cv-to-pdf.ts:274 | a match of `\n\s*\n` tried at a position exists exactly when a blank line starts there, and it is the longest such blank line |
| CvText.Pieces | src/lib/server/cv-to-pdf.ts:274 | splitting on `\n\s*\n` gives at least one piece, no piece holds a blank line, and text with no match is one piece |
| CvText.Gaps | src/lib/server/cv-to-pdf.ts:274 | every separator the split removes starts and ends with a newline and is whitespace in between |
| CvText.Reassemble | src/lib/server/cv-to-pdf.ts:274 | there is one separator fewer than pieces, and the pieces joined with the removed separators give back the text |
| CvText.PiecesCut | src/lib/server/cv-to-pdf.ts:274 | each match is leftmost and greedy: a piece followed by a separator has no blank line even with the separator's first newline, no piece after the first opens with a whitespace-only line, and no piece between two separators is whitespace only |
| CvText.SplitCharacterised | src/lib/server/cv-to-pdf.ts:274 | the split of the whole text is characterised: pieces and separators interleave to the text, separators are blank-line runs, and the cut points are leftmost and greedy, so no piece between two separators is whitespace only |
| CvText.KeepNonBlank | src/lib/server/cv-to-pdf.ts:275 | the filter keeps only pieces that are not whitespace only, each one of the input |
| CvText.KeepNonBlankAppend | src/lib/server/cv-to-pdf.ts:275 | the filter works piece by piece: filtering consecutive runs gives the filtered runs in order, and one piece is kept exactly when it is not whitespace only |
| CvText.KeepNonBlankMembers | src/lib/server/cv-to-pdf.ts:275 | a string is kept exactly when it is one of the pieces and not whitespace only |
| CvText.Paragraphs | src/lib/server/cv-to-pdf.ts:273-275 | a string is a paragraph exactly when it is a piece of the split and not whitespace only; no paragraph holds a blank line |
| CvText.ParagraphCases | src/lib/server/cv-to-pdf.ts:273-275 | empty text has no paragraph; text with no blank line and a non-space character is one paragraph, unchanged |
| CvText.TwoParagraphs | src/lib/server/cv-to-pdf.ts:273-275 | two lines with a blank-line gap between them, whatever whitespace it holds, are two paragraphs |
| CvText.Subtitle | src/lib/server/cv-to-pdf.ts:72-79 | the subtitle is the location, then ` • ` and the suffix when present, and is not drawn when both are missing |
| CvText.ContactLinks | src/lib/server/cv-to-pdf.ts:82-86 | one non-empty link per present field, in the order GitHub, the literal `LinkedIn`, email, phone: each field's link sits at the position given by the present fields before it |
| CvText.ContactLine | src/lib/server/cv-to-pdf.ts:88-91 | the contact line is drawn exactly when there is a link |
| CvText.ContactLineShape | src/lib/server/cv-to-pdf.ts:82-90 | the LinkedIn value never appears, only the label; with all four fields the line is the four links joined by ` • ` in order |
| Skills.FindCategory | src/lib/data/skills.ts:16 | `find` gives `undefined` exactly when no category has the slug, else a category with that slug |
| Skills.FindCategoryFirst | src/lib/data/skills.ts:16 | `find` returns the first category with the slug |
| Skills.Resolve | src/lib/data/skills.ts:8-18 | a skill keeps its fields and has a category exactly when its raw category is truthy and some category has that slug |
| Skills.Items | src/lib/data/skills.ts:8-18 | the catalogue has one skill per master skill, in master order, each resolved as `Skills.Resolve` states |
| Skills.GetSkills | src/lib/data/skills.ts:20-22 | an item is returned exactly when it is one of the items and no slug is given or its slug is listed |
| Skills.GetSkillsBySlug | src/lib/data/skills.ts:24-26 | `getSkillsBySlug` forwards its slugs unchanged, so it returns exactly what `getSkills` returns for them |
| Skills.GetSkillsNoSlugs | src/lib/data/skills.ts:21 | with no slug every item is returned in order |
| Skills.GetSkillsAppend | src/lib/data/skills.ts:21 | the filter works item by item, so the result is in items order, not argument order |
| Skills.GetSkillsCount | src/lib/data/skills.ts:21 | each item occurs as often as in the items when listed, so repeated slugs add nothing |
| Skills.GetSkillsSlugSet | src/lib/data/skills.ts:21 | only the set of slugs matters |
| Skills.GroupIndex | src/lib/data/skills.ts:45 | `out.find` gives the first group with the slug, or none exactly when no group has it |
| Skills.ScanIsReference | src/lib/data/skills.ts:35-54 | the `forEach` builds, for the kept items, one group per category slug in first-occurrence order holding that category's items in order, plus the uncategorised items in order |
| Skills.GroupByCategoryIsReference | src/lib/data/skills.ts:28-61 | `groupByCategory` is those category groups followed by `Others` when there are uncategorised items |
| Skills.GroupByCategory | src/lib/data/skills.ts:28-61 | no contract of its own: `Skills.GroupByCategoryIsReference` and `Skills.GroupByCategoryPartition` state what the groups are |
| Skills.BlankSearchKeepsAll | src/lib/data/skills.ts:36 | a whitespace-only query keeps every item in order |
| Skills.SearchKeeps | src/lib/data/skills.ts:36 | otherwise an item is kept exactly when its lower-cased name contains the trimmed, lower-cased query |
| Skills.ReferenceGroupsNonEmpty | src/lib/data/skills.ts:45-53 | no group is empty, and each category group holds only items of its slug, the first of which supplies its category |
| Skills.ReferenceOthersLast | src/lib/data/skills.ts:39-58 | `Others` exists exactly when some item has no category, and is then last |
| Skills.ReferencePartition | src/lib/data/skills.ts:35-58 | every item is in a group, every grouped item is an item, and no item is in two groups |
| Skills.GroupByCategoryPartition | src/lib/data/skills.ts:28-61 | the groups are non-empty and partition exactly the items the search keeps |
| Experience.GetContractTypeAsWritten | src/lib/data/experience.ts:7-17 | the lookup as written escapes the contract type exactly for names inherited from `Object.prototype` |
| Experience.InheritedKeyEscapes | src/lib/data/experience.ts:16 | `constructor` and `toString` give no contract type as written |
| Experience.GetContractType | src/lib/data/experience.ts:7-17 | each of the six exact keys gives its constant; any other string gives `Freelance` |
| Experience.ContractRoundTrip | src/lib/data/experience.ts:8-15 | each constant is read back from its key, and a constant other than `Freelance` comes only from its key |
| Experience.CaseVariantIsFreelance | src/lib/data/experience.ts:16 | a case variant such as `full-time` gives `Freelance` |
| Experience.AsWrittenAgrees | src/lib/data/experience.ts:16 | outside the inherited names, the code as written is the intended lookup |
| Experience.Convert | src/lib/data/experience.ts:20-36 | an entry keeps its fields, takes its contract from the corrected `Experience.GetContractType` (so `constructor` gives `Freelance`, where the source returns the inherited property), looks its skills up by slug, starts now without a start date, and is open exactly when the end date is falsy |
| Experience.Experiences | src/lib/data/experience.ts:20-37 | one entry per master entry, in master order, each converted as `Experience.Convert` states |
| Experience.ExperiencesFollowMaster | src/lib/data/experience.ts:20-37 | entry `i` carries master entry `i`'s fields, an empty skill list yields every skill, and `period.to` is absent exactly for an empty end date |
| Home.QualifyingSlugs | src/lib/data/home.ts:20-21 | every selected slug belongs to a skill whose category is `pro-lang`, `framework` or `library` |
| Home.CarouselSlugs | src/lib/data/home.ts:20-23 | at most eight slugs, all of qualifying skills |
| Home.QualifyingSlugsAppend | src/lib/data/home.ts:21-23 | the selection goes skill by skill in master order |
| Home.CarouselSlugsArePrefix | src/lib/data/home.ts:22 | the slugs are the first eight qualifying ones, or all of them when there are fewer |
| Home.Carousel | src/lib/data/home.ts:19-24 | a skill is in the carousel exactly when it is in the catalogue and the slug list is empty or names it |
| Home.NoneQualifyGivesAll | src/lib/data/home.ts:19-24 | with no qualifying skill the carousel is the whole catalogue in order |
| Home.CarouselFollowsCatalogue | src/lib/data/home.ts:19-24 | the carousel follows catalogue order, not slug order |
| Home.SocialLinks | src/lib/data/home.ts:12-16 | the links keep length, order, label, href and icon |
| Home.SocialLinksKeepFields | src/lib/data/home.ts:12-16 | two page links are equal exactly when their master links agree on label, href and icon |

## Left out

- `callGemini` and `loadEnvFallback` (network, dynamic imports): the model's answer is a `Result` parameter of `World`.
- SHA-256 and `JSON.parse`/`JSON.stringify`: parameters, and the master profile carries its two serialisations as given strings.
- Unicode: whitespace for `trim` and `\s` is the ASCII set, and `toLowerCase` maps ASCII letters only.
- The PDF drawing (coordinates, fonts, pagination), `renderCVDataToPDF`, `renderCoverLetterToPDF` beyond the paragraph split, src/lib/server/html-to-pdf.ts, src/lib/server/cv-render.ts and src/lib/server/puppeteer-check.ts: rendering and platform checks. The Puppeteer branch of the error handler (+server.ts:394-400) is therefore not modelled; every thrown error answers 500 with its message. A successful CV answer is a PDF response in the model, although `renderCVDataToPDF` throws, and the route answers 500, when the parsed JSON has no `details` object (cv-to-pdf.ts:61).
- The cover-letter page's own subtitle (cv-to-pdf.ts:264-265): drawing only.
- Prompts.CvTemplate, Prompts.CoverRole, Prompts.CoverRules, Prompts.CoverApproach: the fixed instruction prose of the two templates is abbreviated; every interpolated part and the header, greeting and closing wording are as written.
- The unawaited `loadFromDisk` racing with early `set`s, concurrent requests and cross-process writes: the model is sequential, and the snapshot is loaded before the first operation.
- Reading master.json and the request body: the master profile and the request are parameters, so their read and parse failures are not modelled.
- One clock reading per request: the several `Date.now()` calls of one request are one `nowMs`.
- LlmFileCache.ClearFileCache: a partial failure of `Promise.all` (some files unlinked, then an error) is not modelled; either every file goes or the directory was missing.
- LlmFileCache.GetCachedJson: a `createdAt` or `ttl` that is not an integer (a fraction, a string, `true`) is not modelled; a missing or `null` one is `None`. A parsed `null` is `Unreadable` (the field read throws), and a parsed number, string, boolean or array is a record with every field missing (`LlmFileCache.NonObjectFileIsStale`).
- LlmFileCache.FileNameInjective: the file path is `key + ".json"` without `path.join` normalisation, so keys holding `/`, `.` or `..` segments (`a/../b` and `b` share a file) are not modelled; the route's keys are hex SHA-256 digests, which hold none.
- Outcomes.NumberOr: environment numbers are integers; a fractional variable is not modelled.
- LlmCache.Loaded: the snapshot load does not evict down to `max`, as in the source, so a snapshot larger than `max` gives a map larger than `max`; `Valid` is only claimed for caches built within the bound.
- A non-string `prompt` (a number or object in the body) is not modelled; the prompt is an optional string.
- src/lib/data/education.ts, src/lib/data/projects.ts and src/lib/data/base.ts: field copies and `new Date(...)`; their empty-skills quirk is the `getSkills` one proved here.
- Experience.GetContractType: `ContractType` is declared in src/lib/data/types.ts, which is not part of this model; its members are taken to be distinct non-empty strings, so every one is truthy past the `||`. A numeric enum with a zero member would send that key to `Freelance` as well.
- Date parsing in the experience list: a date is the string it comes from, or the clock reading.
- CvText.BulletLines: its contract states only the length bound; what each bullet looks like is `CvText.BulletsTidy` and the exact list is `CvText.BulletLinesAppend`.

## Findings

| source | as written | input that shows it | evidently intended | confidence | as-written member | corrected member |
|---|---|---|---|---|---|---|
| src/lib/data/experience.ts:16 | `contractMap[contract] \|\| ContractType.Freelance` on a plain object literal, which inherits `Object.prototype` | a master experience with `contract: "constructor"` (or `toString`, `valueOf`, `__proto__`, …) gets the inherited function or object as its contract type | any string other than the six keys gives `Freelance` | medium, not executed | Experience.GetContractTypeAsWritten, Experience.InheritedKeyEscapes | Experience.GetContractType |
