# Loot Hunter AI: the link monetiser and the advice resolver

This project models the two pieces of logic in `main.py` of the Loot Hunter AI
Telegram bot and proves properties of them in Dafny.

- `monetize_links(text)` rewrites every URL in a reply into an affiliate
  redirect. A URL is a match of the regular expression `https?://[^\s]+`,
  found left to right the way `re.sub` scans. A match that already mentions
  `clnk.in` is kept as it is. Every other match becomes
  `https://clnk.in/<ID>/?url=<quote(url)>`. Text between matches is copied.
  The rewrite is switched off when the affiliate ID is unset or empty.
- `get_shopping_advice(query)` answers a query from a cache. On a miss it
  tries two language models in order, with up to three calls each. A
  rate-limit error (its message contains `429` or `RESOURCE_EXHAUSTED`)
  retries the same model. Any other error moves on to the next model. The
  first successful text is cached under the query and returned. When every
  call fails, a fixed "server is busy" text is returned and nothing is cached.

Modules, one per file:

| module | file | contents |
|---|---|---|
| `Wrappers` | `wrappers.dfy` | `Option` |
| `Strings` | `strings.dfy` | Python's `\s` (`str.isspace`), `NoSpace`, and the substring test `in` with its textbook definition |
| `Utf8` | `utf8.dfy` | UTF-8 encoding of Unicode scalar values, a strict decoder, and the round trip |
| `PercentEncoding` | `percent_encoding.dfy` | `urllib.parse.quote` with its default `safe='/'` (sections 2.1 and 2.3 of RFC 3986), the shape of its output, a strict decoder, and the round trip |
| `Monetize` | `monetize.dfy` | the URL scan, the per-match replacement, `monetize_links`, identity cases, idempotence, and the token view of the scan |
| `Advice` | `advice.dfy` | the resolver as a pure function, the same resolver as nested loops, and the retry/fallback policy stated call by call |

How the model represents things:

- Text is `string`. A Dafny `char` is a Unicode scalar value, so it is never a lone surrogate.
- The affiliate ID is an `Option<string>`. `None` stands for an unset environment variable.
- The cache is a `map<string, string>`.
- The upstream model client is an oracle: a sequence of outcomes, `Success(text)` or `Err(msg)`. The resolver consumes one outcome per call. `msg` stands for `str(e)` of the raised exception.
- Every resolution records the calls it made as `Call(model, attempt)`. `model` is the index in the model list and `attempt` is the 0-based attempt number.

`quote` leaves `/` unescaped, because `/` is its default safe character. So
`https://x` is encoded as `https%3A//x`, not `https%3A%2F%2Fx`. The model
follows the code on this (`IsSafeChar` admits `/`, and `QuoteSafeIdentity`
shows that such characters are copied). Encoding `/` as `%2F` would need
`quote(url, safe='')`, which main.py:52 does not pass.

## Model

| member | source | states |
|---|---|---|
| Strings.ContainsIff | main.py:49 | Python's `sub in s`, scanning start positions left to right, holds exactly when `sub` occurs in `s` at some index |
| Utf8.EncodeChar | main.py:52 | every character has a UTF-8 form of one to four bytes; one byte exactly for ASCII, and it is the code point; otherwise a lead byte `C2`..`F4` followed by continuation bytes |
| Utf8.DecodeEncode | main.py:52 | strict UTF-8 decoding of the encoding of any string gives the string back |
| Utf8.EncodeDecode | main.py:52 | a byte sequence that strictly decodes is the encoding of what it decodes to, so each string has exactly one UTF-8 form |
| PercentEncoding.Quote | main.py:52 | `quote(s)` consists only of unreserved characters, `/` and `%XX` triplets with upper-case digits for the bytes that are neither; it contains no whitespace; percent-decoding and then UTF-8 decoding it gives `s` back |
| PercentEncoding.QuoteUnique | main.py:52 | `quote(x)` is the only encoding of that shape that decodes to `x`: the shape and the round trip pin the output down completely |
| PercentEncoding.QuoteSafeIdentity | main.py:52 | a string of unreserved characters and `/` is returned unchanged by `quote` |
| PercentEncoding.QuoteConcat | main.py:52 | `quote` of a concatenation is the concatenation of the `quote`s |
| Monetize.RunLength | main.py:44 | the greedy `[^\s]+` takes the longest whitespace-free prefix: everything up to the first whitespace or the end |
| Monetize.UrlMatch | main.py:44 | a match is a prefix of the text that itself starts with `http://` or `https://` and a non-space character, contains no whitespace, and ends at whitespace or at the end of the text |
| Monetize.TemplateFacts | main.py:54 | every redirect starts a match of the URL pattern and mentions `clnk.in`; the whole redirect is whitespace-free, and so one match, when the ID and the encoded URL are |
| Monetize.Convert | main.py:46-54 | a match mentioning `clnk.in` is kept verbatim; any other match becomes the redirect prefix followed by a well-formed encoding that decodes to the match, which by `QuoteUnique` is exactly `quote` of the match; the replacement always mentions `clnk.in`, still starts a match, and has no whitespace when the match and the ID have none |
| Monetize.ConvertExact | main.py:49-54 | a match that does not mention `clnk.in` becomes exactly `https://clnk.in/<ID>/?url=` followed by `quote` of the match |
| Monetize.MonetizeLinks | main.py:37-56 | with the ID unset or empty the text is returned unchanged; otherwise the result is the scan of the text with every match replaced by its conversion and every other character kept, in order |
| Monetize.NoMatchIdentity | main.py:56 | a text where the pattern matches at no position is returned unchanged |
| Monetize.NoSchemeIdentity | main.py:37-56 | a text containing neither `http://` nor `https://` is returned unchanged, whatever the ID |
| Monetize.RewriteIdempotent | main.py:44-56 | for a whitespace-free ID, rewriting the rewritten text changes nothing |
| Monetize.MonetizeIdempotent | main.py:37-56 | `monetize_links(monetize_links(t)) == monetize_links(t)` for an unset, empty or whitespace-free ID |
| Monetize.Tokenize | main.py:44 | the scan splits the text into single characters where the pattern does not match and whole matches, each followed by whitespace or the end; concatenated, they give the text back |
| Monetize.ScanUnique | main.py:44 | that split is the only one with this property: the leftmost-longest scan is unique |
| Monetize.ConvertAll | main.py:46-56 | the replacement leaves every plain character where it is and replaces every match token by its converted form, one for one |
| Monetize.RewriteByTokens | main.py:44-56 | the rewrite is the token split with every match converted and every other character kept, in the original order |
| Advice.TryModel | main.py:91-116 | the inner loop makes at least one and at most three calls on a model, and only when attempts are left |
| Advice.TryModelOutcomes | main.py:104-116 | in the inner loop every call but the last hit a rate limit; an answer is the last call's text; a model that was given up failed last with an error that is not a rate limit, or used all its attempts |
| Advice.FallBack | main.py:90-119 | the outer loop from model `m` on makes at most three calls per remaining model; it leaves the cache alone or stores its answer under the query |
| Advice.Resolve | main.py:58-119 | a cache hit returns the cached text with no call and the cache unchanged; otherwise at most six calls are made and only the query's entry may change |
| Advice.Attempts | main.py:91-116 | the inner `for` loop, with its `return` and `break`, computes the same run and the same calls as `TryModel` |
| Advice.GetShoppingAdvice | main.py:58-119 | the nested loops with the cache check compute the same answer, cache and calls as `Resolve` |
| Advice.ResolveFollowsPolicy | main.py:85-119 | on a cache miss the calls start with the first attempt on the first model; each following call is the next attempt on the same model after a rate limit, or the first attempt on the next model after any other error or after the third attempt; the calls stop at the first success, which is returned and cached under the query; when none succeeds the busy text comes back and the cache is unchanged |
| Advice.PolicyDeterministic | main.py:90-116 | given the outcomes, at most one sequence of calls follows that policy |
| Advice.CallsPerModel | main.py:85-91 | the calls are one to three on the first model followed by at most three on the second, and the second model is only tried after the first was given up |
| Advice.AllRateLimited | main.py:109-119 | when every call hits the rate limit, each model is called three times, the busy text comes back and the cache is unchanged |
| Advice.HardErrorFallsBack | main.py:104-116 | an error other than a rate limit on the first model moves straight to the second model, whose success is returned and cached after exactly two calls |
| Advice.AskAgain | main.py:63-65 | after a resolution, asking the same query again is answered from the cache with the same text and no call, unless the first ended with the busy text, which is never cached |

## Left out

- The Telegram handlers `start` and `handle_message` (main.py:122-161) are left out. They are chat I/O.
- Process start-up, reading the environment and the key checks (main.py:14-18, 164-176) are left out. They are configuration. `CUELINKS_ID` becomes a parameter.
- The genai client and the `generate_content` call (main.py:33, 70-72, 95-102) are left out. They are a network call, replaced by the outcome oracle.
- The prompt text (main.py:74-81) is left out. It is formatting with no effect on control flow.
- `time.sleep(5)` and all logging are left out. They have no effect on results.
- The cache's time-to-live expiry and size-based eviction in `cachetools.TTLCache` (main.py:23) are left out. That is library code with a clock. The cache is a plain map that keeps every entry.
- Concurrent requests sharing one cache are left out.
- `response.text` can be `None` in the real client. The model's `Success` always carries a string.
- The oracle must hold at least six outcomes, the most calls one resolution can make, so that every call has an answer. The resolver functions and methods require `|outcomes| >= MaxCalls` for this reason only.
- Python strings can hold lone surrogates, and `quote` raises on them. Dafny characters are scalar values, so that error path does not exist in the model.
- Only the one regular expression the code uses is modelled, not Python's `re` engine.
- Monetize.RewriteIdempotent: requires an affiliate ID without whitespace. With an ID such as `a http://b`, the redirect contains a second match, so a second pass changes it. The code makes no promise here.
- Monetize.MonetizeIdempotent: same requirement and reason as `RewriteIdempotent`.
