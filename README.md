# Shortcode registry: a Dafny model

This project models the URL-shortening server in `backend/index.js`. The server keeps an
in-memory map from shortcode to entry. It answers two requests:

- `POST /shorturls` normalises the URL and checks that it parses. It then picks a code:
  the caller's code, or a generated one, re-drawn while the code is taken. It stores an
  entry with an expiry `validity` minutes ahead (30 by default) and an empty click list.
  The answer is 201, or 400 with "Invalid URL".
- `GET /:shortcode` answers 404 for an unknown code. A code past its expiry is deleted
  and answered with 410. Otherwise one click record is appended and the request is
  redirected to the stored URL.

The model has five modules:

- `Wrappers` (wrappers.dfy): the `Option` type, standing for `undefined`/`null`.
- `Codes` (codes.dfy): `generateCode`. It encodes random bytes as unpadded base64url
  (section 5 of RFC 4648) and keeps the first `length` characters. A decoder is the
  partner that shows the encoding is lossless.
- `Urls` (urls.dfy): `normalizeUrl` and the case-insensitive scheme test `/^https?:\/\//i`.
- `Registry` (registry.dfy): the entities as datatypes, plus both handlers as functions
  from the map before a request to the outcome and the map after it (`Create`, `Resolve`).
  Also here: the lemmas about them and an invariant over any sequence of requests.
- `Service` (service.dfy): the server as a class. The `shortUrls` Map is the field
  `entries`. The code-selection loop is a `while` loop, and each handler is a method that
  updates the field in place. Each method is proved to produce exactly what the
  `Registry` functions describe, and to keep the registry well formed.

The collaborators the handlers call are inputs:

- `Date.now()` is a clock reading passed in. The redirect handler reads the clock twice
  (lines 77 and 89), so it takes two readings: `now` for the expiry test and `clickTime`
  for the click record.
- The results of `crypto.randomBytes(6)` are a finite sequence `draws` of 6-byte strings
  (the type `Codes.Draw`), one per `generateCode()` call.
- `new URL(...)` is the predicate `parsesAsUrl`, standing for the WHATWG URL parser.
- The `referer` header is an optional string.
- The geolocation lookup's answer is an optional `Location`.

`shortUrls.set` (index.js:49) is unconditional, but the `while (shortUrls.has(code))` loop
(index.js:42) checks the caller's code too. A taken code is replaced by a generated one, so
an existing entry is never overwritten (`Registry.CreateRedrawsTakenPreferredCode`).

## Model

| member | source | states |
|---|---|---|
| Codes.Encode | backend/index.js:19 | `toString("base64url")` of `n` bytes has `4*(n/3)` characters, plus `n%3+1` when `n%3 != 0`, all from `A-Z a-z 0-9 - _` |
| Codes.Sextets | backend/index.js:19 | definition of the split into 6-bit groups, with the encoded length; its properties are stated by `Codes.OctetsOfSextets` and `Codes.DecodeEncode` |
| Codes.OctetsOfSextets | backend/index.js:19 | cutting any byte string into 6-bit groups and joining them back gives the byte string |
| Codes.DecodeDigits | backend/index.js:19 | writing 6-bit values as alphabet characters and decoding the text gives the values back as bytes |
| Codes.DecodeEncode | backend/index.js:19 | decoding the base64url text of any byte string gives exactly that byte string |
| Codes.EncodedLengthIsDecodable | backend/index.js:19 | no unpadded encoding has a length of the form 4k+1, so the decoder accepts every encoding |
| Codes.EncodingCoversLength | backend/index.js:19 | the encoding of `n` bytes has at least `n` characters, so `slice(0, n)` keeps exactly `n` |
| Codes.SliceTo | backend/index.js:19 | `slice(0, end)` gives a prefix of length `min(end, length)` |
| Codes.GenerateCode | backend/index.js:17-20 | a code drawn from `n` random bytes has exactly `n` characters, all URL-safe |
| Codes.DefaultCodeCarriesFourBytes | backend/index.js:17-20 | a default-length code (6 characters) decodes to exactly the first four of its six random bytes |
| Urls.NormalizeUrl | backend/index.js:22-27 | the result has an http(s) scheme, equals the input exactly when the input has one, and is otherwise `http://` followed by the input |
| Urls.HasHttpScheme | backend/index.js:23 | definition of the regex test; its properties are stated by `Urls.NormalizeUrl`, `Urls.NormalizeUpperCaseScheme` and `Urls.NormalizeUnrecognisedSchemes` |
| Urls.PrefixedHasScheme | backend/index.js:24 | putting `http://` in front of any string gives a string that passes the scheme test |
| Urls.NormalizeIdempotent | backend/index.js:22-27 | normalising twice gives the same as normalising once |
| Urls.NormalizeKeepsInput | backend/index.js:22-27 | the input is always the suffix of the normalised URL |
| Urls.NormalizeBareHost | backend/index.js:23-24 | `example.com` becomes `http://example.com` |
| Urls.NormalizeUpperCaseScheme | backend/index.js:23 | `HTTPS://Example.com` is recognised without regard to case and kept as it is |
| Urls.NormalizeUnrecognisedSchemes | backend/index.js:23-24 | `ftp://host`, and `http:/host` with one slash missing, are not recognised and get `http://` in front |
| Registry.SelectFrom | backend/index.js:42-44 | a code found by scanning the candidates from position `j` is never one in use |
| Registry.PreferredCode | backend/index.js:41 | definition of `shortcode ||` (an empty code counts as none); its properties are stated by `Registry.CreateKeepsFreePreferredCode` and `Registry.GeneratedCodeShape` |
| Registry.Candidates | backend/index.js:41-43 | definition of the codes the loop tries; its properties are stated by `Registry.CandidateAt` |
| Registry.SelectCode | backend/index.js:41-44 | the code the loop settles on is not a key of the registry |
| Registry.SelectFromIsFirstFree | backend/index.js:42-44 | scanning from `j` finds the first unused candidate at or after `j`, and finds none exactly when all of them are used |
| Registry.SelectCodeIsFirstFree | backend/index.js:41-44 | the chosen code is the first unused candidate; there is none exactly when every candidate is used |
| Registry.CandidateAt | backend/index.js:41-43 | the candidates are the caller's code, if given, and then one generated code per draw, in order |
| Registry.Validity | backend/index.js:31 | definition of `validity = 30`; its properties are stated by `Registry.CreateInsertsOneFreshEntry` and `Registry.CreateExample` |
| Registry.ExpiryTime | backend/index.js:47 | definition of `now + validity * 60 * 1000`; its properties are stated by `Registry.CreateInsertsOneFreshEntry` and `Registry.ZeroValidityExpiresAfterCreation` |
| Registry.ShortUrl | backend/index.js:63 | definition of the `shortUrl` of the answer; its properties are stated by `Registry.CreateExample` |
| Registry.Create | backend/index.js:30-65 | definition of the creation handler; its properties are stated by `Registry.CreateRejectsInvalidUrl`, `Registry.CreateFailureChangesNothing`, `Registry.CreateInsertsOneFreshEntry` and `Registry.CreateTakesFirstFreeCandidate` |
| Registry.ClickReferrer | backend/index.js:90 | definition of `referer || null` (an empty header records none); its properties are stated by `Registry.ResolveRecordsClick` and `Registry.ResolvePreservesWellFormed` |
| Registry.Resolve | backend/index.js:68-98 | definition of the redirect handler; its properties are stated by `Registry.ResolveMissingCode`, `Registry.ResolveEvictsExpiredCode`, `Registry.ResolveRecordsClick` and `Registry.ResolveLifecycle` |
| Registry.CreateRejectsInvalidUrl | backend/index.js:33-39 | creation answers invalid-URL exactly when the normalised URL does not parse |
| Registry.CreateFailureChangesNothing | backend/index.js:33-44 | a creation that does not succeed leaves the registry unchanged |
| Registry.CreateInsertsOneFreshEntry | backend/index.js:41-64 | a successful creation adds exactly one key, which was not in use. Its entry holds the normalised URL, `createdAt = now`, `expiresAt = now + validity*60*1000` and no clicks. Every other entry is unchanged, and the answer carries the same url, validity and expiry |
| Registry.CreateTakesFirstFreeCandidate | backend/index.js:41-44 | creation picks the first unused candidate, and runs out exactly when all candidates are used |
| Registry.CreateKeepsFreePreferredCode | backend/index.js:41-44 | a caller-supplied code that is not in use is kept verbatim |
| Registry.CreateRedrawsTakenPreferredCode | backend/index.js:41-44 | a caller-supplied code that is in use is not picked, and its existing entry stays as it was |
| Registry.GeneratedCodeShape | backend/index.js:41-43 | without a caller-supplied code, the picked code has 6 URL-safe characters |
| Registry.CreateExample | backend/index.js:30-64 | `{url: "example.com"}` on an empty registry answers with the first generated code, `http://example.com`, validity 30, expiry `now + 1800000` and its short URL |
| Registry.ResolveMissingCode | backend/index.js:70-75 | an unknown code answers not-found and changes nothing |
| Registry.ResolveEvictsExpiredCode | backend/index.js:77-81 | a code with `now > expiresAt` answers expired, and exactly that key is removed; the other entries are unchanged |
| Registry.ResolveRecordsClick | backend/index.js:83-97 | a live code (`now <= expiresAt`, so the expiry instant is included) redirects to its stored URL. Exactly one click is appended after the earlier ones. That click holds the request's clock reading, its referrer and its location. No other field or entry changes |
| Registry.ExpiredThenNotFound | backend/index.js:77-81 | after a code is answered as expired, every later lookup of it answers not-found |
| Registry.ResolveLifecycle | backend/index.js:68-98 | a lookup moves a code from active to past-expiry to absent and never back |
| Registry.CreateThenResolve | backend/index.js:46-97 | a created code looked up before its expiry redirects to the normalised URL and has one click |
| Registry.ZeroValidityExpiresAfterCreation | backend/index.js:46-81 | with validity 0 the entry is served at its creation instant and is expired at every later one |
| Registry.CreatePreservesWellFormed | backend/index.js:30-65 | creation keeps every entry well formed: an http(s) URL that parses, a whole number of minutes of life, no empty referrer (whole minutes because `validity` is taken to be an integer). Every existing entry is kept exactly as it was |
| Registry.ResolvePreservesWellFormed | backend/index.js:68-98 | a lookup keeps every entry well formed and changes an entry only by appending clicks |
| Registry.RedirectTargetIsAbsolute | backend/index.js:97 | from a well-formed registry, a redirect always goes to an http(s) URL that parses |
| Registry.RunPreservesWellFormed | backend/index.js:15-98 | every registry the server reaches from a well-formed one, over any sequence of requests, is well formed |
| Service.ShortUrlService.constructor | backend/index.js:15 | the server starts with an empty registry |
| Service.ShortUrlService.PickCode | backend/index.js:41-44 | the loop returns the code `SelectCode` describes, which is not a key of the registry |
| Service.ShortUrlService.CreateShortUrl | backend/index.js:30-65 | the handler leaves the registry and gives the answer that `Create` describes, and keeps it well formed. On failure the registry is unchanged; on success exactly one fresh key is added |
| Service.ShortUrlService.ResolveShortUrl | backend/index.js:68-98 | the handler gives what `Resolve` describes, and keeps the registry well formed. It answers not-found exactly for an unknown code and expired exactly for a known code past its expiry, removing only that key. A redirect goes to an http(s) URL that parses and appends exactly one click |
| Service.ZeroValidityScenario | backend/index.js:46-81 | using the handlers: an entry with validity 0 is served at once, answered as expired a millisecond later, and not found after that |

## Left out

- backend/logger.js and the `log(...)` calls: fire-and-forget network logging, which does not affect the registry or the answers.
- The frontend: a user interface that calls the two endpoints.
- Express routing, the JSON and CORS middleware, `res.status/json/redirect` and `app.listen`: HTTP plumbing. Each answer is an outcome value instead.
- `crypto.randomBytes`: its results are the input `draws`. The source loop has no bound, so the model takes a finite sequence of draws and adds the outcome `CodesExhausted` for when every draw collides. The source has no such outcome; it keeps drawing.
- `new URL(...)`: the WHATWG URL parser is the predicate `parsesAsUrl`, not re-implemented.
- The IP extraction from `x-forwarded-for` / `remoteAddress` and `geoip.lookup`: a lookup in a foreign database. Its answer is the input `location`.
- `Date.now()`: each reading is an input (`now`, `clickTime`).
- JSON type coercion: `validity` is taken to be an integer and `url`/`shortcode` to be strings. JavaScript's floating-point arithmetic for `expiresAt` is exact integer arithmetic here.
- The entry object shared by reference: `entry.clicks.push` updates the stored object in place. The model replaces the map's value with the updated entry, which gives the same registry afterwards.
- The `PORT` environment variable: the `port` constant of the class, written into `shortUrl`.
