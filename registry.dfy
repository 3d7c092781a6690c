/**
  The shortcode registry of backend/index.js as values: the `shortUrls` map from code to
  entry, and what each of the two request handlers does to it. `Create` is the body of the
  `POST /shorturls` handler and `Resolve` the body of the `GET /:shortcode` handler, each as
  a function from the registry before the request to its outcome and the registry after.
  The imperative handlers in service.dfy are proved to compute exactly these.

  The collaborators the handlers call are inputs here: the clock readings (`Date.now()`),
  the successive byte strings `crypto.randomBytes(6)` returns, the verdict of `new URL(...)`
  (the predicate `parsesAsUrl`), the `referer` header and the geolocation lookup's result.
*/
module Registry {
  import opened Wrappers
  import Codes
  import Urls

  /** What the geolocation lookup reports for the requester's address. */
  datatype Location = Location(country: string, region: string, city: string)

  /** One recorded redirect. */
  datatype Click = Click(timestamp: int, referrer: Option<string>, location: Option<Location>)

  /** The value stored under a code; times are milliseconds since the epoch. */
  datatype Entry = Entry(url: string, createdAt: int, expiresAt: int, clicks: seq<Click>)

  type Entries = map<string, Entry>

  /** Minutes of validity when the request gives none. */
  const DefaultValidity: int := 30

  const MillisPerMinute: int := 60 * 1000

  /** The JSON body of `POST /shorturls`; `None` is a missing property. */
  datatype CreateRequest = CreateRequest(url: string, validity: Option<int>, shortcode: Option<string>)

  /**
    The answers of `POST /shorturls`: 400 with "Invalid URL", or 201 with the new code.
    `CodesExhausted` is the model's own outcome for a finite supply of random draws that
    all hit codes already in use.
  */
  datatype CreateOutcome =
    | InvalidUrl
    | CodesExhausted
    | Created(shortcode: string, url: string, validity: int, expiresAt: int, shortUrl: string)

  /** The answers of `GET /:shortcode`: 404, 410, or a redirect to the stored URL. */
  datatype ResolveOutcome = NotFound | Expired | Redirect(target: string)

  /** An outcome together with the registry it leaves behind. */
  datatype Step<O> = Step(outcome: O, entries: Entries)

  /** `validity = 30` in the destructuring of the request body. */
  function Validity(req: CreateRequest): int {
    req.validity.GetOr(DefaultValidity)
  }

  function ExpiryTime(now: int, validity: int): int {
    now + validity * MillisPerMinute
  }

  /** An entry is still served at `now` up to and including its expiry instant. */
  predicate IsLive(e: Entry, now: int) {
    now <= e.expiresAt
  }

  /** `shortcode || generateCode()`: an empty string is falsy, so it counts as no code. */
  function PreferredCode(shortcode: Option<string>): Option<string> {
    if shortcode.Some? && shortcode.value != "" then shortcode else None
  }

  /**
    The codes the creation handler tries, in order: the caller's code if there is one,
    then one generated code per random draw.
  */
  function Candidates(preferred: Option<string>, draws: seq<Codes.Draw>): seq<string> {
    (if preferred.Some? then [preferred.value] else [])
    + seq(|draws|, i requires 0 <= i < |draws| => Codes.GenerateCode(draws[i]))
  }

  /** `candidates[k]` is the first candidate not in `used`. */
  predicate FirstFreeAt(used: set<string>, candidates: seq<string>, k: int) {
    && 0 <= k < |candidates|
    && candidates[k] !in used
    && forall j :: 0 <= j < k ==> candidates[j] in used
  }

  /** The first candidate from position `j` on that is not in `used`, if there is one. */
  function SelectFrom(used: set<string>, candidates: seq<string>, j: nat): (r: Option<string>)
    requires j <= |candidates|
    ensures r.Some? ==> r.value !in used
    decreases |candidates| - j
  {
    if j == |candidates| then None
    else if candidates[j] !in used then Some(candidates[j])
    else SelectFrom(used, candidates, j + 1)
  }

  /** The code the `while (shortUrls.has(code))` loop settles on, if the candidates suffice. */
  function SelectCode(used: set<string>, candidates: seq<string>): (r: Option<string>)
    ensures r.Some? ==> r.value !in used
  {
    SelectFrom(used, candidates, 0)
  }

  /**
    `SelectFrom` finds the first unused candidate from `j` on, and finds nothing exactly
    when all of them are in use.
  */
  lemma {:induction false} SelectFromIsFirstFree(used: set<string>, candidates: seq<string>, j: nat)
    requires j <= |candidates|
    ensures var r := SelectFrom(used, candidates, j);
      && (r.None? <==> forall i :: j <= i < |candidates| ==> candidates[i] in used)
      && (r.Some? ==> exists k :: && j <= k < |candidates| && candidates[k] == r.value
                                   && candidates[k] !in used
                                   && forall i :: j <= i < k ==> candidates[i] in used)
    decreases |candidates| - j
  {
    if j < |candidates| && candidates[j] in used {
      SelectFromIsFirstFree(used, candidates, j + 1);
      var r := SelectFrom(used, candidates, j + 1);
      if r.Some? {
        var k :| && j + 1 <= k < |candidates| && candidates[k] == r.value
                 && candidates[k] !in used
                 && forall i :: j + 1 <= i < k ==> candidates[i] in used;
        assert forall i :: j <= i < k ==> candidates[i] in used;
      }
    }
  }

  /**
    The chosen code is the first candidate not in use; no code is chosen exactly when every
    candidate is in use.
  */
  lemma SelectCodeIsFirstFree(used: set<string>, candidates: seq<string>)
    ensures var r := SelectCode(used, candidates);
      && (r.None? <==> forall i :: 0 <= i < |candidates| ==> candidates[i] in used)
      && (r.Some? ==> exists k :: FirstFreeAt(used, candidates, k) && candidates[k] == r.value)
  {
    SelectFromIsFirstFree(used, candidates, 0);
  }

  /** How many candidates come before the generated ones: one when the caller gave a code. */
  function PreferredCount(preferred: Option<string>): nat {
    if preferred.Some? then 1 else 0
  }

  /** The candidate list is the preferred code, if any, followed by one code per draw. */
  lemma CandidateAt(preferred: Option<string>, draws: seq<Codes.Draw>, i: int)
    requires 0 <= i < |draws|
    ensures var cands := Candidates(preferred, draws);
      && |cands| == PreferredCount(preferred) + |draws|
      && cands[PreferredCount(preferred) + i] == Codes.GenerateCode(draws[i])
      && (preferred.Some? ==> cands[0] == preferred.value)
  {
  }

  /** The `shortUrl` of the 201 answer. */
  function ShortUrl(port: string, code: string): string {
    "http://localhost:" + port + "/" + code
  }

  /** The `POST /shorturls` handler. */
  function Create(m: Entries, req: CreateRequest, draws: seq<Codes.Draw>, now: int,
                  parsesAsUrl: string -> bool, port: string): Step<CreateOutcome>
  {
    var url := Urls.NormalizeUrl(req.url);
    if !parsesAsUrl(url) then
      Step(InvalidUrl, m)
    else
      match SelectCode(m.Keys, Candidates(PreferredCode(req.shortcode), draws))
      case None => Step(CodesExhausted, m)
      case Some(code) =>
        var validity := Validity(req);
        var expiresAt := ExpiryTime(now, validity);
        Step(Created(code, url, validity, expiresAt, ShortUrl(port, code)),
             m[code := Entry(url, now, expiresAt, [])])
  }

  /** `req.get("referer") || null`: a missing or empty header records no referrer. */
  function ClickReferrer(referer: Option<string>): Option<string> {
    if referer.Some? && referer.value != "" then referer else None
  }

  /**
    The `GET /:shortcode` handler. `now` is the clock reading of the expiry test and
    `clickTime` the later one stored in the click record.
  */
  function Resolve(m: Entries, code: string, now: int, clickTime: int,
                   referer: Option<string>, location: Option<Location>): Step<ResolveOutcome>
  {
    if code !in m then
      Step(NotFound, m)
    else if now > m[code].expiresAt then
      Step(Expired, m - {code})
    else
      var e := m[code];
      var click := Click(clickTime, ClickReferrer(referer), location);
      Step(Redirect(e.url), m[code := e.(clicks := e.clicks + [click])])
  }

  // ---------------------------------------------------------------------------------------
  // Creation

  /** Creation fails with the invalid-URL answer exactly when the normalised URL does not parse. */
  lemma CreateRejectsInvalidUrl(m: Entries, req: CreateRequest, draws: seq<Codes.Draw>, now: int,
                                parsesAsUrl: string -> bool, port: string)
    ensures Create(m, req, draws, now, parsesAsUrl, port).outcome == InvalidUrl
            <==> !parsesAsUrl(Urls.NormalizeUrl(req.url))
  {
  }

  /** A creation that does not succeed leaves the registry as it was. */
  lemma CreateFailureChangesNothing(m: Entries, req: CreateRequest, draws: seq<Codes.Draw>, now: int,
                                    parsesAsUrl: string -> bool, port: string)
    requires !Create(m, req, draws, now, parsesAsUrl, port).outcome.Created?
    ensures Create(m, req, draws, now, parsesAsUrl, port).entries == m
  {
  }

  /**
    A successful creation adds exactly one key, the chosen code, which was not in use; the
    new entry holds the normalised URL, the creation time, the expiry `validity` minutes
    later and no clicks; every other entry is untouched.
  */
  lemma CreateInsertsOneFreshEntry(m: Entries, req: CreateRequest, draws: seq<Codes.Draw>, now: int,
                                   parsesAsUrl: string -> bool, port: string)
    requires Create(m, req, draws, now, parsesAsUrl, port).outcome.Created?
    ensures var s := Create(m, req, draws, now, parsesAsUrl, port);
      && s.outcome.shortcode !in m
      && s.entries.Keys == m.Keys + {s.outcome.shortcode}
      && |s.entries| == |m| + 1
      && s.entries[s.outcome.shortcode]
         == Entry(Urls.NormalizeUrl(req.url), now, ExpiryTime(now, Validity(req)), [])
      && (forall k :: k in m ==> s.entries[k] == m[k])
      && s.outcome.url == Urls.NormalizeUrl(req.url)
      && s.outcome.validity == Validity(req)
      && s.outcome.expiresAt == ExpiryTime(now, Validity(req))
  {
    var url := Urls.NormalizeUrl(req.url);
    var code := SelectCode(m.Keys, Candidates(PreferredCode(req.shortcode), draws)).value;
    var e := Entry(url, now, ExpiryTime(now, Validity(req)), []);
    var s := Create(m, req, draws, now, parsesAsUrl, port);
    assert s.outcome.shortcode == code && code !in m;
    assert s.entries == m[code := e];
    assert s.entries.Keys == m.Keys + {code};
    assert |s.entries.Keys| == |m.Keys| + 1;
  }

  /**
    The chosen code is the first candidate not in use; the supply is exhausted only when
    every candidate is in use.
  */
  lemma CreateTakesFirstFreeCandidate(m: Entries, req: CreateRequest, draws: seq<Codes.Draw>, now: int,
                                      parsesAsUrl: string -> bool, port: string)
    requires parsesAsUrl(Urls.NormalizeUrl(req.url))
    ensures var s := Create(m, req, draws, now, parsesAsUrl, port);
      var cands := Candidates(PreferredCode(req.shortcode), draws);
      && (s.outcome.CodesExhausted? <==> forall i :: 0 <= i < |cands| ==> cands[i] in m)
      && (s.outcome.Created? ==>
            exists k :: FirstFreeAt(m.Keys, cands, k) && cands[k] == s.outcome.shortcode)
  {
    SelectCodeIsFirstFree(m.Keys, Candidates(PreferredCode(req.shortcode), draws));
  }

  /** A caller-supplied code that is not in use is kept verbatim. */
  lemma CreateKeepsFreePreferredCode(m: Entries, req: CreateRequest, draws: seq<Codes.Draw>, now: int,
                                     parsesAsUrl: string -> bool, port: string)
    requires parsesAsUrl(Urls.NormalizeUrl(req.url))
    requires req.shortcode.Some? && req.shortcode.value != "" && req.shortcode.value !in m
    ensures Create(m, req, draws, now, parsesAsUrl, port).outcome.Created?
    ensures Create(m, req, draws, now, parsesAsUrl, port).outcome.shortcode == req.shortcode.value
  {
  }

  /**
    A caller-supplied code that is already in use is not overwritten: creation picks a
    generated code instead (or runs out of draws) and the existing entry stays.
  */
  lemma CreateRedrawsTakenPreferredCode(m: Entries, req: CreateRequest, draws: seq<Codes.Draw>, now: int,
                                        parsesAsUrl: string -> bool, port: string)
    requires req.shortcode.Some? && req.shortcode.value in m
    ensures var s := Create(m, req, draws, now, parsesAsUrl, port);
      && req.shortcode.value in s.entries
      && s.entries[req.shortcode.value] == m[req.shortcode.value]
      && (s.outcome.Created? ==> s.outcome.shortcode != req.shortcode.value)
  {
  }

  /**
    Without a caller-supplied code the chosen code is a generated one: 6 characters from
    the base64url alphabet.
  */
  lemma GeneratedCodeShape(m: Entries, req: CreateRequest, draws: seq<Codes.Draw>, now: int,
                           parsesAsUrl: string -> bool, port: string)
    requires PreferredCode(req.shortcode).None?
    requires Create(m, req, draws, now, parsesAsUrl, port).outcome.Created?
    ensures var code := Create(m, req, draws, now, parsesAsUrl, port).outcome.shortcode;
      |code| == Codes.DefaultCodeLength && Codes.IsUrlSafe(code)
  {
    var cands := Candidates(None, draws);
    var code := Create(m, req, draws, now, parsesAsUrl, port).outcome.shortcode;
    SelectCodeIsFirstFree(m.Keys, cands);
    var k :| FirstFreeAt(m.Keys, cands, k) && cands[k] == code;
    assert cands[k] == Codes.GenerateCode(draws[k]);
  }

  /**
    A bare host is served over `http://`, for 30 minutes by default, under the first
    generated code when the registry is empty.
  */
  lemma CreateExample(draws: seq<Codes.Draw>, now: int, parsesAsUrl: string -> bool, port: string)
    requires |draws| > 0
    requires parsesAsUrl("http://example.com")
    ensures var code := Codes.GenerateCode(draws[0]);
      Create(map[], CreateRequest("example.com", None, None), draws, now, parsesAsUrl, port).outcome
      == Created(code, "http://example.com", 30, now + 1800000, ShortUrl(port, code))
  {
    Urls.NormalizeBareHost();
    assert Candidates(None, draws)[0] == Codes.GenerateCode(draws[0]);
  }

  // ---------------------------------------------------------------------------------------
  // Redirection

  /** Resolving a code that is not registered answers not-found and changes nothing. */
  lemma ResolveMissingCode(m: Entries, code: string, now: int, clickTime: int,
                           referer: Option<string>, location: Option<Location>)
    requires code !in m
    ensures Resolve(m, code, now, clickTime, referer, location) == Step(NotFound, m)
  {
  }

  /** Resolving a code past its expiry answers expired and removes exactly that key. */
  lemma ResolveEvictsExpiredCode(m: Entries, code: string, now: int, clickTime: int,
                                 referer: Option<string>, location: Option<Location>)
    requires code in m && now > m[code].expiresAt
    ensures var s := Resolve(m, code, now, clickTime, referer, location);
      && s.outcome == Expired
      && s.entries.Keys == m.Keys - {code}
      && |s.entries| == |m| - 1
      && forall k :: k in s.entries ==> s.entries[k] == m[k]
  {
    var s := Resolve(m, code, now, clickTime, referer, location);
    assert s.entries.Keys == m.Keys - {code};
  }

  /**
    Resolving a live code (its expiry instant included) redirects to the stored URL and
    appends one click, stamped `clickTime`, after the earlier ones; nothing else changes.
  */
  lemma ResolveRecordsClick(m: Entries, code: string, now: int, clickTime: int,
                            referer: Option<string>, location: Option<Location>)
    requires code in m && now <= m[code].expiresAt
    ensures var s := Resolve(m, code, now, clickTime, referer, location);
      && s.outcome == Redirect(m[code].url)
      && s.entries.Keys == m.Keys
      && s.entries[code].url == m[code].url
      && s.entries[code].createdAt == m[code].createdAt
      && s.entries[code].expiresAt == m[code].expiresAt
      && |s.entries[code].clicks| == |m[code].clicks| + 1
      && s.entries[code].clicks[..|m[code].clicks|] == m[code].clicks
      && s.entries[code].clicks[|m[code].clicks|] == Click(clickTime, ClickReferrer(referer), location)
      && forall k :: k in m && k != code ==> s.entries[k] == m[k]
  {
    var s := Resolve(m, code, now, clickTime, referer, location);
    assert s.entries[code].clicks[..|m[code].clicks|] == m[code].clicks;
  }

  /** Once a code has been answered as expired, every later lookup answers not-found. */
  lemma ExpiredThenNotFound(m: Entries, code: string, now: int, clickTime: int,
                            referer: Option<string>, location: Option<Location>,
                            later: int, laterClickTime: int,
                            laterReferer: Option<string>, laterLocation: Option<Location>)
    requires Resolve(m, code, now, clickTime, referer, location).outcome == Expired
    ensures var after := Resolve(m, code, now, clickTime, referer, location).entries;
      Resolve(after, code, later, laterClickTime, laterReferer, laterLocation) == Step(NotFound, after)
  {
  }

  /** The life of a code in the registry, as a lookup at `now` sees it. */
  datatype Status = Absent | Active | PastExpiry

  function StatusAt(m: Entries, code: string, now: int): Status {
    if code !in m then Absent
    else if IsLive(m[code], now) then Active
    else PastExpiry
  }

  /**
    A lookup moves its code along Active, then PastExpiry, then Absent, and never back:
    an active code stays active at the same instant, a code past expiry is gone
    (for every later instant too), and an absent code stays absent.
  */
  lemma ResolveLifecycle(m: Entries, code: string, now: int, clickTime: int,
                         referer: Option<string>, location: Option<Location>, later: int)
    requires now <= later
    ensures var s := Resolve(m, code, now, clickTime, referer, location);
      && (StatusAt(m, code, now) == Active ==>
            s.outcome.Redirect? && StatusAt(s.entries, code, now) == Active)
      && (StatusAt(m, code, now) == PastExpiry ==>
            s.outcome == Expired && StatusAt(s.entries, code, later) == Absent)
      && (StatusAt(m, code, now) == Absent ==>
            s.outcome == NotFound && StatusAt(s.entries, code, later) == Absent)
      && (StatusAt(m, code, now) != Active ==> StatusAt(m, code, later) != Active)
  {
  }

  /**
    Creating an entry and resolving it before it expires redirects to the normalised URL
    and leaves exactly one click.
  */
  lemma CreateThenResolve(m: Entries, req: CreateRequest, draws: seq<Codes.Draw>, now: int,
                          parsesAsUrl: string -> bool, port: string,
                          at: int, clickTime: int, referer: Option<string>, location: Option<Location>)
    requires Create(m, req, draws, now, parsesAsUrl, port).outcome.Created?
    requires at <= ExpiryTime(now, Validity(req))
    ensures var c := Create(m, req, draws, now, parsesAsUrl, port);
      var r := Resolve(c.entries, c.outcome.shortcode, at, clickTime, referer, location);
      && r.outcome == Redirect(Urls.NormalizeUrl(req.url))
      && |r.entries[c.outcome.shortcode].clicks| == 1
  {
  }

  /**
    With a validity of 0 minutes the entry is still served at its creation instant and
    expired at every later one.
  */
  lemma ZeroValidityExpiresAfterCreation(m: Entries, url: string, code: Option<string>,
                                         draws: seq<Codes.Draw>, now: int,
                                         parsesAsUrl: string -> bool, port: string,
                                         at: int, clickTime: int, referer: Option<string>,
                                         location: Option<Location>)
    requires Create(m, CreateRequest(url, Some(0), code), draws, now, parsesAsUrl, port).outcome.Created?
    ensures var c := Create(m, CreateRequest(url, Some(0), code), draws, now, parsesAsUrl, port);
      var r := Resolve(c.entries, c.outcome.shortcode, at, clickTime, referer, location);
      (at == now ==> r.outcome.Redirect?) && (at > now ==> r.outcome == Expired)
  {
    var req := CreateRequest(url, Some(0), code);
    CreateInsertsOneFreshEntry(m, req, draws, now, parsesAsUrl, port);
    assert ExpiryTime(now, Validity(req)) == now;
  }

  // ---------------------------------------------------------------------------------------
  // Invariants over any sequence of requests

  /**
    What every stored entry satisfies: its URL has an http(s) scheme and parses, its
    lifetime is a whole number of minutes, and no click carries an empty referrer.
  */
  /*
    The whole-minutes clause follows from `validity` being an integer, which the model
    assumes of the request body; a fractional JSON `validity` would break it.
  */
  predicate EntryWellFormed(e: Entry, parsesAsUrl: string -> bool) {
    && Urls.HasHttpScheme(e.url)
    && parsesAsUrl(e.url)
    && (e.expiresAt - e.createdAt) % MillisPerMinute == 0
    && forall i :: 0 <= i < |e.clicks| ==> e.clicks[i].referrer != Some("")
  }

  lemma WholeMinutes(v: int)
    ensures (v * MillisPerMinute) % MillisPerMinute == 0
  {
  }

  predicate WellFormed(m: Entries, parsesAsUrl: string -> bool) {
    forall code :: code in m ==> EntryWellFormed(m[code], parsesAsUrl)
  }

  /** `e'` is `e` with zero or more clicks appended: the only change an entry ever sees. */
  predicate EntryExtends(e: Entry, e': Entry) {
    && e'.url == e.url
    && e'.createdAt == e.createdAt
    && e'.expiresAt == e.expiresAt
    && |e.clicks| <= |e'.clicks|
    && e'.clicks[..|e.clicks|] == e.clicks
  }

  /** Every code present both before and after keeps its entry, up to appended clicks. */
  predicate Extends(m: Entries, m': Entries) {
    forall code :: code in m && code in m' ==> EntryExtends(m[code], m'[code])
  }

  lemma CreatePreservesWellFormed(m: Entries, req: CreateRequest, draws: seq<Codes.Draw>, now: int,
                                  parsesAsUrl: string -> bool, port: string)
    requires WellFormed(m, parsesAsUrl)
    ensures WellFormed(Create(m, req, draws, now, parsesAsUrl, port).entries, parsesAsUrl)
    ensures Extends(m, Create(m, req, draws, now, parsesAsUrl, port).entries)
    ensures forall k :: k in m ==> k in Create(m, req, draws, now, parsesAsUrl, port).entries
                                   && Create(m, req, draws, now, parsesAsUrl, port).entries[k] == m[k]
  {
    var s := Create(m, req, draws, now, parsesAsUrl, port);
    if s.outcome.Created? {
      CreateInsertsOneFreshEntry(m, req, draws, now, parsesAsUrl, port);
      var e := s.entries[s.outcome.shortcode];
      WholeMinutes(Validity(req));
      assert e.expiresAt - e.createdAt == Validity(req) * MillisPerMinute;
      assert EntryWellFormed(e, parsesAsUrl);
    }
    forall code | code in m && code in s.entries
      ensures EntryExtends(m[code], s.entries[code])
    {
      assert m[code].clicks[..|m[code].clicks|] == m[code].clicks;
    }
  }

  lemma ResolvePreservesWellFormed(m: Entries, code: string, now: int, clickTime: int,
                                   referer: Option<string>, location: Option<Location>,
                                   parsesAsUrl: string -> bool)
    requires WellFormed(m, parsesAsUrl)
    ensures WellFormed(Resolve(m, code, now, clickTime, referer, location).entries, parsesAsUrl)
    ensures Extends(m, Resolve(m, code, now, clickTime, referer, location).entries)
  {
    var s := Resolve(m, code, now, clickTime, referer, location);
    forall k | k in m && k in s.entries
      ensures EntryExtends(m[k], s.entries[k])
    {
      assert m[k].clicks[..|m[k].clicks|] == m[k].clicks;
      if k == code && code in m && now <= m[code].expiresAt {
        ResolveRecordsClick(m, code, now, clickTime, referer, location);
      }
    }
  }

  /** A redirect from a well-formed registry always goes to an http(s) URL that parses. */
  lemma RedirectTargetIsAbsolute(m: Entries, code: string, now: int, clickTime: int,
                                 referer: Option<string>, location: Option<Location>,
                                 parsesAsUrl: string -> bool)
    requires WellFormed(m, parsesAsUrl)
    requires Resolve(m, code, now, clickTime, referer, location).outcome.Redirect?
    ensures var t := Resolve(m, code, now, clickTime, referer, location).outcome.target;
      Urls.HasHttpScheme(t) && parsesAsUrl(t)
  {
  }

  /** One request to the service. */
  datatype Request =
    | Post(req: CreateRequest, draws: seq<Codes.Draw>, now: int)
    | Get(code: string, now: int, clickTime: int, referer: Option<string>, location: Option<Location>)

  function Apply(m: Entries, r: Request, parsesAsUrl: string -> bool, port: string): Entries {
    match r
    case Post(req, draws, now) => Create(m, req, draws, now, parsesAsUrl, port).entries
    case Get(code, now, clickTime, referer, location) => Resolve(m, code, now, clickTime, referer, location).entries
  }

  /** The registry after serving `requests` one after another, as the single-threaded server does. */
  function Run(m: Entries, requests: seq<Request>, parsesAsUrl: string -> bool, port: string): Entries
    decreases |requests|
  {
    if requests == [] then m
    else Run(Apply(m, requests[0], parsesAsUrl, port), requests[1..], parsesAsUrl, port)
  }

  /** Every registry the service reaches from a well-formed one (the empty one, say) is well formed. */
  lemma {:induction false} RunPreservesWellFormed(m: Entries, requests: seq<Request>,
                                                  parsesAsUrl: string -> bool, port: string)
    requires WellFormed(m, parsesAsUrl)
    ensures WellFormed(Run(m, requests, parsesAsUrl, port), parsesAsUrl)
    decreases |requests|
  {
    if requests != [] {
      var m' := Apply(m, requests[0], parsesAsUrl, port);
      match requests[0] {
        case Post(req, draws, now) =>
          CreatePreservesWellFormed(m, req, draws, now, parsesAsUrl, port);
        case Get(code, now, clickTime, referer, location) =>
          ResolvePreservesWellFormed(m, code, now, clickTime, referer, location, parsesAsUrl);
      }
      RunPreservesWellFormed(m', requests[1..], parsesAsUrl, port);
    }
  }
}
