/**
  The server of backend/index.js with its state: the module-level `shortUrls` Map becomes
  the field `entries`, which the two route handlers update in place. Each handler is proved
  to leave the state and give the answer that the functions of module Registry describe,
  and to keep the registry well formed.
*/
module Service {
  import opened Wrappers
  import Codes
  import Urls
  import opened Registry

  class ShortUrlService {
    /** `shortUrls`: the registry, keyed by shortcode. */
    var entries: Entries
    /** Whether `new URL(s)` accepts `s` (the WHATWG URL parser, not modelled). */
    const parsesAsUrl: string -> bool
    /** `PORT`, which appears in the `shortUrl` of every creation answer. */
    const port: string

    ghost predicate Valid()
      reads this
    {
      WellFormed(entries, parsesAsUrl)
    }

    /** The server at start-up: `new Map()`. */
    constructor (parsesAsUrl: string -> bool, port: string)
      ensures Valid()
      ensures entries == map[] && this.parsesAsUrl == parsesAsUrl && this.port == port
    {
      entries := map[];
      this.parsesAsUrl := parsesAsUrl;
      this.port := port;
    }

    /**
      The code-selection loop: start from the caller's code, or else a generated one, and
      draw a fresh generated code while the current one is a key. `draws` are the successive
      results of `crypto.randomBytes(6)`; `None` when they run out before an unused code
      turns up.
    */
    method PickCode(shortcode: Option<string>, draws: seq<Codes.Draw>) returns (code: Option<string>)
      ensures code == SelectCode(entries.Keys, Candidates(PreferredCode(shortcode), draws))
      ensures code.Some? ==> code.value !in entries
    {
      var preferred := PreferredCode(shortcode);
      ghost var candidates := Candidates(preferred, draws);
      ghost var offset := PreferredCount(preferred);
      var c: string;
      var i := 0;
      if preferred.Some? {
        if |draws| > 0 {
          CandidateAt(preferred, draws, 0);
        }
        c := preferred.value;
      } else {
        if |draws| == 0 {
          return None;
        }
        CandidateAt(preferred, draws, 0);
        c := Codes.GenerateCode(draws[0]);
        i := 1;
      }
      while c in entries
        invariant 1 <= offset + i <= |candidates| && i <= |draws|
        invariant c == candidates[offset + i - 1]
        invariant SelectCode(entries.Keys, candidates) == SelectFrom(entries.Keys, candidates, offset + i - 1)
        decreases |draws| - i
      {
        if i == |draws| {
          return None;
        }
        CandidateAt(preferred, draws, i);
        c := Codes.GenerateCode(draws[i]);
        i := i + 1;
      }
      code := Some(c);
    }

    /** The `POST /shorturls` handler; `now` is its `Date.now()` reading. */
    method CreateShortUrl(req: CreateRequest, draws: seq<Codes.Draw>, now: int) returns (r: CreateOutcome)
      requires Valid()
      modifies this
      ensures Valid()
      ensures Step(r, entries) == Create(old(entries), req, draws, now, parsesAsUrl, port)
      ensures !r.Created? ==> entries == old(entries)
      ensures r.Created? ==>
        && r.shortcode !in old(entries)
        && entries == old(entries)[r.shortcode := Entry(Urls.NormalizeUrl(req.url), now,
                                                       ExpiryTime(now, Validity(req)), [])]
    {
      ghost var step := Create(entries, req, draws, now, parsesAsUrl, port);
      CreatePreservesWellFormed(entries, req, draws, now, parsesAsUrl, port);
      var url := Urls.NormalizeUrl(req.url);
      if !parsesAsUrl(url) {
        return InvalidUrl;
      }
      var picked := PickCode(req.shortcode, draws);
      if picked.None? {
        return CodesExhausted;
      }
      CreateInsertsOneFreshEntry(entries, req, draws, now, parsesAsUrl, port);
      var code := picked.value;
      var validity := req.validity.GetOr(DefaultValidity);
      var expiresAt := now + validity * MillisPerMinute;
      assert step == Step(Created(code, url, validity, expiresAt, ShortUrl(port, code)),
                          entries[code := Entry(url, now, expiresAt, [])]);
      entries := entries[code := Entry(url, now, expiresAt, [])];
      r := Created(code, url, validity, expiresAt, ShortUrl(port, code));
    }

    /**
      The `GET /:shortcode` handler: `now` is the `Date.now()` of the expiry test, `clickTime`
      the one stored in the click, `referer` the request header and `location` what the
      geolocation lookup returned for the requester's address.
    */
    method ResolveShortUrl(code: string, now: int, clickTime: int,
                           referer: Option<string>, location: Option<Location>) returns (r: ResolveOutcome)
      requires Valid()
      modifies this
      ensures Valid()
      ensures Step(r, entries) == Resolve(old(entries), code, now, clickTime, referer, location)
      ensures r == NotFound <==> code !in old(entries)
      ensures r == Expired <==> code in old(entries) && now > old(entries)[code].expiresAt
      ensures r == NotFound ==> entries == old(entries)
      ensures r == Expired ==> entries == old(entries) - {code}
      ensures r.Redirect? ==> Urls.HasHttpScheme(r.target) && parsesAsUrl(r.target)
      ensures r.Redirect? ==>
        && r.target == old(entries)[code].url
        && entries == old(entries)[code := old(entries)[code].(clicks := old(entries)[code].clicks
                                          + [Click(clickTime, ClickReferrer(referer), location)])]
    {
      if code !in entries {
        return NotFound;
      }
      var entry := entries[code];
      if now > entry.expiresAt {
        entries := entries - {code};
        return Expired;
      }
      var referrer := if referer.Some? && referer.value != "" then referer else None;
      entries := entries[code := entry.(clicks := entry.clicks + [Click(clickTime, referrer, location)])];
      r := Redirect(entry.url);
      ResolvePreservesWellFormed(old(entries), code, now, clickTime, referer, location, parsesAsUrl);
      RedirectTargetIsAbsolute(old(entries), code, now, clickTime, referer, location, parsesAsUrl);
    }
  }

  /**
    A client of the handlers' contracts: an entry created with a validity of 0 minutes is
    served at its creation instant, answered as expired one millisecond later, and not
    found after that.
  */
  method ZeroValidityScenario(parsesAsUrl: string -> bool, url: string, draws: seq<Codes.Draw>, now: int)
    returns (first: ResolveOutcome, second: ResolveOutcome, third: ResolveOutcome)
    requires parsesAsUrl(Urls.NormalizeUrl(url)) && |draws| > 0
    ensures first == Redirect(Urls.NormalizeUrl(url))
    ensures second == Expired && third == NotFound
  {
    var service := new ShortUrlService(parsesAsUrl, "3001");
    var created := service.CreateShortUrl(CreateRequest(url, Some(0), None), draws, now);
    assert Candidates(None, draws) != [];
    assert created.Created?;
    var code := created.shortcode;
    first := service.ResolveShortUrl(code, now, now, None, None);
    second := service.ResolveShortUrl(code, now + 1, now + 1, None, None);
    third := service.ResolveShortUrl(code, now + 2, now + 2, None, None);
  }
}
