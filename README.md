# URL shortener core, modelled in Dafny

A model of the behaviour of a Spring Boot URL shortener: the base-62 code
encoder, the persistent shortener service with its id counter and collision
loop, the Redis-backed idempotency cache, and the older in-memory controller
that keeps its URLs in a hash map.

- `base_conversion.dfy` (module `BaseConversion`): `convertToBase62String`.
  It is a method with the source's loop, proved equal to the specification
  function `Encode`. Beside it are a decoder `Decode` and lemmas that tie the
  two together: round trip, injectivity, no leading zero, output length, and a
  bijection with canonical numerals.
- `shortener_service.dfy` (module `ShortenerService`): class
  `UrlShortenerServiceImpl`. The repository is a `map` from code to row. The
  counter is a field starting at 1000. `ShortenUrl` validates, runs the
  collision loop (`GenerateHashCode`) and saves. `GetOriginalUrl` is a lookup
  that fails with NOT_FOUND.
- `cache_service.dfy` (module `Cache`): class `CacheServiceImpl`. The Redis
  keyspace is a `map` from prefixed key to `(value, expiresAt)`; it is shared
  and persists, so a new service starts over whatever it already holds. The
  clock is a parameter of each call; `GetOrCompute` reads it at `now` and
  writes at a later-or-equal `putNow`, so the supplier may take time. Whether a Redis call completes or throws is the
  `Backend` parameter. Failures are swallowed exactly where the source
  swallows them.
- `main_page_controller.dfy` (module `Controller`): class
  `MainPageController`, with `urlMap`, `idGenerator`, `ShortenUrl` and
  `RedirectToOriginalUrl`.
- Shared pieces:
  - `hashids.dfy`: the Hashids encoder as an injective `nat -> string`, and
    lemmas counting the codes of a range of ids.
  - `java_text.dfy`: `String.trim()`.
  - `web.dfy`: HTTP statuses, `ResponseStatusException`, `ResponseJson` and the
    URL check both `shortenUrl` methods run.
  - `wrappers.dfy`: `Option` and `Result`.

Parameters stand for the collaborators whose code is not part of this model:
- the Hashids `encode` function;
- the http/https `UrlValidator`;
- whether `URI.create` accepts a string;
- the configured `baseUrl`, salt, TTL and key prefix.

Java's `null` is `None`, for a URL and for a cached value alike. A `null` handed to the cache's `put` is stored like any other value (Spring's Redis serializers write it as an empty value), so `exists` finds the key while `get` reads it as absent.

Both shorteners require the encoder to be injective. A Hashids instance with a
fixed salt decodes each code back to its id, so distinct ids never share a
code. Under that assumption the model proves two things:
- The service's do-while collision loop ends after skipping at most as many
  ids as the repository has rows.
- The controller's unchecked `put` never overwrites a stored URL.

The model follows the code in these points:
- The collision loop has no retry limit. Its bound is proved from injectivity
  instead.
- `getOrCompute` takes no lock.
- A negative number encodes to the empty string.

## Model

| member | source | states |
|---|---|---|
| `BaseConversion.ConvertToBase62String` | src/main/java/com/shorten/url/shortenUrl/services/BaseConversion.java:7-20 | the prepend-and-divide loop returns exactly `Encode(number)`: "0" for 0, "" for a negative number (the loop never runs), the base-62 digits otherwise |
| `BaseConversion.Symbol` | src/main/java/com/shorten/url/shortenUrl/services/BaseConversion.java:8 | each digit 0..61 maps to a character in the ranges 0-9, A-Z, a-z |
| `BaseConversion.SymbolAt` | src/main/java/com/shorten/url/shortenUrl/services/BaseConversion.java:8 | the digit-to-symbol map is `charAt` on the source's 62-character alphabet |
| `BaseConversion.AlphabetMembership` | src/main/java/com/shorten/url/shortenUrl/services/BaseConversion.java:8 | a character is in the alphabet iff it is a digit, an upper-case or a lower-case ASCII letter |
| `BaseConversion.DigitValue` | src/main/java/com/shorten/url/shortenUrl/services/BaseConversion.java:8 | the inverse of the alphabet: the index of an alphabet character, whose symbol is that character |
| `BaseConversion.EncodeWellFormed` | src/main/java/com/shorten/url/shortenUrl/services/BaseConversion.java:8-19 | for every non-negative input the result is non-empty and each character belongs to the alphabet |
| `BaseConversion.NoLeadingZero` | src/main/java/com/shorten/url/shortenUrl/services/BaseConversion.java:15-18 | for a positive input the first character is never '0' |
| `BaseConversion.SingleDigit` | src/main/java/com/shorten/url/shortenUrl/services/BaseConversion.java:15-18 | inputs 1..61 give their single symbol |
| `BaseConversion.EncodeLength` | src/main/java/com/shorten/url/shortenUrl/services/BaseConversion.java:15-18 | the output length is the number of base-62 digits: 62^(len-1) <= n < 62^len |
| `BaseConversion.RoundTrip` | src/main/java/com/shorten/url/shortenUrl/services/BaseConversion.java:11-19 | reading the result most significant digit first, each symbol's alphabet index as its digit, gives back every non-negative input |
| `BaseConversion.Injective` | src/main/java/com/shorten/url/shortenUrl/services/BaseConversion.java:11-19 | distinct non-negative inputs give distinct strings |
| `BaseConversion.EncodeCanonical` | src/main/java/com/shorten/url/shortenUrl/services/BaseConversion.java:11-19 | every output for a non-negative input is a canonical numeral (no leading zero except "0") |
| `BaseConversion.EncodeDecode` | src/main/java/com/shorten/url/shortenUrl/services/BaseConversion.java:11-19 | every canonical numeral is the output for its value, so the encoder is a bijection between the naturals and the canonical numerals |
| `JavaText.Trim` | src/main/java/com/shorten/url/shortenUrl/services/impl/UrlShortenerServiceImpl.java:54 | `trim()` returns a slice of the string with only characters <= U+0020 outside it, and starts and ends with a kept character |
| `JavaText.BlankIff` | src/main/java/com/shorten/url/shortenUrl/services/impl/UrlShortenerServiceImpl.java:54 | `trim().isEmpty()` holds exactly when every character is <= U+0020 |
| `Web.CheckUrl` | src/main/java/com/shorten/url/shortenUrl/services/impl/UrlShortenerServiceImpl.java:53-66 | a URL passes iff it is non-null, not blank and accepted by the validator; otherwise BAD_REQUEST, with the "empty" message for null or blank and the "invalid format" message for the rest |
| `Hashids.LaterNotIssued` | src/main/java/com/shorten/url/shortenUrl/controller/MainPageController.java:57-61 | under an injective encoder the code of a newly drawn id differs from the codes of all earlier ids |
| `Hashids.IssuedCount` | src/main/java/com/shorten/url/shortenUrl/services/impl/UrlShortenerServiceImpl.java:70-73 | an injective encoder gives the ids lo+1..hi exactly hi-lo distinct codes |
| `Hashids.SkipTaken` | src/main/java/com/shorten/url/shortenUrl/services/impl/UrlShortenerServiceImpl.java:70-73 | each loop iteration whose code is taken shrinks the set of stored codes not yet skipped, so the loop terminates |
| `Hashids.SkippedAtMostStored` | src/main/java/com/shorten/url/shortenUrl/services/impl/UrlShortenerServiceImpl.java:70-73 | if the codes of ids lo+1..hi are all stored, there are at most as many such ids as stored codes |
| `ShortenerService.UrlShortenerServiceImpl.constructor` | src/main/java/com/shorten/url/shortenUrl/services/impl/UrlShortenerServiceImpl.java:25-49 | the counter starts at 1000 over a repository that may already hold rows; every row is keyed by its own code |
| `ShortenerService.UrlShortenerServiceImpl.GetOriginalUrl` | src/main/java/com/shorten/url/shortenUrl/services/impl/UrlShortenerServiceImpl.java:85-96 | returns the stored URL iff the code has a row, otherwise NOT_FOUND "Shortened URL not found"; it reads the state and changes nothing |
| `ShortenerService.UrlShortenerServiceImpl.GenerateHashCode` | src/main/java/com/shorten/url/shortenUrl/services/impl/UrlShortenerServiceImpl.java:68-73 | ids are drawn consecutively; every skipped id's code was stored, the chosen code is not, and at most as many ids as rows are skipped |
| `ShortenerService.UrlShortenerServiceImpl.ShortenUrl` | src/main/java/com/shorten/url/shortenUrl/services/impl/UrlShortenerServiceImpl.java:51-83 | a rejected URL gives BAD_REQUEST with counter and repository unchanged; on success the counter advances by k+1 when the first k candidate codes were taken, the code was not stored before, the repository gains exactly that row, the answer is (baseUrl + code, url, "Url shortened successfully"), and resolving the code returns the URL |
| `Controller.MainPageController.constructor` | src/main/java/com/shorten/url/shortenUrl/controller/MainPageController.java:32-35 | an empty map and a counter at 1000 |
| `Controller.MainPageController.ShortenUrl` | src/main/java/com/shorten/url/shortenUrl/controller/MainPageController.java:37-75 | a rejected URL gives BAD_REQUEST with no state change; on success exactly one id is drawn, the map gains code -> url and keeps every other key, the code was not a key before, the answer is ("http://localhost:8080/" + code, url, "Url shortened successfully"), and redirecting on the code leads to the URL (or to the invalid-url page when `URI.create` rejects it) |
| `Controller.MainPageController.RedirectToOriginalUrl` | src/main/java/com/shorten/url/shortenUrl/controller/MainPageController.java:78-109 | always 302; Location is the stored URL for a known code, "/errors/not-found.html" for an unknown one, "/errors/invalid-url.html" when the stored URL does not parse; never any other Location; reads the state and changes nothing |
| `Cache.CacheServiceImpl.constructor` | src/main/java/com/shorten/url/shortenUrl/services/impl/CacheServiceImpl.java:23-30 | starts over the existing keyspace, unchanged; the default TTL and key prefix are the configured ones, 10 and "urlshortener:" when not configured |
| `Cache.CacheServiceImpl.Get` | src/main/java/com/shorten/url/shortenUrl/services/impl/CacheServiceImpl.java:32-47 | returns the value under keyPrefix + key iff a live, non-null entry is there and the backend answers; empty when nothing live is stored, when the stored value is `null`, or when the backend fails |
| `Cache.CacheServiceImpl.Exists` | src/main/java/com/shorten/url/shortenUrl/services/impl/CacheServiceImpl.java:95-105 | true iff keyPrefix + key is live and the backend answers (false on failure), whatever it holds; every hit of `Get` exists, and a key that exists but reads as empty holds a `null` |
| `Cache.CacheServiceImpl.PutWithTtl` | src/main/java/com/shorten/url/shortenUrl/services/impl/CacheServiceImpl.java:54-63 | stores (value, now + ttl) under keyPrefix + key and nothing else; the key exists and `Get` returns the value (empty for a `null`) until the expiry, and neither after; a backend failure leaves the store unchanged |
| `Cache.CacheServiceImpl.Put` | src/main/java/com/shorten/url/shortenUrl/services/impl/CacheServiceImpl.java:49-52 | `put` with the configured default TTL |
| `Cache.CacheServiceImpl.Delete` | src/main/java/com/shorten/url/shortenUrl/services/impl/CacheServiceImpl.java:65-74 | removes keyPrefix + key whatever its expiry and keeps every other key; a backend failure changes nothing |
| `Cache.CacheServiceImpl.GetOrCompute` | src/main/java/com/shorten/url/shortenUrl/services/impl/CacheServiceImpl.java:76-93 | a hit returns the cached value, stores nothing and runs no supplier; a miss (nothing live, a stored `null`, or a failed read) runs the supplier exactly once and then either stores its value, `null` included, with the default TTL and returns it, or stores nothing and propagates its exception; the write is timed at `putNow`, not before the read, and the written value answers from then on, a `null` as a miss |
| `Cache.RepeatedWithinTtl` | src/main/java/com/shorten/url/shortenUrl/services/CacheService.java:38-46 | two calls with one key, the first on a miss and the second inside the TTL of the first's write: a non-null first result is returned by both and the supplier runs once in all; a `null` first result is recomputed, so the second call runs its own supplier and returns its outcome |

## Left out

- Concurrency is not modelled: `AtomicLong` atomicity, races between the existence check and `save`, and concurrent `getOrCompute` callers. Every call is a sequential step.
- `long` overflow of the counters is not modelled, and neither are the `int` range limits of `convertToBase62String`. Numbers are unbounded.
- The Hashids library, Apache `UrlValidator` and `URI.create` are parameters, not implementations. Their internals are not visible. This includes the code alphabet, salt scrambling and minimum length of Hashids codes.
- The JPA repository is a map from code to `(hashCode, originalUrl)`. The `createdAt` wall-clock timestamp, the column length limits and database-side uniqueness errors are not part of this model.
- Redis transport, serialization, the `(T)` cast in `get`, and all logging are not modelled. The `System.out.println` of the map in the controller is not modelled either.
- `Cache.CacheServiceImpl.Exists`: the model assumes a `null` value is written as an empty value, as Spring's Redis serializers do. A serializer that refuses `null`, making `put` throw (and the error be swallowed), is not modelled.
- `Cache.CacheServiceImpl.PutWithTtl`: a TTL that is not positive stores nothing. How the Redis client itself treats such a TTL is not modelled. TTLs and the clock are whole seconds; a `Duration` with a sub-second part is not modelled.
- `Controller.MainPageController.ShortenUrl`: the catch-all that turns an unexpected exception into INTERNAL_SERVER_ERROR is not modelled, because no modelled step throws one.
- `Controller.MainPageController.RedirectToOriginalUrl`: the Location header holds `URI.create(url).toASCIIString()`, so non-ASCII characters in a stored URL are percent-encoded there. The model returns the stored string itself.
- `Controller.MainPageController.RedirectToOriginalUrl`: the catch-all that redirects to "/errors/server-error.html" is not modelled, for the same reason.
- Request fingerprinting and caller-identity resolution are not modelled: none of the four modelled classes derives a cache key or a caller identity.
- HTTP routing and the bean-validation annotations on `UrlRequest` are not modelled. `GlobalExceptionHandler`, `ViewController` and the browser script are also out.
