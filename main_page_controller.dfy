/** The in-memory variant (`MainPageController`): a map from code to URL and
    an id counter starting at 1000; shortening draws exactly one id and puts
    without checking for an existing code, and resolving answers with a 302. */
module Controller {
  import opened Wrappers
  import opened Web
  import opened Hashids

  const InitialId: nat := 1000
  /** The fixed prefix of every short URL this controller hands out. */
  const LocalBaseUrl := "http://localhost:8080/"
  const NotFoundPage := "/errors/not-found.html"
  const InvalidUrlPage := "/errors/invalid-url.html"

  /** A bodiless response: its status and its Location header. */
  datatype RedirectResponse = RedirectResponse(status: HttpStatus, location: string)

  class MainPageController {
    var urlMap: map<string, string>
    /** The last id drawn. */
    var idGenerator: nat
    /** `new Hashids("my-secret-salt-2026", 6).encode`. */
    const encode: Encoder
    /** The http/https `UrlValidator`. */
    const isValidUrl: string -> bool
    /** Whether `URI.create` accepts the string. */
    const isUri: string -> bool

    /** Every key of the map is the code of an id drawn so far. */
    ghost predicate Valid()
      reads this
    {
      InitialId <= idGenerator && Injective(encode) &&
      urlMap.Keys <= Issued(encode, InitialId, idGenerator)
    }

    constructor (encode: Encoder, isValidUrl: string -> bool, isUri: string -> bool)
      requires Injective(encode)
      ensures Valid()
      ensures urlMap == map[] && idGenerator == InitialId
      ensures this.encode == encode && this.isValidUrl == isValidUrl && this.isUri == isUri
    {
      urlMap := map[];
      idGenerator := InitialId;
      this.encode := encode;
      this.isValidUrl := isValidUrl;
      this.isUri := isUri;
    }

    /** `redirectToOriginalUrl`: always a 302; to the stored URL when the
        code is known and `URI.create` accepts it, to the not-found page for
        an unknown code, to the invalid-url page for an unparsable URL. */
    function RedirectToOriginalUrl(hashCode: string): (r: RedirectResponse)
      reads this
      ensures r.status == Found
      ensures hashCode !in urlMap ==> r.location == NotFoundPage
      ensures hashCode in urlMap && isUri(urlMap[hashCode]) ==> r.location == urlMap[hashCode]
      ensures hashCode in urlMap && !isUri(urlMap[hashCode]) ==> r.location == InvalidUrlPage
      // the Location is a stored URL or one of the two error pages, never anything else
      ensures r.location in urlMap.Values || r.location in {NotFoundPage, InvalidUrlPage}
    {
      if hashCode !in urlMap then RedirectResponse(Found, NotFoundPage)
      else if !isUri(urlMap[hashCode]) then RedirectResponse(Found, InvalidUrlPage)
      else RedirectResponse(Found, urlMap[hashCode])
    }

    /** `shortenUrl`: validate, draw the next id, encode it and put the URL
        under that code. There is no existence check, but since every key
        comes from an id drawn earlier and the encoder is injective, the put
        never overwrites a stored URL. */
    method ShortenUrl(url: Option<string>) returns (r: Result<ResponseJson, ResponseStatusException>)
      requires Valid()
      modifies this
      ensures Valid()
      // a rejected URL is reported as the validation says and changes nothing
      ensures r.Err? <==> CheckUrl(url, isValidUrl).Some?
      ensures r.Err? ==> r.error == CheckUrl(url, isValidUrl).value
      ensures r.Err? ==> urlMap == old(urlMap) && idGenerator == old(idGenerator)
      // exactly one id is drawn, its code is new, and only that key changes
      ensures r.Ok? ==> idGenerator == old(idGenerator) + 1
      ensures r.Ok? ==> var code := encode(idGenerator);
        code !in old(urlMap)
        && urlMap == old(urlMap)[code := url.value]
        && r.value == ResponseJson(LocalBaseUrl + code, url.value, ShortenedMessage)
      // following the short URL leads back to the URL, or to the invalid-url
      // page when URI.create rejects it
      ensures r.Ok? ==> var code := r.value.shortUrl[|LocalBaseUrl|..];
        RedirectToOriginalUrl(code).location == (if isUri(url.value) then url.value else InvalidUrlPage)
    {
      var rejection := CheckUrl(url, isValidUrl);
      if rejection.Some? {
        return Err(rejection.value);
      }
      IssuedNext(encode, InitialId, idGenerator);
      LaterNotIssued(encode, InitialId, idGenerator, idGenerator + 1);
      idGenerator := idGenerator + 1;
      var hashCode := encode(idGenerator);
      var shortenUrl := LocalBaseUrl + hashCode;
      urlMap := urlMap[hashCode := url.value];
      r := Ok(ResponseJson(shortenUrl, url.value, ShortenedMessage));
      assert r.value.shortUrl[|LocalBaseUrl|..] == hashCode;
    }
  }
}
