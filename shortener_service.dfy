/** The persistent shortener (`UrlShortenerServiceImpl`): an id counter that
    starts at 1000, a repository of shortened URLs keyed by their code, and a
    collision loop that draws ids until their code is unused. */
module ShortenerService {
  import opened Wrappers
  import opened Web
  import opened Hashids

  /** A stored row: the code and the URL it stands for. */
  datatype ShortenedUrl = ShortenedUrl(hashCode: string, originalUrl: string)

  /** The counter's initial value; the first id handed out is one more. */
  const InitialId: nat := 1000

  class UrlShortenerServiceImpl {
    /** The repository's rows, by code (the column is unique). */
    var repository: map<string, ShortenedUrl>
    /** The last id drawn. */
    var idGenerator: nat
    /** `hashids.encode`, configured with the salt and minimum length. */
    const encode: Encoder
    /** The http/https `UrlValidator`. */
    const isValidUrl: string -> bool
    /** The configured base URL short codes are appended to. */
    const baseUrl: string

    ghost predicate Valid()
      reads this
    {
      InitialId <= idGenerator && Injective(encode) &&
      forall code :: code in repository ==> repository[code].hashCode == code
    }

    /** A fresh service over a repository that may already hold rows, for
        instance from before a restart reset the counter. */
    constructor (rows: map<string, ShortenedUrl>, encode: Encoder, isValidUrl: string -> bool, baseUrl: string)
      requires Injective(encode)
      requires forall code :: code in rows ==> rows[code].hashCode == code
      ensures Valid()
      ensures repository == rows && idGenerator == InitialId
      ensures this.encode == encode && this.isValidUrl == isValidUrl && this.baseUrl == baseUrl
    {
      repository := rows;
      idGenerator := InitialId;
      this.encode := encode;
      this.isValidUrl := isValidUrl;
      this.baseUrl := baseUrl;
    }

    /** `getOriginalUrl`: the URL stored under `hashCode`, or NOT_FOUND. */
    function GetOriginalUrl(hashCode: string): (r: Result<string, ResponseStatusException>)
      reads this
      ensures r.Ok? <==> hashCode in repository
      ensures r.Ok? ==> r.value == repository[hashCode].originalUrl
      ensures r.Err? ==> r.error.status == NotFound && r.error.reason == NotFoundMessage
    {
      if hashCode in repository then Ok(repository[hashCode].originalUrl)
      else Err(ResponseStatusException(NotFound, NotFoundMessage))
    }

    /** The collision loop of `shortenUrl`: draw the next id and encode it,
        again and again while the repository already has a row for the code.
        With an injective encoder every drawn id gives a new code, so at most
        |repository| ids are skipped before an unused code turns up. */
    method GenerateHashCode() returns (hashCode: string)
      requires Valid()
      modifies this`idGenerator
      ensures Valid()
      ensures hashCode == encode(idGenerator) && hashCode !in repository
      ensures old(idGenerator) < idGenerator <= old(idGenerator) + |repository| + 1
      ensures forall id: nat :: old(idGenerator) < id < idGenerator ==> encode(id) in repository
    {
      ghost var start := idGenerator;
      idGenerator := idGenerator + 1;
      hashCode := encode(idGenerator);
      while hashCode in repository
        invariant start < idGenerator && hashCode == encode(idGenerator)
        invariant Issued(encode, start, idGenerator - 1) <= repository.Keys
        decreases repository.Keys - Issued(encode, start, idGenerator - 1)
      {
        SkipTaken(encode, repository.Keys, start, idGenerator - 1);
        idGenerator := idGenerator + 1;
        hashCode := encode(idGenerator);
      }
      SkippedAtMostStored(encode, repository.Keys, start, idGenerator - 1);
      forall id: nat | start < id < idGenerator ensures encode(id) in repository {
        assert encode(id) in Issued(encode, start, idGenerator - 1);
      }
    }

    /** `shortenUrl`: validate, draw a code no row uses yet, save the row and
        answer with the short URL. */
    method ShortenUrl(originalUrl: Option<string>) returns (r: Result<ResponseJson, ResponseStatusException>)
      requires Valid()
      modifies this
      ensures Valid()
      // a rejected URL is reported as the validation says and changes nothing
      ensures r.Err? <==> CheckUrl(originalUrl, isValidUrl).Some?
      ensures r.Err? ==> r.error == CheckUrl(originalUrl, isValidUrl).value
      ensures r.Err? ==> repository == old(repository) && idGenerator == old(idGenerator)
      // ids are drawn consecutively: every skipped id's code was taken, the
      // chosen one was not, and no more ids are skipped than there are rows
      ensures r.Ok? ==> old(idGenerator) < idGenerator <= old(idGenerator) + |old(repository)| + 1
      ensures r.Ok? ==> forall id: nat :: old(idGenerator) < id < idGenerator ==> encode(id) in old(repository)
      ensures r.Ok? ==> encode(idGenerator) !in old(repository)
      // the row is added and nothing else changes; the answer carries the code
      ensures r.Ok? ==> var code := encode(idGenerator);
        repository == old(repository)[code := ShortenedUrl(code, originalUrl.value)]
        && r.value == ResponseJson(baseUrl + code, originalUrl.value, ShortenedMessage)
      // resolving the code just handed out gives back the URL
      ensures r.Ok? ==> GetOriginalUrl(r.value.shortUrl[|baseUrl|..]) == Ok(originalUrl.value)
    {
      var rejection := CheckUrl(originalUrl, isValidUrl);
      if rejection.Some? {
        return Err(rejection.value);
      }
      var url := originalUrl.value;
      var hashCode := GenerateHashCode();
      var shortenUrl := baseUrl + hashCode;
      repository := repository[hashCode := ShortenedUrl(hashCode, url)];
      r := Ok(ResponseJson(shortenUrl, url, ShortenedMessage));
      assert r.value.shortUrl[|baseUrl|..] == hashCode;
    }
  }
}
