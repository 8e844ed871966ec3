/** The HTTP-facing values shared by the service and the controller: status
    codes, `ResponseStatusException`, `ResponseJson`, and the URL check both
    `shortenUrl` entry points run before touching any state. */
module Web {
  import opened Wrappers
  import opened JavaText

  datatype HttpStatus = Found | BadRequest | NotFound

  datatype ResponseStatusException = ResponseStatusException(status: HttpStatus, reason: string)

  datatype ResponseJson = ResponseJson(shortUrl: string, originalUrl: string, message: string)

  const EmptyUrlMessage := "URL cannot be empty. Please enter a valid URL."
  const InvalidUrlMessage := "Invalid URL format. Please enter a valid URL starting with http:// or https://"
  const ShortenedMessage := "Url shortened successfully"
  const NotFoundMessage := "Shortened URL not found"

  /** The validation of a URL handed to `shortenUrl` (`None` is Java's null):
      `None` when it passes, otherwise the BAD_REQUEST to throw. A null or
      blank URL is reported as empty before the validator is consulted;
      `isValidUrl` is the http/https `UrlValidator`, whose rules are not part
      of this model. */
  function CheckUrl(url: Option<string>, isValidUrl: string -> bool): (r: Option<ResponseStatusException>)
    ensures r.None? <==> url.Some? && !IsBlank(url.value) && isValidUrl(url.value)
    ensures r.Some? ==> r.value.status == BadRequest
    ensures r.Some? && (url.None? || IsBlank(url.value)) ==> r.value.reason == EmptyUrlMessage
    ensures r.Some? && url.Some? && !IsBlank(url.value) ==> r.value.reason == InvalidUrlMessage
  {
    if url.None? || IsBlank(url.value) then
      Some(ResponseStatusException(BadRequest, EmptyUrlMessage))
    else if !isValidUrl(url.value) then
      Some(ResponseStatusException(BadRequest, InvalidUrlMessage))
    else
      None
  }
}
