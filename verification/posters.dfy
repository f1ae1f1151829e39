/** fetch_poster: the poster URL for one movie, given what the metadata API answered.

    The HTTP request and the JSON decoding are abstracted into a `Response`: either the
    request or the parse failed (any exception, all caught by the bare `except`), or the
    body was read and its `poster_path` field is absent or present with some text. */
module Posters {
  import opened Common

  datatype Response = Failed | Answered(posterPath: Option<string>)

  const ImageBase := "https://image.tmdb.org/t/p/w500"
  const NoImageUrl := "https://via.placeholder.com/500x750?text=No+Image"
  const ErrorImageUrl := "https://via.placeholder.com/500x750?text=Error"

  /** Python's truthiness test on the `poster_path` value: present and non-empty. */
  predicate HasPoster(resp: Response)
  {
    resp.Answered? && resp.posterPath.Some? && resp.posterPath.value != ""
  }

  function FetchPoster(resp: Response): (url: string)
    ensures HasPoster(resp) <==> ImageBase <= url
    ensures resp.Failed? <==> url == ErrorImageUrl
    ensures url != ""
  {
    // The three kinds of URL already differ at their ninth or 42nd character.
    assert ImageBase[8] != ErrorImageUrl[8] && ImageBase[8] != NoImageUrl[8] && NoImageUrl[41] != ErrorImageUrl[41];
    match resp
    case Failed => ErrorImageUrl
    case Answered(path) =>
      if path.Some? && path.value != "" then ImageBase + path.value else NoImageUrl
  }

  /** The poster path a URL built by FetchPoster carries, if it is an image URL. */
  function PosterPathOf(url: string): Option<string>
  {
    if ImageBase <= url then Some(url[|ImageBase|..]) else None
  }

  /** FetchPoster loses nothing: an image URL gives back exactly the poster path it was built
      from, and the two placeholders are told apart from it and from each other. */
  lemma FetchPosterInverse(resp: Response)
    ensures PosterPathOf(FetchPoster(resp)) == if HasPoster(resp) then resp.posterPath else None
    ensures FetchPoster(resp) == NoImageUrl <==> resp.Answered? && !HasPoster(resp)
  {
    var url := FetchPoster(resp);
    if HasPoster(resp) {
      assert url[|ImageBase|..] == resp.posterPath.value;
      assert ImageBase[8] != NoImageUrl[8];
    }
  }
}
