/** The request handling around the core: reading and checking the JSON
    body, the `/formats`, `/download` and `/download_file/<id>` routes, and
    the status each outcome maps to. The extraction tool is a parameter: a
    function from the URL (and format id) to a result or an error message. */
module Routes {
  import opened Wrappers
  import Text
  import Url
  import Formats
  import Normalizer
  import ArtifactStore

  /** One field of a JSON request body: a string, or any other JSON value
      (`null`, a number, a list, an object), on which `.strip()` raises. */
  datatype Param = Str(s: string) | NotStr

  /** `request.get_json(silent=True)`: an object, or anything else (a body
      that is not JSON yields `None`); on anything else `.get` raises. */
  datatype Body = Object(fields: map<string, Param>) | NotObject

  datatype Response =
    | FormatList(formats: seq<Formats.FormatOption>)  // 200, `{"formats": [...]}`
    | DownloadLink(url: string)                       // 200, `{"download_url": ...}`
    | File(artifact: ArtifactStore.Artifact)          // 200, the file as an attachment
    | JsonError(status: nat, error: string)           // `{"error": ...}` with a status
    | Abort(status: nat)                              // `abort(404)`, or 500 for an exception no handler catches

  /** The response together with the artifact table after the request. */
  datatype Outcome = Outcome(store: ArtifactStore.Store, response: Response)

  const InvalidUrlMessage := "Invalid or missing YouTube URL"
  const MissingFormatMessage := "Missing format_id"

  /** `data.get(key, '')` when it is a string (absent reads as empty);
      `None` when `.strip()` on it would raise. */
  function RawParam(fields: map<string, Param>, key: string): Option<string>
  {
    if key !in fields then Some("")
    else match fields[key]
      case Str(s) => Some(s)
      case NotStr => None
  }

  // ---- `/download`: checks made before anything is dispatched --------------

  /** What the top of `download_video` decides: dispatch the stripped inputs,
      or answer at once. */
  datatype Checked = Dispatch(url: string, formatId: string) | Answer(response: Response)

  /** The input checks of `download_video`: both fields are read and
      stripped, then the URL is checked, then the format id. */
  function CheckDownload(body: Body): (c: Checked)
    ensures c.Dispatch? <==>
              && body.Object?
              && RawParam(body.fields, "url").Some?
              && RawParam(body.fields, "format_id").Some?
              && Url.IsValidYoutubeUrl(Text.Strip(RawParam(body.fields, "url").value))
              && Text.Strip(RawParam(body.fields, "format_id").value) != ""
    ensures c.Dispatch? ==>
              && c.url == Text.Strip(RawParam(body.fields, "url").value)
              && c.formatId == Text.Strip(RawParam(body.fields, "format_id").value)
    ensures c.Dispatch? ==> Url.IsValidYoutubeUrl(c.url) && c.formatId != ""
    ensures c.Answer? ==> (c.response.JsonError? && c.response.status == 400) || c.response == Abort(500)
    ensures body.NotObject? || RawParam(body.fields, "url").None? || RawParam(body.fields, "format_id").None? ==>
              c == Answer(Abort(500))
  {
    match body
    case NotObject => Answer(Abort(500))
    case Object(fields) =>
      var rawUrl := RawParam(fields, "url");
      var rawFormat := RawParam(fields, "format_id");
      if rawUrl.None? || rawFormat.None? then Answer(Abort(500))
      else
        var url := Text.Strip(rawUrl.value);
        var formatId := Text.Strip(rawFormat.value);
        if !Url.IsValidYoutubeUrl(url) then Answer(JsonError(400, InvalidUrlMessage))
        else if formatId == "" then Answer(JsonError(400, MissingFormatMessage))
        else Dispatch(url, formatId)
  }

  /** A URL that fails the check is answered with 400 and the URL message,
      whatever the format id, once both fields are strings. */
  lemma InvalidUrlRejected(fields: map<string, Param>)
    requires RawParam(fields, "url").Some? && RawParam(fields, "format_id").Some?
    requires !Url.IsValidYoutubeUrl(Text.Strip(RawParam(fields, "url").value))
    ensures CheckDownload(Object(fields)) == Answer(JsonError(400, InvalidUrlMessage))
  {
  }

  /** A format id that is empty or only whitespace is answered with 400 and
      the format message, once the URL has passed. */
  lemma BlankFormatRejected(fields: map<string, Param>)
    requires RawParam(fields, "url").Some? && RawParam(fields, "format_id").Some?
    requires Url.IsValidYoutubeUrl(Text.Strip(RawParam(fields, "url").value))
    requires Text.AllSpace(RawParam(fields, "format_id").value)
    ensures CheckDownload(Object(fields)) == Answer(JsonError(400, MissingFormatMessage))
  {
    Text.StripEmptyIff(RawParam(fields, "format_id").value);
  }

  /** `download_video`: the checks, then the download task (`fetch`), then
      the new entry under `id` in the table. `id` stands for the
      `uuid4()` the task draws. */
  function Download(
    store: ArtifactStore.Store,
    body: Body,
    fetch: (string, string) -> Result<ArtifactStore.Artifact>,
    id: string): (r: Outcome)
    ensures r.response.DownloadLink? <==>
              CheckDownload(body).Dispatch? && fetch(CheckDownload(body).url, CheckDownload(body).formatId).Success?
    ensures r.response.DownloadLink? ==>
              && r.response.url == "/download_file/" + id
              && r.store == ArtifactStore.Put(store, id, fetch(CheckDownload(body).url, CheckDownload(body).formatId).value)
    ensures !r.response.DownloadLink? ==> r.store == store
    ensures CheckDownload(body).Answer? ==> r.response == CheckDownload(body).response
    ensures CheckDownload(body).Dispatch? && fetch(CheckDownload(body).url, CheckDownload(body).formatId).Failure? ==>
              r.response == JsonError(500, "Error downloading video: " + fetch(CheckDownload(body).url, CheckDownload(body).formatId).message)
  {
    match CheckDownload(body)
    case Answer(response) => Outcome(store, response)
    case Dispatch(url, formatId) =>
      match fetch(url, formatId)
      case Failure(message) => Outcome(store, JsonError(500, "Error downloading video: " + message))
      case Success(artifact) =>
        Outcome(ArtifactStore.Put(store, id, artifact), DownloadLink("/download_file/" + id))
  }

  /** A request that fails the checks never reaches the download task: the
      answer does not depend on it, and the table is untouched. */
  lemma RejectedDownloadNotDispatched(
    store: ArtifactStore.Store,
    body: Body,
    fetch1: (string, string) -> Result<ArtifactStore.Artifact>,
    fetch2: (string, string) -> Result<ArtifactStore.Artifact>,
    id: string)
    ensures CheckDownload(body).Answer? ==>
              && Download(store, body, fetch1, id) == Download(store, body, fetch2, id)
              && Download(store, body, fetch1, id).store == store
  {
  }

  // ---- `/download_file/<id>` ----------------------------------------------

  /** `download_file`: pop the entry; 404 when there is none. */
  function DownloadFile(store: ArtifactStore.Store, id: string): (r: Outcome)
    ensures r.response.File? <==> id in store.entries
    ensures id in store.entries ==> r.response == File(store.entries[id])
    ensures !r.response.File? ==> r.response == Abort(404) && r.store == store
    ensures id !in r.store.entries
    ensures r.store.entries.Keys == store.entries.Keys - {id}
    ensures forall other :: other in r.store.entries ==> r.store.entries[other] == store.entries[other]
  {
    var taken := ArtifactStore.Take(store, id);
    match taken.artifact
    case None => Outcome(taken.store, Abort(404))
    case Some(a) => Outcome(taken.store, File(a))
  }

  /** The link a successful download returns serves the file once; asking
      again gets 404. */
  lemma DownloadLinkServesOnce(
    store: ArtifactStore.Store,
    body: Body,
    fetch: (string, string) -> Result<ArtifactStore.Artifact>,
    id: string)
    ensures Download(store, body, fetch, id).response.DownloadLink? ==>
            var after := Download(store, body, fetch, id).store;
            var c := CheckDownload(body);
            && DownloadFile(after, id).response == File(fetch(c.url, c.formatId).value)
            && DownloadFile(DownloadFile(after, id).store, id).response == Abort(404)
  {
  }

  // ---- `/formats` -----------------------------------------------------------

  /** `get_formats`: read and strip the URL, check it, ask the tool
      (`extract`) for the descriptors, and list them. */
  function FormatsRoute(body: Body, extract: string -> Result<seq<Formats.Descriptor>>): (r: Response)
    ensures r.FormatList? <==>
              && body.Object? && RawParam(body.fields, "url").Some?
              && Url.IsValidYoutubeUrl(Text.Strip(RawParam(body.fields, "url").value))
              && extract(Text.Strip(RawParam(body.fields, "url").value)).Success?
    ensures r.FormatList? ==>
              r.formats == Normalizer.Normalize(extract(Text.Strip(RawParam(body.fields, "url").value)).value)
    ensures body.NotObject? || RawParam(body.fields, "url").None? ==> r == Abort(500)
    ensures body.Object? && RawParam(body.fields, "url").Some? &&
            !Url.IsValidYoutubeUrl(Text.Strip(RawParam(body.fields, "url").value)) ==>
              r == JsonError(400, InvalidUrlMessage)
    ensures r.JsonError? && r.status == 500 ==>
              var url := Text.Strip(RawParam(body.fields, "url").value);
              extract(url).Failure? && r.error == "Failed to retrieve formats: " + extract(url).message
  {
    match body
    case NotObject => Abort(500)
    case Object(fields) =>
      match RawParam(fields, "url")
      case None => Abort(500)
      case Some(raw) =>
        var url := Text.Strip(raw);
        if !Url.IsValidYoutubeUrl(url) then JsonError(400, InvalidUrlMessage)
        else
          match extract(url)
          case Failure(message) => JsonError(500, "Failed to retrieve formats: " + message)
          case Success(ds) => FormatList(Normalizer.Normalize(ds))
  }

  /** An invalid URL gets 400 without the tool being asked: the answer is
      the same whatever the tool would have said. */
  lemma InvalidUrlSkipsExtraction(
    fields: map<string, Param>,
    extract1: string -> Result<seq<Formats.Descriptor>>,
    extract2: string -> Result<seq<Formats.Descriptor>>)
    ensures RawParam(fields, "url").Some? && !Url.IsValidYoutubeUrl(Text.Strip(RawParam(fields, "url").value)) ==>
              && FormatsRoute(Object(fields), extract1) == JsonError(400, InvalidUrlMessage)
              && FormatsRoute(Object(fields), extract1) == FormatsRoute(Object(fields), extract2)
  {
  }
}
