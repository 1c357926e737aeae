/** The request handler of the speech-to-text proxy, as a pure function from the request, the
    process configuration and the transcription provider's behaviour to the response.

    What the handler awaits from the outside is an input here: the parsed JSON body (or the
    parse error), the `OPENAI_API_KEY` variable, and the provider, a function from the upload it
    is sent to its reply. The result records the upload the handler made, if any, so that "the
    provider is never called" and "the provider is called once, with these bytes" are statable. */
module SpeechToText {

  import opened Optional
  import opened Base64
  import opened ChunkedDecode

  type Headers = map<string, string>

  /** The cross-origin headers every response carries. */
  const CorsHeaders: Headers := map[
    "Access-Control-Allow-Origin" := "*",
    "Access-Control-Allow-Headers" := "authorization, x-client-info, apikey, content-type"]

  /** The headers of every JSON response: the cross-origin ones plus the content type. */
  const JsonHeaders: Headers := CorsHeaders["Content-Type" := "application/json"]

  /** The headers of the pre-flight answer as sent. The handler passes only the cross-origin
      ones; a `Response` built from a string body with no `Content-Type` of its own gets
      `text/plain;charset=UTF-8` from the host (the "extract a body" and "initialize a
      response" steps of the Fetch standard). */
  const PreflightHeaders: Headers := CorsHeaders["Content-Type" := "text/plain;charset=UTF-8"]

  const TranscriptionUrl: string := "https://api.openai.com/v1/audio/transcriptions"
  const TranscriptionModel: string := "whisper-1"
  const UploadFileName: string := "audio.webm"
  const UploadFileType: string := "audio/webm"

  const MissingAudioMessage: string := "Missing audio data"
  const MissingKeyMessage: string := "Missing OpenAI API key"
  const ProviderErrorPrefix: string := "OpenAI error: "

  /** The `audio` field of the parsed body. `Absent` stands for every non-string value that
      JavaScript treats as false (undefined, null, false, 0); the empty string is `Text("")`. */
  datatype AudioField = Absent | Text(s: string)

  /** The outcome of `const { audio } = await req.json()`. `Unparsable` is every exception this
      line throws: a body that is not JSON, and also a body that is JSON `null` (or
      `undefined`), whose destructuring throws a `TypeError` before `audio` is looked at. */
  datatype RequestBody = Unparsable(message: string) | Parsed(audio: AudioField)

  datatype Request = Request(httpMethod: string, body: RequestBody)

  /** `Deno.env.get("OPENAI_API_KEY")`, and the message of the error the host's `atob` throws. */
  datatype Environment = Environment(apiKey: Option<string>, decodeErrorMessage: string)

  /** The one outbound request: a multipart form with the audio file and the model name. */
  datatype Upload = Upload(
    url: string,
    authorization: string,
    file: seq<Byte>,
    fileName: string,
    fileType: string,
    model: string)

  /** What the provider call comes to: `fetch` throws, the response is not ok (with the text of
      its body), or it is ok and its JSON body has a `text` field or cannot be parsed. */
  datatype ProviderReply =
    | FetchFailed(message: string)
    | NotOk(body: string)
    | Transcribed(text: string)
    | UnreadableReply(message: string)

  /** The response body: the pre-flight's "ok", `{"text": ...}` or `{"error": ...}`. */
  datatype Body = Plain(content: string) | TextJson(text: string) | ErrorJson(error: string)

  datatype Response = Response(status: int, body: Body, headers: Headers)

  /** A response together with the upload the handler sent on the way, if any. */
  datatype Exchange = Exchange(response: Response, upload: Option<Upload>)

  /** `!audio` is false. */
  predicate AudioPresent(audio: AudioField)
  {
    audio.Text? && audio.s != ""
  }

  /** `!apiKey` is false. */
  predicate KeyPresent(apiKey: Option<string>)
  {
    apiKey.Some? && apiKey.value != ""
  }

  /** A request that gets past the pre-flight test, the parse, and the audio and key checks. */
  predicate PassesChecks(req: Request, env: Environment)
  {
    && req.httpMethod != "OPTIONS"
    && req.body.Parsed?
    && AudioPresent(req.body.audio)
    && KeyPresent(env.apiKey)
  }

  /** The request the handler builds from the decoded audio and the key. */
  function UploadOf(audio: seq<Byte>, apiKey: string): (u: Upload)
    ensures u.file == audio
  {
    Upload(TranscriptionUrl, "Bearer " + apiKey, audio, UploadFileName, UploadFileType, TranscriptionModel)
  }

  /** The catch block: status 500 and `{"error": message}`. */
  function Failure(message: string, upload: Option<Upload>): (x: Exchange)
    ensures x.response.status == 500 && x.response.body == ErrorJson(message)
  {
    Exchange(Response(500, ErrorJson(message), JsonHeaders), upload)
  }

  /** The messages the handler can report, apart from errors thrown by parsing, by `fetch` and
      by the provider's reply. */
  predicate KnownFailure(message: string, env: Environment)
  {
    || message == MissingAudioMessage
    || message == MissingKeyMessage
    || message == env.decodeErrorMessage
    || (|ProviderErrorPrefix| <= |message| && message[..|ProviderErrorPrefix|] == ProviderErrorPrefix)
  }

  /** The handler passed to `serve`. */
  function Handle(req: Request, env: Environment, provider: Upload -> ProviderReply): (x: Exchange)
    // the pre-flight answer, before anything else is looked at
    ensures req.httpMethod == "OPTIONS" ==> x == Exchange(Response(200, Plain("ok"), PreflightHeaders), None)
    // every other answer is JSON with the same cross-origin headers
    ensures req.httpMethod != "OPTIONS" ==> x.response.headers == JsonHeaders && !x.response.body.Plain?
    // a 500 exactly when the body is an error, a 200 otherwise
    ensures x.response.status == 500 <==> x.response.body.ErrorJson?
    ensures x.response.status != 500 ==> x.response.status == 200
    // the provider is called only for a present audio and key, with the decoded audio
    ensures x.upload.Some? ==>
      && req.httpMethod != "OPTIONS" && req.body.Parsed?
      && AudioPresent(req.body.audio) && KeyPresent(env.apiKey)
      && x.upload == Some(UploadOf(x.upload.value.file, env.apiKey.value))
      && DecodeBase64Chunks(req.body.audio.s, DefaultChunkSize) == Some(x.upload.value.file)
    // a transcript is exactly what the provider returned
    ensures x.response.body.TextJson? <==>
      x.upload.Some? && provider(x.upload.value).Transcribed?
    ensures x.response.body.TextJson? ==> x.response.body.text == provider(x.upload.value).text
    // an error the handler raises itself is one of its fixed messages
    ensures x.response.body.ErrorJson? && req.body.Parsed?
        && (x.upload.None? || provider(x.upload.value).NotOk?)
      ==> KnownFailure(x.response.body.error, env)
    // a body that cannot be read is reported with the parser's message
    ensures req.httpMethod != "OPTIONS" && req.body.Unparsable? ==> x == Failure(req.body.message, None)
    // with audio and key present the decode decides: its error is reported and nothing is sent,
    // or exactly its bytes are sent, and the answer follows the provider's reply
    ensures PassesChecks(req, env) ==>
      match DecodeBase64Chunks(req.body.audio.s, DefaultChunkSize)
      case None => x == Failure(env.decodeErrorMessage, None)
      case Some(bytes) =>
        var upload := UploadOf(bytes, env.apiKey.value);
        && x.upload == Some(upload)
        && match provider(upload)
           case Transcribed(t) => x.response == Response(200, TextJson(t), JsonHeaders)
           case NotOk(e) => x.response == Response(500, ErrorJson(ProviderErrorPrefix + e), JsonHeaders)
           case FetchFailed(m) => x.response == Response(500, ErrorJson(m), JsonHeaders)
           case UnreadableReply(m) => x.response == Response(500, ErrorJson(m), JsonHeaders)
  {
    if req.httpMethod == "OPTIONS" then
      Exchange(Response(200, Plain("ok"), PreflightHeaders), None)
    else
      match req.body
      case Unparsable(message) => Failure(message, None)
      case Parsed(audio) =>
        if !AudioPresent(audio) then Failure(MissingAudioMessage, None)
        else if !KeyPresent(env.apiKey) then Failure(MissingKeyMessage, None)
        else
          match DecodeBase64Chunks(audio.s, DefaultChunkSize)
          case None => Failure(env.decodeErrorMessage, None)
          case Some(bytes) =>
            var upload := UploadOf(bytes, env.apiKey.value);
            match provider(upload)
            case FetchFailed(message) => Failure(message, Some(upload))
            case NotOk(text) => Failure(ProviderErrorPrefix + text, Some(upload))
            case UnreadableReply(message) => Failure(message, Some(upload))
            case Transcribed(text) => Exchange(Response(200, TextJson(text), JsonHeaders), Some(upload))
  }

  // ---------------------------------------------------------------------------------------
  // Properties of the handler
  // ---------------------------------------------------------------------------------------

  /** Every response, pre-flight or not, carries the same cross-origin headers. */
  lemma CorsOnEveryResponse(req: Request, env: Environment, provider: Upload -> ProviderReply)
    ensures var h := Handle(req, env, provider).response.headers;
      forall name :: name in CorsHeaders ==> name in h && h[name] == CorsHeaders[name]
  {
  }

  /** The pre-flight answer depends on nothing but the method: not on the body, the
      configuration or the provider. */
  lemma PreflightIgnoresEverythingElse(
    body1: RequestBody, env1: Environment, provider1: Upload -> ProviderReply,
    body2: RequestBody, env2: Environment, provider2: Upload -> ProviderReply)
    ensures Handle(Request("OPTIONS", body1), env1, provider1)
         == Handle(Request("OPTIONS", body2), env2, provider2)
  {
  }

  /** A missing or empty `audio` is reported before the key is looked at, whatever the key,
      and the provider is not called. */
  lemma AudioCheckedFirst(httpMethod: string, audio: AudioField, env: Environment, provider: Upload -> ProviderReply)
    requires httpMethod != "OPTIONS" && !AudioPresent(audio)
    ensures Handle(Request(httpMethod, Parsed(audio)), env, provider) == Failure(MissingAudioMessage, None)
  {
  }

  /** With the audio present, a missing or empty key is reported, before any decoding, and the
      provider is not called. */
  lemma KeyCheckedSecond(httpMethod: string, audio: AudioField, env: Environment, provider: Upload -> ProviderReply)
    requires httpMethod != "OPTIONS" && AudioPresent(audio) && !KeyPresent(env.apiKey)
    ensures Handle(Request(httpMethod, Parsed(audio)), env, provider) == Failure(MissingKeyMessage, None)
  {
  }

  /** A provider answer that is not ok becomes a 500 whose error carries the provider's body;
      the provider was called exactly once (there is no retry). */
  lemma ProviderErrorSurfaced(req: Request, env: Environment, provider: Upload -> ProviderReply)
    requires req.httpMethod != "OPTIONS"
    requires Handle(req, env, provider).upload.Some?
    requires provider(Handle(req, env, provider).upload.value).NotOk?
    ensures var x := Handle(req, env, provider);
      x.response == Response(500, ErrorJson(ProviderErrorPrefix + provider(x.upload.value).body), JsonHeaders)
  {
  }

  /** End to end: the client encodes a non-empty recording, the proxy decodes it in slices and
      sends the provider exactly the recorded bytes, and the provider's transcript comes back
      with status 200. */
  lemma RecordingReachesProvider(
    httpMethod: string, recording: seq<Byte>, key: string, decodeError: string, text: string,
    provider: Upload -> ProviderReply)
    requires httpMethod != "OPTIONS" && |recording| > 0 && key != ""
    requires provider(UploadOf(recording, key)) == Transcribed(text)
    ensures var x := Handle(Request(httpMethod, Parsed(Text(Encode(recording)))), Environment(Some(key), decodeError), provider);
      x == Exchange(Response(200, TextJson(text), JsonHeaders), Some(UploadOf(recording, key)))
  {
    DefaultRoundTrip(recording);
  }

  /** An empty recording encodes to the empty string, which the handler reports as missing
      audio without calling the provider. */
  lemma EmptyRecordingIsMissingAudio(httpMethod: string, env: Environment, provider: Upload -> ProviderReply)
    requires httpMethod != "OPTIONS"
    ensures Handle(Request(httpMethod, Parsed(Text(Encode([])))), env, provider) == Failure(MissingAudioMessage, None)
  {
    assert Encode([]) == "";
  }
}
