/** The audio hook from src/hooks/useAudioSubmitcopy.ts: `fetchAudioStream`
    posts text and a voice and checks the response; `submitText` keeps
    `loading`, `error` and `audioUrl` as it goes. The network, the response
    body and `URL.createObjectURL` are inputs. */
module AudioSubmit {
  import opened Wrappers

  /** The path, under the configured API address, that audio is requested from. */
  const AudioStreamPath: string := "/audio/stream"
  const NotOkMessage: string := "Network response was not ok"
  const UnknownErrorMessage: string := "An unknown error occurred"

  /** The `mode` argument: `'woman'` or `'man'`, nothing else. */
  datatype Voice = Woman | Man

  /** The string the voice is sent as. */
  function VoiceName(mode: Voice): (name: string)
    ensures name == "woman" || name == "man"
    ensures name == "woman" <==> mode == Woman
  {
    match mode
    case Woman => "woman"
    case Man => "man"
  }

  /** The POST body `{ text, mode }` sent to the audio path. */
  datatype AudioRequest = AudioRequest(path: string, text: string, mode: string)

  /** The request for `text` in voice `mode`. */
  function RequestFor(text: string, mode: Voice): (request: AudioRequest)
    ensures request.path == AudioStreamPath
    ensures request.text == text
    ensures request.mode == VoiceName(mode)
  {
    AudioRequest(AudioStreamPath, text, VoiceName(mode))
  }

  /** The request carries its text and voice unchanged: different calls send
      different requests. */
  lemma RequestForInjective(t1: string, m1: Voice, t2: string, m2: Voice)
    ensures RequestFor(t1, m1) == RequestFor(t2, m2) <==> t1 == t2 && m1 == m2
  {
    if RequestFor(t1, m1) == RequestFor(t2, m2) {
      assert VoiceName(m1) == VoiceName(m2);
    }
  }

  /** An audio body, known only by identity. */
  datatype Blob = Blob(id: nat)

  /** How `fetch(...)` settles: rejected with a thrown value, or a response
      whose `ok` flag and `blob()` outcome are given. */
  datatype AudioFetch =
    | Rejected(thrown: Thrown)
    | Responded(ok: bool, blob: Result<Blob, Thrown>)

  /** `fetchAudioStream`: a response that is not ok throws `Network response
      was not ok`; otherwise the body is the result. */
  function FetchAudioStream(fetched: AudioFetch): (r: Result<Blob, Thrown>)
    ensures fetched.Rejected? ==> r == Failure(fetched.thrown)
    ensures fetched.Responded? && !fetched.ok ==> r == Failure(ErrorObject(NotOkMessage))
    ensures fetched.Responded? && fetched.ok ==> r == fetched.blob
  {
    match fetched
    case Rejected(thrown) => Failure(thrown)
    case Responded(ok, blob) =>
      if !ok then Failure(ErrorObject(NotOkMessage)) else blob
  }

  /** A blob comes back only from an ok response. */
  lemma BlobOnlyFromOkResponse(fetched: AudioFetch)
    ensures FetchAudioStream(fetched).Success? ==> fetched.Responded? && fetched.ok
  {
  }

  /** What a settled `submitText` leaves in `error` and `audioUrl`. */
  datatype AudioOutcome = AudioOutcome(error: Option<string>, audioUrl: Option<string>)

  /** The `try`/`catch` of `submitText`, given the URL `createObjectURL`
      would make for the blob: exactly one of `error` and `audioUrl` is set. */
  function SettleAudio(fetched: AudioFetch, objectUrl: string): (r: AudioOutcome)
    ensures r.error.Some? != r.audioUrl.Some?
    ensures r.audioUrl.Some? <==> FetchAudioStream(fetched).Success?
    ensures r.audioUrl.Some? ==> r.audioUrl.value == objectUrl
    ensures r.error.Some? ==>
      r.error.value == CaughtMessage(FetchAudioStream(fetched).error, UnknownErrorMessage)
  {
    match FetchAudioStream(fetched)
    case Success(_) => AudioOutcome(None, Some(objectUrl))
    case Failure(thrown) => AudioOutcome(Some(CaughtMessage(thrown, UnknownErrorMessage)), None)
  }

  /** A response that is not ok leaves `Network response was not ok` and no URL. */
  lemma NotOkAudio(blob: Result<Blob, Thrown>, objectUrl: string)
    ensures SettleAudio(Responded(false, blob), objectUrl) ==
      AudioOutcome(Some(NotOkMessage), None)
  {
  }

  /** The state of one audio hook. */
  class AudioSubmitHook {
    var loading: bool
    var error: Option<string>
    var audioUrl: Option<string>

    constructor()
      ensures !loading && error == None && audioUrl == None
    {
      loading := false;
      error := None;
      audioUrl := None;
    }

    /** `submitText(text, mode)` up to its `await`: `loading` is set, `error`
        and any earlier `audioUrl` cleared, and the request sent. */
    method BeginSubmitText(text: string, mode: Voice) returns (request: AudioRequest)
      modifies this
      ensures loading && error == None && audioUrl == None
      ensures request == RequestFor(text, mode)
    {
      loading := true;
      error := None;
      audioUrl := None;
      request := RequestFor(text, mode);
    }

    /** The rest of `submitText`, once the request has settled and, on
        success, `createObjectURL` has made `objectUrl`. */
    method FinishSubmitText(fetched: AudioFetch, objectUrl: string)
      requires error == None && audioUrl == None
      modifies this
      ensures !loading
      ensures AudioOutcome(error, audioUrl) == SettleAudio(fetched, objectUrl)
    {
      var result := FetchAudioStream(fetched);
      match result {
        case Success(_) =>
          audioUrl := Some(objectUrl);
        case Failure(thrown) =>
          error := Some(CaughtMessage(thrown, UnknownErrorMessage));
      }
      loading := false;
    }

    /** `submitText(text, mode)` from start to end. No URL from an earlier
        call survives it. */
    method SubmitText(text: string, mode: Voice, fetched: AudioFetch, objectUrl: string) returns (request: AudioRequest)
      modifies this
      ensures request == RequestFor(text, mode)
      ensures !loading
      ensures AudioOutcome(error, audioUrl) == SettleAudio(fetched, objectUrl)
    {
      request := BeginSubmitText(text, mode);
      FinishSubmitText(fetched, objectUrl);
    }
  }
}
