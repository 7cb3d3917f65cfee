/** `useQuestionSubmit` from src/hooks/useQuestionSubmit.ts: one POST of the
    question, classified into an answer or an error message inside
    try/catch/finally, with `loading` and `error` as the hook's state.
    The network is an input: what `fetch` and `response.json()` settle to. */
module QuestionSubmit {
  import opened Wrappers

  /** The endpoint the question is posted to. */
  const QuestionEndpoint: string := "http://localhost:3000/api/question"

  const RequestFailedMessage: string := "Error en la solicitud"
  const NotSuccessfulMessage: string := "Respuesta no exitosa"
  const UnknownErrorMessage: string := "Error desconocido"
  /** What `submitQuestion` resolves to whenever the request fails. */
  const FallbackAnswer: string := "Lo siento, hubo un error al procesar tu pregunta."

  /** The POST the hook sends: `{ question }` to the endpoint. */
  datatype QuestionRequest = QuestionRequest(url: string, question: string)

  /** The `QuestionResponse` body `{ success, answer }`. */
  datatype QuestionResponse = QuestionResponse(success: bool, answer: string)

  /** How `fetch(...)` settles: rejected with a thrown value, or a response
      whose `ok` flag and `json()` outcome are given. */
  datatype FetchOutcome =
    | Rejected(thrown: Thrown)
    | Responded(ok: bool, json: Result<QuestionResponse, Thrown>)

  /** What the hook's `try` block ends in: the answer it returns, or the value
      it throws. */
  function TryRequest(outcome: FetchOutcome): (r: Result<string, Thrown>)
    ensures r.Success? <==>
      outcome.Responded? && outcome.ok && outcome.json.Success? && outcome.json.value.success
    ensures r.Success? ==> r.value == outcome.json.value.answer
    ensures outcome.Rejected? ==> r == Failure(outcome.thrown)
    ensures outcome.Responded? && !outcome.ok ==> r == Failure(ErrorObject(RequestFailedMessage))
    ensures outcome.Responded? && outcome.ok && outcome.json.Failure? ==> r == Failure(outcome.json.error)
    ensures outcome.Responded? && outcome.ok && outcome.json.Success? && !outcome.json.value.success ==>
      r == Failure(ErrorObject(NotSuccessfulMessage))
  {
    match outcome
    case Rejected(thrown) => Failure(thrown)
    case Responded(ok, json) =>
      if !ok then Failure(ErrorObject(RequestFailedMessage))
      else match json
        case Failure(thrown) => Failure(thrown)
        case Success(data) =>
          if data.success then Success(data.answer)
          else Failure(ErrorObject(NotSuccessfulMessage))
  }

  /** What a settled call leaves behind: the string it resolves to and the
      hook's `error`. */
  datatype Settled = Settled(answer: string, error: Option<string>)

  /** The `catch` turns every failure into the fallback answer and records the
      thrown `Error`'s message, or `Error desconocido` for a thrown non-`Error`;
      success leaves `error` cleared. Nothing escapes: the call always resolves
      to a string. */
  function Settle(outcome: FetchOutcome): (s: Settled)
    ensures s.error.None? <==> TryRequest(outcome).Success?
    ensures s.error.None? ==> s.answer == TryRequest(outcome).value
    ensures s.error.Some? ==> s.answer == FallbackAnswer
    ensures s.error.Some? ==> s.error.value == CaughtMessage(TryRequest(outcome).error, UnknownErrorMessage)
  {
    match TryRequest(outcome)
    case Success(answer) => Settled(answer, None)
    case Failure(thrown) => Settled(FallbackAnswer, Some(CaughtMessage(thrown, UnknownErrorMessage)))
  }

  /** The answer comes back only from an ok response whose body reports success. */
  lemma AnswerOnlyOnSuccess(outcome: FetchOutcome)
    ensures Settle(outcome).error.None? <==>
      outcome.Responded? && outcome.ok && outcome.json.Success? && outcome.json.value.success
  {
  }

  /** A response that is not ok records `Error en la solicitud`, whatever its body. */
  lemma NotOkResponse(json: Result<QuestionResponse, Thrown>)
    ensures Settle(Responded(false, json)) ==
      Settled(FallbackAnswer, Some(RequestFailedMessage))
  {
  }

  /** An ok response reporting failure records `Respuesta no exitosa`. */
  lemma UnsuccessfulResponse(answer: string)
    ensures Settle(Responded(true, Success(QuestionResponse(false, answer)))) ==
      Settled(FallbackAnswer, Some(NotSuccessfulMessage))
  {
  }

  /** A thrown value that is not an `Error` records `Error desconocido`. */
  lemma NonErrorThrown()
    ensures Settle(Rejected(NonError)) == Settled(FallbackAnswer, Some(UnknownErrorMessage))
  {
  }

  /** The state of one `useQuestionSubmit` hook. */
  class QuestionSubmitHook {
    var loading: bool
    var error: Option<string>

    constructor()
      ensures !loading && error == None
    {
      loading := false;
      error := None;
    }

    /** The part of `submitQuestion(question)` before its first `await`:
        `loading` is set, `error` cleared, and the request sent. */
    method BeginSubmit(question: string) returns (request: QuestionRequest)
      modifies this
      ensures loading && error == None
      ensures request == QuestionRequest(QuestionEndpoint, question)
    {
      loading := true;
      error := None;
      request := QuestionRequest(QuestionEndpoint, question);
    }

    /** The rest of `submitQuestion`, once the network has settled: the
        `try` body, the `catch` and the `finally`. */
    method FinishSubmit(outcome: FetchOutcome) returns (answer: string)
      requires error == None
      modifies this
      ensures !loading
      ensures Settled(answer, error) == Settle(outcome)
    {
      var tried := TryRequest(outcome);
      match tried {
        case Success(value) =>
          answer := value;
        case Failure(thrown) =>
          var message := CaughtMessage(thrown, UnknownErrorMessage);
          error := Some(message);
          answer := FallbackAnswer;
      }
      loading := false;
    }

    /** `submitQuestion(question)` from start to end, when the request settles
        as `outcome`. */
    method SubmitQuestion(question: string, outcome: FetchOutcome) returns (request: QuestionRequest, answer: string)
      modifies this
      ensures request == QuestionRequest(QuestionEndpoint, question)
      ensures !loading
      ensures Settled(answer, error) == Settle(outcome)
    {
      request := BeginSubmit(question);
      answer := FinishSubmit(outcome);
    }
  }
}
