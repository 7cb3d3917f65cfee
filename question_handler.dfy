/** `useQuestionHandler` from src/hooks/useQuestionHandler.tsx: the handler a
    question button or the input area calls. It raises the shared loading
    flag, records the user's question in the conversation, waits for the
    submit hook, and lowers the flag again. */
module QuestionHandler {
  import opened Wrappers
  import opened Conversation
  import opened QuestionSubmit

  /** The handler and what it works on: the shared loading flag, the
      conversation it appends to and the submit hook it calls. */
  class Handler {
    /** The `loading` flag of the shared loading context. */
    var loading: bool
    const conversation: ConversationProvider
    const submitter: QuestionSubmitHook

    constructor(conversation: ConversationProvider, submitter: QuestionSubmitHook)
      ensures !loading
      ensures this.conversation == conversation && this.submitter == submitter
    {
      loading := false;
      this.conversation := conversation;
      this.submitter := submitter;
    }

    /** `handleQuestionSubmit(question)` up to its `await`: the flag is raised,
        exactly one user message holding the question verbatim is appended,
        and the submit hook starts the request. */
    method BeginHandle(question: string) returns (request: QuestionRequest)
      modifies this, conversation, submitter
      ensures loading
      ensures conversation.messages == old(conversation.messages) + [Message(UserRole, question)]
      ensures conversation.questions == old(conversation.questions)
      ensures submitter.loading && submitter.error == None
      ensures request == QuestionRequest(QuestionEndpoint, question)
    {
      loading := true;
      conversation.AddMessage(UserRole, question);
      request := submitter.BeginSubmit(question);
    }

    /** The rest of `handleQuestionSubmit`, once the request has settled: the
        submit hook settles, and the flag is lowered. The answer is dropped:
        the conversation is left as it was. */
    method FinishHandle(outcome: FetchOutcome)
      requires submitter.error == None
      modifies this, submitter
      ensures !loading && !submitter.loading
      ensures submitter.error == Settle(outcome).error
      ensures unchanged(conversation)
    {
      var _ := submitter.FinishSubmit(outcome);
      loading := false;
    }

    /** `handleQuestionSubmit(question)` from start to end, when the request
        settles as `outcome`. */
    method HandleQuestionSubmit(question: string, outcome: FetchOutcome) returns (request: QuestionRequest)
      modifies this, conversation, submitter
      ensures !loading && !submitter.loading
      ensures conversation.messages == old(conversation.messages) + [Message(UserRole, question)]
      ensures conversation.questions == old(conversation.questions)
      ensures submitter.error == Settle(outcome).error
      ensures request == QuestionRequest(QuestionEndpoint, question)
    {
      request := BeginHandle(question);
      FinishHandle(outcome);
    }
  }
}
