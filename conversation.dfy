/** The conversation context from src/contexts/ConversationContext.tsx: a
    provider that owns the suggested questions and the message list, and the
    `useConversation` lookup that fails outside a provider. */
module Conversation {
  import opened Wrappers

  /** One chat message, `{ role, content }`. */
  datatype Message = Message(role: string, content: string)

  /** The role the question handler gives the user's messages. */
  const UserRole: string := "user"

  /** The three suggested questions a provider starts with, in order. */
  const InitialQuestions: seq<string> := [
    "¿Alguna vez has sentido que no mereces tus logros?",
    "¿Te preocupa que otros descubran que no eres tan competente como piensan?",
    "¿Atribuyes tus éxitos a la suerte o a factores externos?"
  ]

  /** The error `useConversation` throws when no provider is above the caller. */
  const OutsideProviderMessage: string := "useConversation must be used within a ConversationProvider"

  /** The state a `ConversationProvider` holds. */
  class ConversationProvider {
    var questions: seq<string>
    var messages: seq<Message>

    /** A provider starts with the three fixed questions and no messages. */
    constructor()
      ensures questions == InitialQuestions
      ensures messages == []
    {
      questions := InitialQuestions;
      messages := [];
    }

    /** `addMessage(role, content)`: appends one message at the end, keeping
        the earlier ones in order, and leaves the questions alone. */
    method AddMessage(role: string, content: string)
      modifies this
      ensures messages == old(messages) + [Message(role, content)]
      ensures questions == old(questions)
    {
      messages := messages + [Message(role, content)];
    }

    /** `setQuestions(qs)`: replaces the questions and leaves the messages alone. */
    method SetQuestions(qs: seq<string>)
      modifies this
      ensures questions == qs
      ensures messages == old(messages)
    {
      questions := qs;
    }
  }

  /** `useConversation()`: the provider above the caller, if there is one;
      otherwise the call throws an `Error` with a fixed message. */
  function UseConversation(context: Option<ConversationProvider>): (r: Result<ConversationProvider, Thrown>)
    ensures r.Success? <==> context.Some?
    ensures r.Success? ==> r.value == context.value
    ensures r.Failure? ==> r.error == ErrorObject(OutsideProviderMessage)
  {
    match context
    case None => Failure(ErrorObject(OutsideProviderMessage))
    case Some(provider) => Success(provider)
  }
}
