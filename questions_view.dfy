/** The view rules of the `Questions` component in
    src/components/Questions.tsx: which panel it shows, how the bubble is
    animated, and when a suggested question is submitted. The markup and
    animation themselves are not modelled. */
module QuestionsView {
  import opened Wrappers
  import opened Conversation
  import opened LinkParser

  /** The bubble's `mode`. */
  datatype BubbleMode = Strong | Smooth

  /** The bubble pulses strongly exactly while a question is loading. */
  function ModeFor(loading: bool): (m: BubbleMode)
    ensures m == Strong <==> loading
  {
    if loading then Strong else Smooth
  }

  /** A click on a suggested question: `!loading && handleQuestionSubmit(q)`
      submits the button's question, and only when nothing is loading. */
  function QuestionClick(loading: bool, question: string): (submitted: Option<string>)
    ensures submitted.Some? <==> !loading
    ensures submitted.Some? ==> submitted.value == question
  {
    if loading then None else Some(question)
  }

  /** The question heading, shown only for a non-empty question. */
  function Heading(question: string): (h: Option<string>)
    ensures h.Some? <==> |question| > 0
    ensures h.Some? ==> h.value == question
  {
    if |question| > 0 then Some(question) else None
  }

  /** The main panel: the suggested questions while the conversation is
      empty, otherwise the answer text rewritten by `ParseLink`. */
  datatype Panel = QuestionList(questions: seq<string>) | Answer(html: string)

  function PanelFor(messages: seq<Message>, questions: seq<string>, partialResponse: string): (p: Panel)
    ensures p.QuestionList? <==> |messages| == 0
    ensures p.QuestionList? ==> p.questions == questions
    ensures p.Answer? ==> p.html == ParseLink(partialResponse)
  {
    if |messages| == 0 then QuestionList(questions) else Answer(ParseLink(partialResponse))
  }

  /** A fresh provider shows its three questions; once a message is added
      the list gives way to the answer, since messages are never removed. */
  lemma PanelAfterFirstMessage(messages: seq<Message>, m: Message, questions: seq<string>, partialResponse: string)
    ensures PanelFor([], InitialQuestions, partialResponse) == QuestionList(InitialQuestions)
    ensures PanelFor(messages + [m], questions, partialResponse) == Answer(ParseLink(partialResponse))
  {
    assert |messages + [m]| > 0;
  }

  /** Plain answer text, with no URL and no mention in it, is shown as it is. */
  lemma PlainAnswerShownVerbatim(messages: seq<Message>, questions: seq<string>, partialResponse: string)
    requires |messages| > 0
    requires NoUrlMatch(partialResponse) && NoMention(partialResponse)
    ensures PanelFor(messages, questions, partialResponse) == Answer(partialResponse)
  {
    ParseLinkIdentityIff(partialResponse);
  }
}
