# bolt-chat, modelled in Dafny

This project models the logic of the bolt-chat widget, a React chat front end.
The user picks a suggested question or types one. The widget posts it to a
backend, records it in the conversation and shows the answer as HTML. In
that HTML, URLs and the `@MarianaRolfo` mention become links. The modelled
parts are:

- **Link rewriting.** `ParseLink` runs two global, left-to-right passes over
  the answer text (`link_parser.dfy`, module `LinkParser`).
- **View rules of the questions screen.** These cover the bubble mode, when
  a suggested question is submitted, and which panel is shown
  (`questions_view.dfy`).
- **Conversation context.** The provider holds the questions and the
  messages. `addMessage` appends to them, and `useConversation` fails outside
  a provider (`conversation.dfy`).
- **Question submit hook.** It makes one POST. A try/catch/finally turns the
  outcome into an answer or an error message, and the hook keeps its
  `loading` and `error` state (`question_submit.dfy`).
- **Question handler.** It sets loading, appends the user's message, awaits
  the submit, and clears loading (`question_handler.dfy`).
- **Audio hook.** `fetchAudioStream` checks the response. `submitText` keeps
  `loading`, `error` and `audioUrl` (`audio_submit.dfy`).
- **Input area.** The typewriter placeholder is a state machine over the
  interval tick and the pause timeout. Submission is guarded by a trim check
  (`input_area.dfy`).
- **Stand-alone chat screen.** In `App.tsx`, `handleSend` appends the
  untrimmed input when it is not blank, then clears the field (`app.dfy`).

Shared pieces:

- `text.dfy` defines JavaScript's white-space class. The regular-expression
  escape `\s` and `String.prototype.trim` both use it.
- `wrappers.dfy` defines `Option`, `Result` and the value a `catch` receives.

How the model represents the code:

- **Async functions.** Each one is split at its `await`. A `Begin…` method
  covers the synchronous prefix. A `Finish…` method covers the continuation
  once the network has settled. A combined method runs both.
- **External inputs.** The network is an input value: what `fetch`,
  `response.json()` and `response.blob()` settle to. The URL that
  `URL.createObjectURL` makes is an input too.
- **Timers.** They are explicit steps: `Tick` for the 50 ms interval and
  `TimeoutFires` for the 10 s pause.

There is no streaming in the code:

- `useQuestionSubmit` makes a single POST and returns the whole answer.
- `useQuestionHandler` discards that answer.
- The audio hook is a plain request.

## Model

| member | source | states |
|---|---|---|
| Text.Trim | src/components/InputArea.tsx:58 | the result of `trim()` has no white space at either end, and it is empty iff the string is all white space |
| Text.TrimIsSlice | src/components/InputArea.tsx:58 | `trim()` removes exactly the leading and trailing white space: the result is the slice of the string between a blank prefix and a blank suffix |
| Text.HasTextIff | src/App.tsx:9 | the `if (input.trim())` guard passes iff the input holds a non-white-space character |
| LinkParser.SchemeLen | src/components/Questions.tsx:7 | the pattern's `https?:\/\/` is the case-sensitive `https://` (8) or `http://` (7), else no scheme |
| LinkParser.UrlMatchLen | src/components/Questions.tsx:7 | a URL match starts iff the text starts with `http://` or `https://` followed by a non-white-space character |
| LinkParser.NonSpaceRunMaximal | src/components/Questions.tsx:7 | the greedy `[^\s]+` takes every character up to the next white space or the end, and none of them is white space |
| LinkParser.UrlMatchExtent | src/components/Questions.tsx:7 | a match runs past the scheme over the maximal run of non-white-space characters and stops at white space or the end |
| LinkParser.UrlPassCopies | src/components/Questions.tsx:10 | where no match starts, the URL pass copies the character and continues |
| LinkParser.UrlPassWraps | src/components/Questions.tsx:10 | where a match `u` starts, the URL pass emits `<a href="u">u</a>` verbatim and resumes after the match |
| LinkParser.UrlPassWholeMatch | src/components/Questions.tsx:10 | a text that is one URL becomes exactly its anchor |
| LinkParser.MatchStartsWithH | src/components/Questions.tsx:7 | every match starts with `h` |
| LinkParser.UrlPassPlainPrefix | src/components/Questions.tsx:10 | text at which no match starts is copied unchanged, whatever follows it |
| LinkParser.UrlPassLength | src/components/Questions.tsx:10 | the URL pass never shortens the text and keeps its length iff no match starts anywhere |
| LinkParser.UrlPassNoMatch | src/components/Questions.tsx:10 | text with no URL match passes the URL pass unchanged |
| LinkParser.UrlPassIdentityIff | src/components/Questions.tsx:10 | the URL pass returns its input unchanged iff no URL matches in it |
| LinkParser.UrlPassChanges | src/components/Questions.tsx:10 | a text in which any match starts is changed by the URL pass |
| LinkParser.MentionPassReplaces | src/components/Questions.tsx:11 | where `@MarianaRolfo` starts, the mention pass emits the fixed anchor and resumes after the mention |
| LinkParser.MentionPassCopies | src/components/Questions.tsx:11 | elsewhere the mention pass copies the character |
| LinkParser.MentionPassLength | src/components/Questions.tsx:11 | the mention pass never shortens the text and keeps its length iff there is no mention |
| LinkParser.MentionPassNoMention | src/components/Questions.tsx:11 | text without a mention passes the mention pass unchanged |
| LinkParser.MentionPassIdentityIff | src/components/Questions.tsx:11 | the mention pass returns its input unchanged iff it holds no mention |
| LinkParser.ParseLinkIdentityIff | src/components/Questions.tsx:6-12 | `ParseLink` returns its input unchanged iff it holds neither a URL match nor `@MarianaRolfo` |
| LinkParser.NonSpaceRunAppend | src/components/Questions.tsx:7 | text after white space does not lengthen a non-white-space run |
| LinkParser.UrlMatchLenAppend | src/components/Questions.tsx:7 | no match reaches across white space |
| LinkParser.UrlPassSplit | src/components/Questions.tsx:10 | the URL pass rewrites the text before and after a white-space boundary independently |
| LinkParser.MentionPassSplit | src/components/Questions.tsx:11 | the mention pass distributes over a split whose right part cannot continue a mention |
| LinkParser.MentionHasNoSpace | src/components/Questions.tsx:8 | the mention contains no white space |
| LinkParser.ParseLinkSplit | src/components/Questions.tsx:6-12 | `ParseLink` rewrites the text on either side of a white-space boundary independently |
| LinkParser.MentionPassEachMention | src/components/Questions.tsx:8-11 | every `@MarianaRolfo` is replaced wherever it stands, with no word boundary required |
| LinkParser.MentionPassShort | src/components/Questions.tsx:11 | text shorter than the mention is not changed by the mention pass |
| LinkParser.MentionPassShortPrefix | src/components/Questions.tsx:11 | short text before a character that cannot continue a mention is copied by the mention pass |
| LinkParser.MentionPassWrapped | src/components/Questions.tsx:11 | markup wrapped around a text leaves only the text's own mentions to replace |
| LinkParser.MarkupCannotContinueMention | src/components/Questions.tsx:8-10 | `h`, `<` and `"` do not occur after the mention's `@` |
| LinkParser.MentionPassAnchor | src/components/Questions.tsx:10-11 | in a URL's anchor, the mention pass replaces the URL's mentions in both the `href` and the link text, and nothing else |
| LinkParser.ParseLinkOfUrl | src/components/Questions.tsx:6-12 | a text that is one URL becomes `<a href="u'">u'</a>`, where `u'` is the URL with its mentions replaced |
| LinkParser.NoMatchWithoutH | src/components/Questions.tsx:7 | no match starts at a character other than `h` |
| LinkParser.MentionHasNoUrl | src/components/Questions.tsx:7-8 | the mention contains no URL match |
| LinkParser.MentionPassOfMention | src/components/Questions.tsx:11 | the bare mention becomes exactly the fixed Twitter anchor |
| LinkParser.ParseLinkOfMention | src/components/Questions.tsx:6-12 | `ParseLink` turns the mention into exactly the fixed anchor; the anchor's own mention and `https://` link are not rewritten again |
| LinkParser.EmbeddedHttpsMatches | src/components/Questions.tsx:7 | an `https://` URL starts a match wherever it stands |
| LinkParser.MentionHrefIsUrl | src/components/Questions.tsx:11 | the mention anchor's `href` is itself a URL the pattern matches |
| LinkParser.PassOrder | src/components/Questions.tsx:10-11 | the pass order matters: with the mention pass first, the anchor's `href` would be wrapped again |
| LinkParser.Cons | src/components/Questions.tsx:10 | a segmentation with one more segment in front covers and renders that segment first |
| LinkParser.UrlTokenMatches | src/components/Questions.tsx:7 | a whole URL token followed by white space or the end is exactly one match |
| LinkParser.UrlPassSegment | src/components/Questions.tsx:10 | the URL pass turns a segment in place into its HTML |
| LinkParser.UrlPassRendersSegments | src/components/Questions.tsx:10 | any segmentation in which every URL is a whole token and no plain text starts a match is rendered by the URL pass |
| LinkParser.LinkFirst | src/components/Questions.tsx:10 | where a match starts, the search takes it as one link segment |
| LinkParser.PlainFirstInPlace | src/components/Questions.tsx:10 | where no match starts, the search takes one plain character |
| LinkParser.SegmentsStep | src/components/Questions.tsx:10 | one step of the left-to-right search keeps the segmentation exact and in place |
| LinkParser.SegmentsAreLeftmostLongest | src/components/Questions.tsx:7-10 | matches are taken left to right and never overlap, and the segments cover the text exactly |
| LinkParser.UrlPassIsLeftmostLongest | src/components/Questions.tsx:7-10 | the URL pass renders the leftmost-longest segmentation: each URL is wrapped once, inserted markup is not rescanned, and all other text, white space included, is copied |
| QuestionsView.ModeFor | src/components/Questions.tsx:31 | the bubble mode is `strong` iff loading |
| QuestionsView.QuestionClick | src/components/Questions.tsx:42 | a suggested question is submitted, verbatim, iff nothing is loading |
| QuestionsView.Heading | src/components/Questions.tsx:33 | the question heading is shown iff the question is non-empty |
| QuestionsView.PanelFor | src/components/Questions.tsx:34-63 | the question list is shown iff there are no messages; otherwise the answer is shown as `ParseLink` of the partial response |
| QuestionsView.PanelAfterFirstMessage | src/components/Questions.tsx:34 | a fresh conversation shows the three initial questions, and any message switches the panel to the answer |
| QuestionsView.PlainAnswerShownVerbatim | src/components/Questions.tsx:63 | an answer without URLs or mentions is shown unchanged |
| Conversation.ConversationProvider.constructor | src/contexts/ConversationContext.tsx:22-27 | the questions start as the three fixed Spanish questions in order, and the messages start empty |
| Conversation.ConversationProvider.AddMessage | src/contexts/ConversationContext.tsx:34-36 | exactly one `{role, content}` is appended at the end; earlier messages and the questions are unchanged |
| Conversation.ConversationProvider.SetQuestions | src/contexts/ConversationContext.tsx:22 | the questions are replaced; the messages are unchanged |
| Conversation.UseConversation | src/contexts/ConversationContext.tsx:50-55 | fails with `useConversation must be used within a ConversationProvider` iff there is no provider; otherwise returns the provider itself |
| QuestionSubmit.TryRequest | src/hooks/useQuestionSubmit.ts:22-41 | the answer comes back iff the response is ok and its body has `success`; a non-ok response throws `Error en la solicitud`; `success = false` throws `Respuesta no exitosa`; rejections pass through |
| QuestionSubmit.Settle | src/hooks/useQuestionSubmit.ts:42-46 | every failure yields the fallback answer and records the thrown message, or `Error desconocido` for a non-`Error`; success leaves `error` null; nothing propagates |
| QuestionSubmit.AnswerOnlyOnSuccess | src/hooks/useQuestionSubmit.ts:32-41 | `error` stays null iff the response is ok and reports success |
| QuestionSubmit.NotOkResponse | src/hooks/useQuestionSubmit.ts:32-46 | a non-ok response gives the fallback and `Error en la solicitud` |
| QuestionSubmit.UnsuccessfulResponse | src/hooks/useQuestionSubmit.ts:37-46 | `success = false` gives the fallback and `Respuesta no exitosa` |
| QuestionSubmit.NonErrorThrown | src/hooks/useQuestionSubmit.ts:43 | a thrown non-`Error` records `Error desconocido` |
| QuestionSubmit.QuestionSubmitHook.constructor | src/hooks/useQuestionSubmit.ts:9-10 | the hook starts not loading, with no error |
| QuestionSubmit.QuestionSubmitHook.BeginSubmit | src/hooks/useQuestionSubmit.ts:19-30 | on entry, `loading` is true and `error` is cleared; the question goes to the fixed endpoint |
| QuestionSubmit.QuestionSubmitHook.FinishSubmit | src/hooks/useQuestionSubmit.ts:31-49 | the returned answer and `error` are those of `Settle`, and `loading` is false on every path |
| QuestionSubmit.QuestionSubmitHook.SubmitQuestion | src/hooks/useQuestionSubmit.ts:18-50 | the whole call: the request, then the settled answer and `error`, with `loading` false at the end |
| QuestionHandler.Handler.constructor | src/hooks/useQuestionHandler.tsx:18-20 | the handler works on the given conversation and submit hook |
| QuestionHandler.Handler.BeginHandle | src/hooks/useQuestionHandler.tsx:22-25 | loading is raised, then exactly one `user` message with the question verbatim is appended, before the submit starts |
| QuestionHandler.Handler.FinishHandle | src/hooks/useQuestionHandler.tsx:25-26 | after the submit settles, loading is lowered and the conversation is untouched, so the answer is not appended |
| QuestionHandler.Handler.HandleQuestionSubmit | src/hooks/useQuestionHandler.tsx:22-27 | the whole call adds exactly the user's message and leaves loading false |
| AudioSubmit.VoiceName | src/hooks/useAudioSubmitcopy.ts:8 | the mode is sent as `woman` or `man`, and only those |
| AudioSubmit.RequestFor | src/hooks/useAudioSubmitcopy.ts:9-16 | the request goes to `/audio/stream` and carries exactly the given text and mode |
| AudioSubmit.RequestForInjective | src/hooks/useAudioSubmitcopy.ts:15 | two requests are equal iff their texts and modes are |
| AudioSubmit.FetchAudioStream | src/hooks/useAudioSubmitcopy.ts:8-23 | a non-ok response throws `Network response was not ok`; otherwise the body is the result |
| AudioSubmit.BlobOnlyFromOkResponse | src/hooks/useAudioSubmitcopy.ts:18-22 | a blob is produced only by an ok response |
| AudioSubmit.SettleAudio | src/hooks/useAudioSubmitcopy.ts:39-44 | exactly one of `error` and `audioUrl` is set; the URL is the fresh object URL iff the fetch succeeded; the error is the thrown message or `An unknown error occurred` |
| AudioSubmit.NotOkAudio | src/hooks/useAudioSubmitcopy.ts:18-44 | a non-ok response leaves `Network response was not ok` and no URL |
| AudioSubmit.AudioSubmitHook.constructor | src/hooks/useAudioSubmitcopy.ts:30-32 | the hook starts not loading, with no error and no URL |
| AudioSubmit.AudioSubmitHook.BeginSubmitText | src/hooks/useAudioSubmitcopy.ts:35-40 | on entry, `loading` is true and `error` and any earlier `audioUrl` are cleared |
| AudioSubmit.AudioSubmitHook.FinishSubmitText | src/hooks/useAudioSubmitcopy.ts:40-47 | `error` and `audioUrl` are those of `SettleAudio`, and `loading` is false on every path |
| AudioSubmit.AudioSubmitHook.SubmitText | src/hooks/useAudioSubmitcopy.ts:34-48 | the whole call; no URL from an earlier call survives it |
| InputAreaView.NextIndex | src/components/InputArea.tsx:44 | the next phrase index is `(i + 1) mod 3`, which stays in range and wraps to 0 |
| InputAreaView.NextIndexCycles | src/components/InputArea.tsx:44 | three pauses return to the starting phrase after showing the other two |
| InputAreaView.Frames | src/components/InputArea.tsx:38-40 | one pass shows `length + 1` placeholders |
| InputAreaView.FramesTypeOut | src/components/InputArea.tsx:35-40 | the placeholders run from empty to the whole phrase, one character per tick |
| InputAreaView.InputArea.constructor | src/components/InputArea.tsx:25-27 | the component starts with an empty placeholder, the first phrase and typing off |
| InputAreaView.InputArea.TypingEffect | src/components/InputArea.tsx:31-37 | a no-op while typing; otherwise typing is set and the interval starts over the current phrase at `charIndex` 0 |
| InputAreaView.InputArea.Tick | src/components/InputArea.tsx:38-43 | while `charIndex <= length`, the placeholder becomes the first `charIndex` characters and `charIndex` advances; after that the pause begins; the placeholder stays a prefix of the phrase |
| InputAreaView.InputArea.TimeoutFires | src/components/InputArea.tsx:43-47 | after the pause the index moves to the next phrase, the placeholder empties and typing is cleared |
| InputAreaView.InputArea.TypePhrase | src/components/InputArea.tsx:37-49 | the interval run to its end shows exactly the phrase's prefixes in order and stops on the whole phrase |
| InputAreaView.InputArea.SetInput | src/components/InputArea.tsx:70 | typing replaces the field's value |
| InputAreaView.InputArea.BeginHandleSubmit | src/components/InputArea.tsx:57-59 | up to the `await`: the untrimmed input is submitted iff it is not blank, and the field keeps its text while the request runs |
| InputAreaView.InputArea.FinishHandleSubmit | src/components/InputArea.tsx:60 | once the submit has settled, the field is cleared, wiping anything typed meanwhile |
| InputAreaView.InputArea.HandleSubmit | src/components/InputArea.tsx:57-62 | the whole call with nothing typed meanwhile: blank input does nothing; otherwise the untrimmed input is submitted and the field ends empty |
| InputAreaView.InputArea.OnKeyDown | src/components/InputArea.tsx:73 | only Enter starts a submit; there is no loading guard and the field is unchanged, so a second Enter submits the same text again |
| InputAreaView.InputArea.OnClickSend | src/components/InputArea.tsx:76-78 | the button starts a submit only when not loading and the input is not blank |
| ChatApp.AfterSend | src/App.tsx:8-13 | blank input changes nothing; otherwise the input is appended verbatim and the field is emptied |
| ChatApp.AfterSendKeepsHistory | src/App.tsx:10 | earlier messages stay in order, and the list grows by at most one |
| ChatApp.AfterSendTwice | src/App.tsx:8-13 | a second send straight after a first does nothing |
| ChatApp.App.constructor | src/App.tsx:5-6 | no messages and an empty field at first |
| ChatApp.App.SetInput | src/App.tsx:46 | typing replaces the field's value and leaves the messages alone |
| ChatApp.App.HandleSend | src/App.tsx:8-13 | the new state is `AfterSend` of the old one |
| ChatApp.App.OnKeyPress | src/App.tsx:49 | Enter runs `handleSend`; other keys change nothing |
| ChatApp.App.OnClickSend | src/App.tsx:52 | the button runs the same `handleSend` |

## Left out

- Presentation is not modelled. This covers `src/components/BubbleCircle.tsx` (animation and audio playback), `src/components/ThreeJSWaves.tsx` (WebGL and floating-point waves), `QuestionButton`, `Logo`, `Header`, all markup, styling and the Tailwind configuration.
- `src/contexts/LoadingContext` is not part of this model. `QuestionHandler.Handler` holds its `loading` flag as a plain field.
- `src/config` is not part of this model. The audio request records only its path, `/audio/stream`, not the `API_URL` in front of it.
- `console.error` logging in the catch of `submitQuestion` is left out, because it has no effect on state.
- Request headers, the method and `JSON.stringify` serialisation are left out. The model records only the values a request carries.
- `response.json()` is taken to yield a well-formed `{ success, answer }` or to reject. A body with missing or mistyped fields is not modelled, because its behaviour depends on JavaScript's loose typing.
- Overlapping calls are not modelled: two `submitQuestion` or `submitText` calls in flight at once, where whichever settles last wins. Each call runs as one sequential Begin/Finish pair.
- QuestionHandler.Handler.FinishHandle: the path on which `submitQuestion` rejects, leaving loading stuck at true, is not modelled. The shown `submitQuestion` catches everything, so it never rejects.
- QuestionHandler.Handler: `partialResponse`, `question` and `endedResponse` are not modelled. The handler passes them through from `useQuestionSubmit`, which does not provide them, so they are `undefined` in the shown code.
- InputAreaView.InputArea: React's effect re-runs are not modelled. `TypingEffect` is a step that may be taken at any time, and it does nothing while typing. The timer durations (50 ms, 10 s) are left out.
- InputAreaView.InputArea: `typingEffect` returns an interval cleanup, but the effect does not return it, so unmounting never clears the interval. The model has no unmount.
- InputAreaView.InputArea.BeginHandleSubmit: the `handleQuestionSubmit` prop belongs to the parent. The method returns the text it would pass instead of calling the prop.
- LinkParser: the regular-expression engine is not modelled. The two patterns are modelled directly as scanners, and `\s` is the ECMAScript white-space and line-terminator set.
- LinkParser: strings are sequences of Unicode characters. JavaScript's UTF-16 code units and surrogate pairs are not modelled.
- `ParseLink`'s output is inserted unescaped with `dangerouslySetInnerHTML`. The model adds no escaping, and it does not model how a browser parses the HTML.
