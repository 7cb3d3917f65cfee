/** The stand-alone chat screen in src/App.tsx: a list of sent messages and
    a text field, with one send action behind both the Enter key and the
    send button. */
module ChatApp {
  import opened Text

  const EnterKey: string := "Enter"

  /** What the screen holds: the messages sent so far and the field's value. */
  datatype ChatState = ChatState(messages: seq<string>, input: string)

  /** The screen after `handleSend`: blank input changes nothing; otherwise
      the input, untrimmed, is appended and the field emptied. */
  function AfterSend(s: ChatState): (r: ChatState)
    ensures HasText(s.input) ==> r.messages == s.messages + [s.input] && r.input == []
    ensures !HasText(s.input) ==> r == s
  {
    if HasText(s.input) then ChatState(s.messages + [s.input], []) else s
  }

  /** Sending never loses or reorders a message and adds at most one. */
  lemma AfterSendKeepsHistory(s: ChatState)
    ensures AfterSend(s).messages[..|s.messages|] == s.messages
    ensures |s.messages| <= |AfterSend(s).messages| <= |s.messages| + 1
  {
    var r := AfterSend(s);
    if HasText(s.input) {
      assert r.messages[..|s.messages|] == s.messages;
    }
  }

  /** A second send straight after the first does nothing: the field is
      empty by then, so a message cannot be sent twice by one key press and
      one click. */
  lemma AfterSendTwice(s: ChatState)
    ensures AfterSend(AfterSend(s)) == AfterSend(s)
  {
    if HasText(s.input) {
      HasTextIff([]);
    }
  }

  /** The state of the `App` component. */
  class App {
    var messages: seq<string>
    var input: string

    /** The screen starts with no messages and an empty field. */
    constructor()
      ensures messages == [] && input == []
    {
      messages := [];
      input := [];
    }

    /** `onChange`: the field's value becomes what was typed. */
    method SetInput(value: string)
      modifies this
      ensures input == value && messages == old(messages)
    {
      input := value;
    }

    /** `handleSend()`. */
    method HandleSend()
      modifies this
      ensures ChatState(messages, input) == AfterSend(old(ChatState(messages, input)))
    {
      if HasText(input) {
        messages := messages + [input];
        input := [];
      }
    }

    /** A key press in the field sends only on Enter. */
    method OnKeyPress(key: string)
      modifies this
      ensures key == EnterKey ==> ChatState(messages, input) == AfterSend(old(ChatState(messages, input)))
      ensures key != EnterKey ==> messages == old(messages) && input == old(input)
    {
      if key == EnterKey {
        HandleSend();
      }
    }

    /** The send button runs the same `handleSend`. */
    method OnClickSend()
      modifies this
      ensures ChatState(messages, input) == AfterSend(old(ChatState(messages, input)))
    {
      HandleSend();
    }
  }
}
