/** The `InputArea` component from src/components/InputArea.tsx: a text field
    whose placeholder types itself out one character per interval tick,
    pauses on the whole phrase, and moves on to the next of three phrases;
    and a submit that ignores blank input. Timers are explicit steps: a tick
    of the interval, and the timeout that ends the pause. */
module InputAreaView {
  import opened Wrappers
  import opened Text

  /** The phrases the placeholder cycles through, in order. */
  const Placeholders: seq<string> := [
    "Hazme una pregunta...",
    "Escribe tu consulta aquí...",
    "¿Qué te gustaría preguntar?"
  ]

  /** The key that submits from the text field. */
  const EnterKey: string := "Enter"

  /** The timer the typing effect has running: none, the typing interval
      with its captured phrase and `charIndex`, or the pause timeout. */
  datatype Timer = Idle | Interval(phrase: string, charIndex: nat) | Pause

  /** The phrase that follows phrase `i`, wrapping around. */
  function NextIndex(i: nat): (j: nat)
    ensures j < |Placeholders|
    ensures i < |Placeholders| - 1 ==> j == i + 1
    ensures i == |Placeholders| - 1 ==> j == 0
  {
    (i + 1) % |Placeholders|
  }

  /** Three pauses bring the placeholder back to the phrase it started from,
      after showing each of the other two once. */
  lemma NextIndexCycles(i: nat)
    requires i < |Placeholders|
    ensures NextIndex(NextIndex(NextIndex(i))) == i
    ensures NextIndex(i) != i && NextIndex(NextIndex(i)) != i
    ensures NextIndex(i) != NextIndex(NextIndex(i))
  {
  }

  /** The placeholders one pass of the interval shows for `phrase`: its
      prefixes, from the empty one to the whole phrase. */
  function Frames(phrase: string): (r: seq<string>)
    ensures |r| == |phrase| + 1
  {
    seq(|phrase| + 1, j requires 0 <= j <= |phrase| => phrase[..j])
  }

  /** The typewriter starts from nothing, adds one character of the phrase per
      tick, and ends on the whole phrase. */
  lemma FramesTypeOut(phrase: string)
    ensures Frames(phrase)[0] == []
    ensures Frames(phrase)[|phrase|] == phrase
    ensures forall j :: 0 <= j < |phrase| ==> Frames(phrase)[j + 1] == Frames(phrase)[j] + [phrase[j]]
  {
    var r := Frames(phrase);
    assert r[|phrase|] == phrase[..|phrase|];
    forall j | 0 <= j < |phrase|
      ensures r[j + 1] == r[j] + [phrase[j]]
    {
      assert phrase[..j + 1] == phrase[..j] + [phrase[j]];
    }
  }

  /** The state of one `InputArea`. `input` is the text field's value, which
      the parent owns and passes in with its setter. */
  class InputArea {
    var input: string
    var placeholder: string
    var currentIndex: nat
    var isTyping: bool
    var timer: Timer

    /** The placeholder always shows a prefix of the current phrase: nothing
        while no timer runs, the prefix typed so far while the interval runs,
        and the whole phrase during the pause. */
    predicate Valid()
      reads this
    {
      && currentIndex < |Placeholders|
      && (isTyping <==> !timer.Idle?)
      && match timer
         case Idle => placeholder == []
         case Interval(phrase, k) =>
           && phrase == Placeholders[currentIndex]
           && k <= |phrase| + 1
           && placeholder == phrase[..if k == 0 then 0 else k - 1]
         case Pause => placeholder == Placeholders[currentIndex]
    }

    /** First render: empty placeholder, first phrase, not typing. */
    constructor(input: string)
      ensures Valid()
      ensures this.input == input
      ensures placeholder == [] && currentIndex == 0 && !isTyping && timer == Idle
    {
      this.input := input;
      placeholder := [];
      currentIndex := 0;
      isTyping := false;
      timer := Idle;
    }

    /** `typingEffect()`: does nothing while typing; otherwise marks typing
        and starts the interval over the current phrase from `charIndex` 0. */
    method TypingEffect()
      requires Valid()
      modifies this
      ensures Valid()
      ensures old(isTyping) ==> timer == old(timer) && isTyping
      ensures !old(isTyping) ==> isTyping && timer == Interval(Placeholders[currentIndex], 0)
      ensures placeholder == old(placeholder) && currentIndex == old(currentIndex) && input == old(input)
    {
      if isTyping {
        return;
      }
      isTyping := true;
      timer := Interval(Placeholders[currentIndex], 0);
    }

    /** One interval tick: while `charIndex` has not passed the phrase's
        length, the placeholder becomes the first `charIndex` characters and
        `charIndex` moves on; after that the interval is cleared and the
        pause begins. */
    method Tick()
      requires Valid() && timer.Interval?
      modifies this
      ensures Valid()
      ensures old(timer.charIndex) <= |old(timer.phrase)| ==>
        placeholder == old(timer.phrase)[..old(timer.charIndex)] &&
        timer == Interval(old(timer.phrase), old(timer.charIndex) + 1)
      ensures old(timer.charIndex) > |old(timer.phrase)| ==>
        placeholder == old(placeholder) && timer == Pause
      ensures currentIndex == old(currentIndex) && isTyping && input == old(input)
    {
      var phrase, charIndex := timer.phrase, timer.charIndex;
      if charIndex <= |phrase| {
        placeholder := phrase[..charIndex];
        timer := Interval(phrase, charIndex + 1);
      } else {
        timer := Pause;
      }
    }

    /** The pause ends: the next phrase is chosen, the placeholder emptied and
        typing cleared, so the effect can start again. */
    method TimeoutFires()
      requires Valid() && timer.Pause?
      modifies this
      ensures Valid()
      ensures currentIndex == NextIndex(old(currentIndex))
      ensures placeholder == [] && !isTyping && timer == Idle
      ensures input == old(input)
    {
      currentIndex := NextIndex(currentIndex);
      placeholder := [];
      isTyping := false;
      timer := Idle;
    }

    /** The interval run to its end over a fresh phrase: the placeholders it
        shows, in order, are exactly the phrase's prefixes, and it stops on
        the whole phrase with the pause running. */
    method TypePhrase() returns (shown: seq<string>)
      requires Valid() && timer.Interval? && timer.charIndex == 0
      modifies this
      ensures Valid() && timer == Pause
      ensures currentIndex == old(currentIndex) && input == old(input)
      ensures shown == Frames(Placeholders[currentIndex])
      ensures placeholder == Placeholders[currentIndex]
    {
      var phrase := timer.phrase;
      shown := [];
      while timer.Interval?
        invariant Valid() && isTyping
        invariant currentIndex == old(currentIndex) && input == old(input)
        invariant phrase == Placeholders[currentIndex]
        invariant timer.Interval? || timer == Pause
        invariant timer.Interval? ==> timer.charIndex == |shown|
        invariant timer == Pause ==> |shown| == |phrase| + 1
        invariant |shown| <= |phrase| + 1
        invariant forall j :: 0 <= j < |shown| ==> shown[j] == phrase[..j]
        decreases if timer.Interval? then |phrase| + 2 - timer.charIndex else 0
      {
        var k := timer.charIndex;
        Tick();
        if k <= |phrase| {
          shown := shown + [placeholder];
        }
      }
      assert placeholder == phrase[..|phrase|];
    }

    /** `onChange`: the field's value becomes what was typed. */
    method SetInput(value: string)
      modifies this
      ensures input == value
      ensures placeholder == old(placeholder) && currentIndex == old(currentIndex)
      ensures isTyping == old(isTyping) && timer == old(timer)
    {
      input := value;
    }

    /** `handleSubmit()` up to its `await`: blank input is ignored;
        otherwise the input, as typed and not trimmed, is handed to
        `handleQuestionSubmit` (returned here). The field keeps its text
        while the request runs. */
    method BeginHandleSubmit() returns (submitted: Option<string>)
      ensures submitted.Some? <==> HasText(input)
      ensures submitted.Some? ==> submitted.value == input
    {
      if HasText(input) {
        submitted := Some(input);
      } else {
        submitted := None;
      }
    }

    /** The rest of `handleSubmit()`, once `handleQuestionSubmit` has settled:
        the field is cleared, whatever was typed into it in the meantime. */
    method FinishHandleSubmit()
      modifies this
      ensures input == []
      ensures placeholder == old(placeholder) && currentIndex == old(currentIndex)
      ensures isTyping == old(isTyping) && timer == old(timer)
    {
      input := [];
    }

    /** `handleSubmit()` from start to end, with nothing typed while the
        request runs: the untrimmed input is submitted and the field ends
        empty; blank input changes nothing. */
    method HandleSubmit() returns (submitted: Option<string>)
      modifies this
      ensures HasText(old(input)) ==> submitted == Some(old(input)) && input == []
      ensures !HasText(old(input)) ==> submitted == None && input == old(input)
      ensures placeholder == old(placeholder) && currentIndex == old(currentIndex)
      ensures isTyping == old(isTyping) && timer == old(timer)
    {
      submitted := BeginHandleSubmit();
      if submitted.Some? {
        FinishHandleSubmit();
      }
    }

    /** A key press in the field starts a submit only on Enter. There is no
        loading guard, and the field still holds its text until the request
        settles, so a second Enter submits the same text again. */
    method OnKeyDown(key: string) returns (submitted: Option<string>)
      ensures submitted.Some? <==> key == EnterKey && HasText(input)
      ensures submitted.Some? ==> submitted.value == input
    {
      if key == EnterKey {
        submitted := BeginHandleSubmit();
      } else {
        submitted := None;
      }
    }

    /** The send button is disabled while loading; otherwise a click starts
        a submit. */
    method OnClickSend(loading: bool) returns (submitted: Option<string>)
      ensures submitted.Some? <==> !loading && HasText(input)
      ensures submitted.Some? ==> submitted.value == input
    {
      if loading {
        submitted := None;
      } else {
        submitted := BeginHandleSubmit();
      }
    }
  }
}
