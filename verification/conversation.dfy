/** The conversation state of the talking node (`history`, `last_command`), one pass
    of its listening loop (`listen_and_process`) with the outcomes of the microphone,
    the recogniser and the model runner as parameters, and the pose of one frame of
    the jaw animation. */
module Conversation {
  import opened Text
  import opened Emotion
  import Reply

  datatype Role = System | User | Assistant

  /** One message of the conversation sent to the model. */
  datatype Turn = Turn(role: Role, content: string)

  /** Joint positions in the order of the published joint names. */
  type Pose = seq<real>

  /** The pose table read at start-up: expression name to joint positions. */
  type Faces = map<string, Pose>

  /** What the node keeps between passes: the conversation so far and the name of the
      expression the face shows. */
  datatype State = State(history: seq<Turn>, lastCommand: string)

  /** The persona and the marker contract given to the model as its system message. */
  const Persona: string :=
    "Você deve agir como BORIS, da cidade de Rio Grande, "
    + "Você deve fingir que tem sentimos como um humano "
    + "representante da equipe Éfibote. "
    + "Nunca use emojis, símbolos ou asteriscos. "
    + "Sua forma de falar é simples, direta e sempre educada. "
    + "Você deve sempre indicar sua emoção atual no início da resposta, "
    + "usando exatamente um destes marcadores: "
    + "[happy], [sad], [angry], [surprised], [suspicious], [sleepy]. "
    + "É permitido apenas uma expressão por resposta. "
    + "Nunca diga que você é uma Inteligência Artificial. "
    + "Tente não ficar repetindo emoções."

  /** Spoken before listening. */
  const ListeningPrompt: string := "Pode falar."

  /** Spoken after any failure of a pass. */
  const Apology: string := "Perdão, não entendi."

  /** The expression shown after a failure, and the fallback for a tag without a pose. */
  const FailureFace: string := "sad"

  /** The history starts with the one system message and holds no other, and every
      assistant message answers the user message right before it. */
  ghost predicate HistoryShape(h: seq<Turn>) {
    && |h| >= 1
    && h[0] == Turn(System, Persona)
    && (forall i :: 1 <= i < |h| ==> h[i].role != System)
    && (forall i :: 1 <= i < |h| && h[i].role == Assistant ==> h[i - 1].role == User)
  }

  /** The history has its shape and the face is named after one of the seven expressions. */
  ghost predicate WellFormed(st: State) {
    HistoryShape(st.history) && exists e :: st.lastCommand == Name(e)
  }

  /** What appending one message to a history keeps and adds. */
  lemma {:induction false} AppendOne(h: seq<Turn>, t: Turn)
    ensures h <= h + [t] && |h + [t]| == |h| + 1 && (h + [t])[|h|] == t
  {
  }

  /** Appending a user message keeps the shape. */
  lemma {:induction false} AppendUser(h: seq<Turn>, text: string)
    requires HistoryShape(h)
    ensures HistoryShape(h + [Turn(User, text)])
  {
    var h' := h + [Turn(User, text)];
    forall i | 1 <= i < |h'|
      ensures h'[i].role != System
      ensures h'[i].role == Assistant ==> h'[i - 1].role == User
    {
      if i < |h| {
        assert h'[i] == h[i] && h'[i - 1] == h[i - 1];
      }
    }
  }

  /** Appending an assistant message right after a user message keeps the shape. */
  lemma {:induction false} AppendAssistant(h: seq<Turn>, answer: string)
    requires HistoryShape(h) && h[|h| - 1].role == User
    ensures HistoryShape(h + [Turn(Assistant, answer)])
  {
    var h' := h + [Turn(Assistant, answer)];
    forall i | 1 <= i < |h'|
      ensures h'[i].role != System
      ensures h'[i].role == Assistant ==> h'[i - 1].role == User
    {
      if i < |h| {
        assert h'[i] == h[i] && h'[i - 1] == h[i - 1];
      }
    }
  }

  /** The state built by the constructor: the system message alone, a neutral face. */
  function Init(): (st: State)
    ensures WellFormed(st)
    ensures st.history == [Turn(System, Persona)]
    ensures st.lastCommand == Name(Neutral)
  {
    var st := State([Turn(System, Persona)], Name(Neutral));
    assert st.lastCommand == Name(Neutral);
    st
  }

  /** What the microphone and the recogniser produced in a pass. */
  datatype Capture =
    | NoMicrophone         // opening the microphone raised, before anything was said
    | NotUnderstood        // the prompt was spoken, then listening or recognition raised
    | Heard(text: string)  // the recognised transcript

  /** What the model runner produced: its output, or an exception. */
  datatype Inference = RunnerFailed | Replied(raw: string)

  /** One call of `say`: the text spoken and the expression the jaw animation uses. */
  datatype Utterance = Utterance(text: string, face: string)

  /** The state after a pass and what was said during it, in order. */
  datatype Pass = Pass(state: State, said: seq<Utterance>)

  /** `listen_and_process`. The history only ever grows at its end: by the user's
      transcript once one is recognised, and by the cleaned reply (marker still in it)
      once the model answered. A failure after the transcript leaves the user message
      in place. The face ends as the reply's tag when the pose table has it and as the
      failure face after any failure or for a tag without a pose. The reply is spoken
      with its leftmost marker removed; every failure ends with the apology. */
  function ListenAndProcess(st: State, faces: Faces, capture: Capture, inference: Inference): (p: Pass)
    ensures st.history <= p.state.history
    ensures |p.state.history| == |st.history| + (if capture.Heard? then (if inference.Replied? then 2 else 1) else 0)
    ensures capture.Heard? ==> p.state.history[|st.history|] == Turn(User, capture.text)
    ensures capture.Heard? && inference.Replied? ==>
              p.state.history[|st.history| + 1] == Turn(Assistant, Reply.ExtractFinalAnswer(inference.raw))
    ensures !(capture.Heard? && inference.Replied?) ==> p.state.lastCommand == FailureFace
    ensures capture.Heard? && inference.Replied? && Name(Extract(Reply.ExtractFinalAnswer(inference.raw))) in faces ==>
              p.state.lastCommand == Name(Extract(Reply.ExtractFinalAnswer(inference.raw)))
    ensures capture.Heard? && inference.Replied? && Name(Extract(Reply.ExtractFinalAnswer(inference.raw))) !in faces ==>
              p.state.lastCommand == FailureFace
  {
    var prompt := Utterance(ListeningPrompt, Name(Neutral));
    var apology := Utterance(Apology, FailureFace);
    match capture
    case NoMicrophone =>
      Pass(st.(lastCommand := FailureFace), [apology])
    case NotUnderstood =>
      Pass(st.(lastCommand := FailureFace), [prompt, apology])
    case Heard(text) =>
      var asked := st.history + [Turn(User, text)];
      AppendOne(st.history, Turn(User, text));
      match inference
      case RunnerFailed =>
        Pass(State(asked, FailureFace), [prompt, apology])
      case Replied(raw) =>
        var answer := Reply.ExtractFinalAnswer(raw);
        AppendOne(asked, Turn(Assistant, answer));
        var tag := Name(Extract(answer));
        var face := if tag in faces then tag else FailureFace;
        Pass(State(asked + [Turn(Assistant, answer)], face), [prompt, Utterance(RemoveMarker(answer), face)])
  }

  /** What a pass says: every failure ends with the apology under the failure face; a
      reply is spoken with its leftmost marker removed, under the face the pass chose,
      after the listening prompt spoken under the neutral face. */
  lemma {:induction false} ListenAndProcessSpeech(st: State, faces: Faces, capture: Capture, inference: Inference)
    ensures var p := ListenAndProcess(st, faces, capture, inference);
            && |p.said| >= 1
            && (!(capture.Heard? && inference.Replied?) ==> p.said[|p.said| - 1] == Utterance(Apology, FailureFace))
            && (capture.Heard? && inference.Replied? ==>
                  p.said == [Utterance(ListeningPrompt, Name(Neutral)),
                             Utterance(RemoveMarker(Reply.ExtractFinalAnswer(inference.raw)), p.state.lastCommand)])
  {
    var prompt := Utterance(ListeningPrompt, Name(Neutral));
    var apology := Utterance(Apology, FailureFace);
    var said := ListenAndProcess(st, faces, capture, inference).said;
    match capture
    case NoMicrophone =>
      assert said == [apology];
    case NotUnderstood =>
      assert said == [prompt, apology];
    case Heard(text) =>
      match inference
      case RunnerFailed =>
        assert said == [prompt, apology];
      case Replied(raw) =>
        var answer := Reply.ExtractFinalAnswer(raw);
        var face := ListenAndProcess(st, faces, capture, inference).state.lastCommand;
        assert said == [prompt, Utterance(RemoveMarker(answer), face)];
  }

  /** A pass keeps the state well formed. */
  lemma {:induction false} ListenAndProcessKeepsWellFormed(st: State, faces: Faces, capture: Capture, inference: Inference)
    requires WellFormed(st)
    ensures WellFormed(ListenAndProcess(st, faces, capture, inference).state)
  {
    var p := ListenAndProcess(st, faces, capture, inference);
    if capture.Heard? {
      var asked := st.history + [Turn(User, capture.text)];
      AppendUser(st.history, capture.text);
      if inference.Replied? {
        var answer := Reply.ExtractFinalAnswer(inference.raw);
        assert HistoryShape(p.state.history) by {
          AppendAssistant(asked, answer);
          assert p.state.history == asked + [Turn(Assistant, answer)];
        }
        var e := Extract(answer);
        assert p.state.lastCommand == Name(e) || p.state.lastCommand == Name(Sad);
      } else {
        assert p.state == State(asked, Name(Sad));
      }
    } else {
      assert p.state == State(st.history, Name(Sad));
    }
  }

  /** The table has a pose for each of the seven expressions. */
  ghost predicate Complete(faces: Faces) {
    forall e :: Name(e) in faces
  }

  /** With a complete pose table the face after a pass always has a pose, and a reply's
      tag is always taken: the fallback to the failure face never fires. */
  lemma {:induction false} CompleteFacesAlwaysHavePose(st: State, faces: Faces, capture: Capture, inference: Inference)
    requires Complete(faces)
    ensures ListenAndProcess(st, faces, capture, inference).state.lastCommand in faces
    ensures capture.Heard? && inference.Replied? ==>
              ListenAndProcess(st, faces, capture, inference).state.lastCommand
                == Name(Extract(Reply.ExtractFinalAnswer(inference.raw)))
  {
    assert Name(Sad) in faces;
  }

  /** A pass in which the model reasons in one block and then answers in the format the
      persona asks for: the reasoning is dropped, the history records the tagged answer
      after the user's words, the face takes the tag, and the body alone is spoken. */
  lemma {:induction false} ReasonedTaggedPass(st: State, faces: Faces, capture: Capture, inference: Inference,
                           reasoning: string, e: Emotion, body: string)
    requires Complete(faces)
    requires capture.Heard?
    requires inference == Replied(Reply.Open + reasoning + Reply.Close + Tagged(e, body))
    requires '<' !in reasoning && '<' !in Tagged(e, body)
    requires !Contains(Tagged(e, body), Reply.DoneThinking)
    requires forall k: nat :: k < |Tagged(e, body)| ==> !Reply.ThinkingAt(Tagged(e, body), k)
    requires !Contains(Tagged(e, body), Reply.Blank)
    requires forall c :: !Contains(body, Marker(c))
    requires body != [] && !IsSpace(body[0]) && !IsSpace(body[|body| - 1])
    ensures var p := ListenAndProcess(st, faces, capture, inference);
            && p.state.history == st.history + [Turn(User, capture.text)] + [Turn(Assistant, Tagged(e, body))]
            && p.state.lastCommand == Name(e)
            && p.said == [Utterance(ListeningPrompt, Name(Neutral)), Utterance(body, Name(e))]
  {
    var y := Tagged(e, body);
    TaggedAnswerSurvives(reasoning, e, body);
    TaggedRoundTrip(e, body);
    assert Name(e) in faces;
    RepliedPass(st, faces, capture, inference, y);
  }

  /** The tagged answer after one reasoning block is what the cleaning keeps. */
  lemma {:induction false} TaggedAnswerSurvives(reasoning: string, e: Emotion, body: string)
    requires '<' !in reasoning && '<' !in Tagged(e, body)
    requires !Contains(Tagged(e, body), Reply.DoneThinking)
    requires forall k: nat :: k < |Tagged(e, body)| ==> !Reply.ThinkingAt(Tagged(e, body), k)
    requires !Contains(Tagged(e, body), Reply.Blank)
    requires body != [] && !IsSpace(body[|body| - 1])
    ensures Reply.ExtractFinalAnswer(Reply.Open + reasoning + Reply.Close + Tagged(e, body)) == Tagged(e, body)
  {
    var y := Tagged(e, body);
    assert Reply.ExtractFinalAnswer(Reply.Open + reasoning + Reply.Close + y) == Strip(y) by {
      Reply.SingleBlockThenAnswer(reasoning, y);
    }
    assert Strip(y) == y by {
      TaggedIsStripped(e, body);
      StripOfStripped(y);
    }
  }

  /** A tagged reply starts with the marker's bracket, so it is stripped when its body
      does not end in whitespace. */
  lemma {:induction false} TaggedIsStripped(e: Emotion, body: string)
    requires body != [] && !IsSpace(body[|body| - 1])
    ensures IsStripped(Tagged(e, body))
  {
    var y := Tagged(e, body);
    assert y[|y| - 1] == body[|body| - 1];
    assert y[0] == Marker(e)[0] == '[';
  }

  /** A pass that hears the user and gets a reply whose tag has a pose. */
  lemma {:induction false} RepliedPass(st: State, faces: Faces, capture: Capture, inference: Inference, answer: string)
    requires capture.Heard? && inference.Replied?
    requires Reply.ExtractFinalAnswer(inference.raw) == answer
    requires Name(Extract(answer)) in faces
    ensures ListenAndProcess(st, faces, capture, inference)
              == Pass(State(st.history + [Turn(User, capture.text)] + [Turn(Assistant, answer)], Name(Extract(answer))),
                      [Utterance(ListeningPrompt, Name(Neutral)), Utterance(RemoveMarker(answer), Name(Extract(answer)))])
  {
    match capture
    case Heard(text) =>
      match inference
      case Replied(raw) =>
        var asked := st.history + [Turn(User, text)];
        var tag := Name(Extract(answer));
        var p := ListenAndProcess(st, faces, capture, inference);
        assert p.state == State(asked + [Turn(Assistant, answer)], tag);
        assert p.said == [Utterance(ListeningPrompt, Name(Neutral)), Utterance(RemoveMarker(answer), tag)];
  }

  /** The outcomes of one pass of the listening loop. */
  datatype Event = Event(capture: Capture, inference: Inference)

  /** The state after the listening loop has run one pass per event. */
  function Run(st: State, faces: Faces, events: seq<Event>): (r: State)
    ensures st.history <= r.history
    decreases |events|
  {
    if |events| == 0 then st
    else Run(ListenAndProcess(st, faces, events[0].capture, events[0].inference).state, faces, events[1..])
  }

  /** Running the loop over two batches of events one after the other is running it
      over both at once: each pass starts from the state the previous one left. */
  lemma {:induction false} RunConcat(st: State, faces: Faces, first: seq<Event>, second: seq<Event>)
    ensures Run(st, faces, first + second) == Run(Run(st, faces, first), faces, second)
    decreases |first|
  {
    if |first| == 0 {
      assert first + second == second;
    } else {
      var next := ListenAndProcess(st, faces, first[0].capture, first[0].inference).state;
      assert (first + second)[0] == first[0];
      assert (first + second)[1..] == first[1..] + second;
      RunConcat(next, faces, first[1..], second);
    }
  }

  /** Over any number of passes the history is only appended to, by at most two
      messages a pass. */
  lemma {:induction false} RunOnlyAppends(st: State, faces: Faces, events: seq<Event>)
    ensures st.history <= Run(st, faces, events).history
    ensures |Run(st, faces, events).history| <= |st.history| + 2 * |events|
    decreases |events|
  {
    if |events| > 0 {
      var next := ListenAndProcess(st, faces, events[0].capture, events[0].inference).state;
      RunOnlyAppends(next, faces, events[1..]);
    }
  }

  /** Starting from the constructor's state, every state the loop reaches is well formed. */
  lemma {:induction false} RunKeepsWellFormed(st: State, faces: Faces, events: seq<Event>)
    requires WellFormed(st)
    ensures WellFormed(Run(st, faces, events))
    decreases |events|
  {
    if |events| > 0 {
      var e := events[0];
      ListenAndProcessKeepsWellFormed(st, faces, e.capture, e.inference);
      RunKeepsWellFormed(ListenAndProcess(st, faces, e.capture, e.inference).state, faces, events[1..]);
    }
  }

  /** Index of the jaw among the joints. */
  const JawJoint: nat := 2

  /** Indices of the four eye joints a blink widens. */
  const EyeJoints: set<nat> := {3, 4, 9, 10}

  /** Eye opening used for a blink. */
  const EyeWide: real := 0.680

  /** A frame blinks when the draw from 1..300 exceeds this. */
  const BlinkAbove: int := 280

  /** One frame of `animate_jaw`: a copy of the pose of `command` with the jaw set to
      `jaw`, and when the draw `roll` blinks, the four eye joints set wide open. None
      when the frame raises: the command has no pose, or the pose is too short for an
      index that is written. The copy has the pose's length and differs from it only
      at the jaw and, on a blink, the eye joints; the table itself is a value and is
      left as it was. */
  function JawFrame(faces: Faces, command: string, jaw: real, roll: int): (r: Option<Pose>)
    requires 1 <= roll <= 300
    ensures r.Some? <==> command in faces && JawJoint < |faces[command]| && (roll <= BlinkAbove || 10 < |faces[command]|)
    ensures r.Some? ==> |r.value| == |faces[command]| && r.value[JawJoint] == jaw
    ensures r.Some? ==>
              forall i :: (0 <= i < |r.value| && i != JawJoint && (roll <= BlinkAbove || i !in EyeJoints))
                          ==> r.value[i] == faces[command][i]
    ensures r.Some? && roll > BlinkAbove ==> forall i :: i in EyeJoints ==> r.value[i] == EyeWide
  {
    if command !in faces || |faces[command]| <= JawJoint then None
    else
      var moved := faces[command][JawJoint := jaw];
      if roll <= BlinkAbove then Some(moved)
      else if |moved| <= 10 then None
      else Some(moved[3 := EyeWide][4 := EyeWide][9 := EyeWide][10 := EyeWide])
  }
}
