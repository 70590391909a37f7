# BORIS talking face: the conversation core in Dafny

BORIS is a ROS 2 node that drives an animated robot face. It listens through a microphone and sends the
transcript, with the whole conversation so far, to a local language model. It reads an emotion tag
such as `[happy]` from the reply, sets the face to the pose for that tag, and speaks the reply while
moving the jaw. This project models the pure logic of that node, all of it in
`boris_face/talk_with_me.py`. Each part is proved against a contract that says what it means for
the caller.

- **Text**: the character and substring primitives the reply transforms are built from:
  - Python's whitespace class, which is the same for `str.isspace()`, `\s` and `str.strip()`;
  - substring search and `in`;
  - `strip()`;
  - `split(sep)[-1]`.
- **Emotion**: `extrair_emocao`, which picks the tag, and `remover_emocao`, which cuts the marker
  out of the text before it is spoken. The regular expression is modelled as an explicit scan:
  - the leftmost position where any marker starts wins;
  - at that position the alternatives are tried in their written order;
  - a greedy whitespace run follows the marker.
- **Reply**: `extract_final_answer`, as the same explicit scans:
  - lazy removal of closed `<think>…</think>` blocks;
  - removal of an unterminated `<think>` through to the end;
  - deletion of the literal `...done thinking.`;
  - a single non-overlapping pass deleting `thinking` (in any letter case) and the dots after it.
    The case-insensitive match is the one Python applies, so U+0130, U+0131 and the Kelvin sign also
    match;
  - the final-paragraph step.
- **Conversation**: the state the node keeps, namely the history and `last_command`:
  - its initial value, set by the constructor;
  - one pass of `listen_and_process`, with the microphone, the recogniser and the model runner as
    parameters;
  - the listening loop, as a fold of passes over a sequence of outcomes;
  - one frame of the jaw animation.

## Notes on the code's behaviour

- Tag extraction and marker removal run on the cleaned answer. A marker inside a reasoning block
  or in an earlier paragraph of the reply is therefore never seen.
- Stripping the reasoning blocks is idempotent (`Reply.StripThinkIdempotent`), but the whole of
  `extract_final_answer` is not. Its single noise pass can join two fragments into a new match
  (`Reply.ExtractFinalAnswerNotIdempotent`).
- A pose has whatever length the pose table gives it. A frame fails when the pose is too short for
  an index the frame writes; nothing checks for fifteen joints.
- The face is set to neutral only after the microphone has opened. When opening it fails, the face
  turns sad and the apology is spoken, and no listening prompt is spoken first.

## Model

| member | source | states |
|---|---|---|
| `Emotion.FirstPresent` | boris_face/talk_with_me.py:126-128 | The priority scan: the tag returned is the first tag in priority order, from position k on, that satisfies the test. No tag between k and it does; when none is returned, no tag from k on does. |
| `Emotion.Extract` | boris_face/talk_with_me.py:124-129 | The tag returned has its marker in the text. The only exception is neutral, which is returned when none of the seven markers occurs. No tag earlier in priority order has its marker in the text. |
| `Emotion.ExtractIsTheOnlyChoice` | boris_face/talk_with_me.py:124-129 | The two conditions above determine the tag: any tag meeting them is the one returned. |
| `Emotion.ExtractDependsOnlyOnMarkersPresent` | boris_face/talk_with_me.py:126-127 | Two texts carrying the same set of markers yield the same tag, wherever the markers stand. |
| `Emotion.ExtractSingleMarker` | boris_face/talk_with_me.py:126-128 | A text carrying exactly one of the seven markers yields that marker's tag. |
| `Emotion.ExtractIgnoresUnknownMarker` | boris_face/talk_with_me.py:125-129 | `[furious] Grr!` yields neutral: a bracketed word outside the seven is never taken for a tag. |
| `Emotion.ExtractPrefersPriorityOverPosition` | boris_face/talk_with_me.py:125-128 | In `[sad] Oi [happy]` the tag is happy, although `[sad]` comes first. |
| `Emotion.AtMostOneMarkerAt` | boris_face/talk_with_me.py:134 | At most one marker can start at any index, so the order of the alternatives in the pattern never decides what is removed. |
| `Emotion.MarkerAt` | boris_face/talk_with_me.py:134 | The marker the pattern matches at an index occurs there, and when none is returned no marker starts there. |
| `Emotion.FindMarker` | boris_face/talk_with_me.py:134 | The index found holds a marker and no marker starts between the starting point and it; when none is found, no marker starts anywhere from the starting point on. |
| `Emotion.RemoveMarker` | boris_face/talk_with_me.py:133-134 | The removal never lengthens the text, and it shortens the text whenever the scan finds a marker. |
| `Emotion.RemoveMarkerCutsLeftmost` | boris_face/talk_with_me.py:133-134 | The text is unchanged exactly when it carries none of the seven markers. Otherwise the result is the text with the leftmost marker and the whitespace run after it cut out, and every other character kept in place. |
| `Emotion.RemoveMarkerTakesLeftmost` | boris_face/talk_with_me.py:124-134 | From `[sad] Oi [happy]` the removal gives `Oi [happy]`. It removes a different marker from the one whose tag was extracted, and the later marker is spoken. |
| `Emotion.TaggedRoundTrip` | boris_face/talk_with_me.py:124-134 | In a reply in the persona's format (a marker, a space, then a body with no marker that does not start with whitespace), extraction gives back the tag and removal gives back the body. |
| `Reply.StripClosedFrom` | boris_face/talk_with_me.py:163 | The block scan from an index never yields more text than it scans. |
| `Reply.StripClosedFromSpec` | boris_face/talk_with_me.py:163 | With no closed block from the starting index on, the rest of the text comes back unchanged. Otherwise the result is at least one opening and one closing tag shorter. |
| `Reply.StripClosedFirstBlock` | boris_face/talk_with_me.py:163 | The scan copies the text before the first opening tag unchanged. It then cuts from that tag through the first closing tag that starts at or after the end of the opening tag, and goes on after that closing tag. |
| `Reply.StripClosedThink` | boris_face/talk_with_me.py:163 | The text is unchanged exactly when it has no closed `<think>…</think>` block, and the result is never longer. |
| `Reply.StripClosedStrayClose` | boris_face/talk_with_me.py:163 | `<think>a</think>b</think>` gives `b</think>`: the shortest match ends at the first closing tag, and a closing tag with no opening tag before it survives. |
| `Reply.StripUnterminatedThink` | boris_face/talk_with_me.py:164 | The result is the text before the first `<think>`. It is a prefix of the text, and no `<think>` starts inside it. When the text has a `<think>`, one starts right where the result ends; otherwise the result is the whole text. |
| `Reply.StripThink` | boris_face/talk_with_me.py:163-164 | After both stripping steps no `<think>` remains, and the text never grows. |
| `Reply.StripThinkIdempotent` | boris_face/talk_with_me.py:163-164 | Stripping the reasoning twice gives what stripping it once gives. |
| `Reply.MatchLen` | boris_face/talk_with_me.py:165-166 | A deletion pattern matches at an index exactly when the literal occurs there, or when `thinking` in any case starts there. A literal match is as long as the literal. A noise match is `thinking` followed by the whole run of dots after it, up to the first character that is not a dot or the end of the text. A match stays inside the text. |
| `Reply.RemoveMatches` | boris_face/talk_with_me.py:165-166 | A deletion pass never makes the text longer than the stretch it scans. |
| `Reply.RemoveMatchesFirst` | boris_face/talk_with_me.py:165-166 | The pass copies the text up to the first match, deletes exactly that match and resumes right after it. |
| `Reply.RemoveMatchesShift` | boris_face/talk_with_me.py:165-166 | A pass started part-way through a text gives what a pass over the rest of the text gives: what came before never affects the result. |
| `Reply.FirstMatchThenRest` | boris_face/talk_with_me.py:165-166 | A whole pass is the text before the first match, followed by a fresh pass over the text after that match. |
| `Reply.RemoveMatchesUnchanged` | boris_face/talk_with_me.py:165-166 | A deletion pass leaves the text unchanged exactly when its pattern matches nowhere. |
| `Reply.KeepUnmatched` | boris_face/talk_with_me.py:166 | A stretch of text where the pattern matches nowhere is copied through unchanged, and the scan goes on after it. |
| `Reply.RemoveDoneThinking` | boris_face/talk_with_me.py:165 | The text is unchanged exactly when `...done thinking.` does not occur in it, and it never grows. |
| `Reply.RemoveDoneThinkingFirst` | boris_face/talk_with_me.py:165 | The text before the first `...done thinking.` is kept, that occurrence is deleted, and the text after it is cleaned in the same way. |
| `Reply.RemoveThinkingNoise` | boris_face/talk_with_me.py:166 | The text is unchanged exactly when `thinking`, in any letter case, occurs nowhere in it, and it never grows. |
| `Reply.RemoveThinkingNoiseFirst` | boris_face/talk_with_me.py:166 | The text before the first `thinking` is kept. That word and the whole run of dots after it are deleted, and the text after them is cleaned in the same way. |
| `Reply.Clean` | boris_face/talk_with_me.py:163-166 | The four cleaning steps never lengthen the reply, and they leave a reply with no `<think>`, no `...done thinking.` and no `thinking` unchanged. |
| `Reply.Cut` | boris_face/talk_with_me.py:168-170 | The paragraph step keeps a text with no blank line as it is, and what it keeps never has a blank line. |
| `Reply.FinalParagraph` | boris_face/talk_with_me.py:168-172 | The result is a piece of the cleaned text with no surrounding whitespace and no blank line. When the stripped text has no blank line, the result is the stripped text. When it has one, the result is the stripped tail that starts right after a blank line and holds none itself. |
| `Reply.ExtractFinalAnswer` | boris_face/talk_with_me.py:162-172 | The answer has no surrounding whitespace and no blank line, and it is a piece of the reply with the reasoning and the noise removed. |
| `Reply.SingleBlockThenAnswer` | boris_face/talk_with_me.py:162-172 | A reply made of one reasoning block followed by an answer gives the stripped answer. The reasoning and the answer must hold no `<`, and the answer must hold no noise and no blank line. |
| `Reply.NoiseJoinsAcrossMatch` | boris_face/talk_with_me.py:166 | In `thinthinkingking` the single pass deletes the inner `thinking`, and the remains join into a new `thinking`, which it does not revisit. |
| `Reply.ExtractFinalAnswerNotIdempotent` | boris_face/talk_with_me.py:162-172 | `thinthinkingking` gives `thinking`, which gives the empty answer: applying the function twice differs from applying it once. |
| `Text.Contains` | boris_face/talk_with_me.py:127 | Python's `in` on strings: true exactly when the text has an occurrence of the pattern at some index. |
| `Text.Strip` | boris_face/talk_with_me.py:172 | The result has no whitespace at either end, and it is a piece of the text with only whitespace before it and after it. |
| `Text.LastPart` | boris_face/talk_with_me.py:169-170 | `split(sep)[-1]`: a tail of the text with no separator in it. It is the whole text when the separator does not occur, and otherwise it starts right where an occurrence of the separator ends. |
| `Text.LastCutSpec` | boris_face/talk_with_me.py:169-170 | The cut for the last part lies after every occurrence of the separator from the starting index on. It is the starting index when there is none, and otherwise it is the end of an occurrence. |
| `Text.LastPartAfterFirst` | boris_face/talk_with_me.py:169-170 | Splitting cuts from left to right. The last part of a text is the last part of what follows its first occurrence of the separator. |
| `Text.LastPartOverlapping` | boris_face/talk_with_me.py:169-170 | When occurrences overlap, the leftmost one is cut first: `a` followed by three newlines and `b`, split on a blank line, ends in a newline followed by `b`. |
| `Conversation.Init` | boris_face/talk_with_me.py:40-60 | The history is the persona's system message alone and the face is neutral, so the state is well formed. |
| `Conversation.AppendUser` | boris_face/talk_with_me.py:189 | Appending the user's transcript keeps the history's shape: one leading system message, and every assistant message preceded by a user message. |
| `Conversation.AppendAssistant` | boris_face/talk_with_me.py:202 | Appending the answer right after a user message keeps that shape. |
| `Conversation.ListenAndProcess` | boris_face/talk_with_me.py:179-210 | The history is only appended to. A transcript adds the user message, and a reply then adds the cleaned answer with its marker. A runner failure keeps the user message, and nothing is appended without a transcript. After any failure the face is sad. On success the face is the tag when the pose table has it and sad otherwise. |
| `Conversation.ListenAndProcessSpeech` | boris_face/talk_with_me.py:181-210 | Every pass says something. After any failure the apology is the last thing said, under the sad face. On success the listening prompt is spoken under the neutral face, then the answer with its leftmost marker removed, under the face the pass chose. |
| `Conversation.ListenAndProcessKeepsWellFormed` | boris_face/talk_with_me.py:179-210 | A pass keeps the state well formed: the history keeps its shape and the face stays one of the seven names. |
| `Conversation.CompleteFacesAlwaysHavePose` | boris_face/talk_with_me.py:197-200 | With a pose for every tag, the face after a pass always has a pose, and a reply's tag is always taken. |
| `Conversation.RepliedPass` | boris_face/talk_with_me.py:186-205 | A pass that hears the user and gets an answer whose tag has a pose: it appends both messages, takes the tag and speaks the body. |
| `Conversation.ReasonedTaggedPass` | boris_face/talk_with_me.py:179-205 | When the model reasons in one block and then answers in the persona's format, the history records the tagged answer, the face takes the tag and only the body is spoken. |
| `Conversation.Run` | boris_face/talk_with_me.py:217-220 | The listening loop only appends to the history. |
| `Conversation.RunConcat` | boris_face/talk_with_me.py:217-220 | Running the loop over two batches of events, one after the other, is running it over both at once. Each pass starts from the state the previous one left. |
| `Conversation.RunOnlyAppends` | boris_face/talk_with_me.py:217-220 | Over any number of passes of the listening loop the history is only appended to, by at most two messages a pass. |
| `Conversation.RunKeepsWellFormed` | boris_face/talk_with_me.py:217-220 | Every state the listening loop reaches from a well-formed state is well formed. |
| `Conversation.JawFrame` | boris_face/talk_with_me.py:79-87 | A frame is produced exactly when the face has a pose long enough for the indices written. It has the pose's length, the jaw is set to the given value, and the eye joints are wide open on a blink. Every other joint is as in the stored pose, which is not changed. |

## Left out

- ROS 2 node setup, the joint-state publisher, its 0.1 s timer and `publish_joint_state` (lines 141-146) are middleware I/O.
- The thread that runs `animate_jaw` is left out, together with the `speaking_flag` stop protocol in `say` and every `time.sleep`. What they add is concurrency and wall-clock timing. The model gives one frame of the animation, and each spoken text with the face in effect when it is spoken.
- `main` and the timing of `start_listening_loop` are left out. The loop itself is modelled by `Conversation.Run` as a sequence of passes.
- External programs and services are not modelled: the `espeak-ng` and `ollama` subprocesses (`ask_ollama`, lines 153-158), the microphone and Google recognition. Their outcomes are parameters of a pass.
- Conversation.ListenAndProcess: a `say` that raises is not modelled. A raise during the prompt or the answer would be caught like any other failure, and a raise during the apology would end the loop's thread.
- Loading `emotions.yaml` is not modelled. The pose table is given as a map from the expression name to its `positions` list.
- Conversation.JawFrame: the jaw value `0.2 * sin(20 t)` and the `randint(1, 300)` draw are parameters, because they are floating point and randomness. An exception inside the animation thread, which only ends that thread, is the `None` result.
- `print` output is not modelled.
- `whisper.py`, `list_mic.py` and `speech_to_text.py` are standalone audio-capture scripts and are not part of this model.
- Python's regular-expression engine in general is not modelled. Only the four patterns used here are modelled, each as an explicit scan.
