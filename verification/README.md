# ArogyaOne patient onboarding and chat demo: a Dafny model

This project models the logic of three React components of a rural-health
demo front end. The components hold no backend logic. Each piece of local
state they keep is modelled as an explicit immutable value, and each click,
keystroke or timer firing is modelled as a pure transition function.

- **Registration form** (`Onboarding`). The patient record has six text
  fields and a list of selected symptom ids. A single-field edit must leave
  everything else unchanged. A symptom toggle removes an id that is present
  and appends one that is absent. The wizard has three pages, clamped to
  `[0, 2]`. After "Complete Registration", a loading screen cycles through
  five messages modulo 5.
- **Chat widget** (`Chatbot`). The transcript opens with a greeting. Sending
  ignores blank input and otherwise appends one user message. A delayed step
  appends the bot's reply. The reply comes from a keyword matcher that works
  case-insensitively, by substring, in the fixed priority pain/hurt, then
  fever/hot, then better/good, then a default. The doctor avatar emoji is
  chosen by the reply's emotion.
- **Health-tip carousel** (`Carousel`). A cyclic index runs over four tips. It
  moves by next, previous, a dot click, or an auto-advance tick. An audio
  button is disabled while playback runs.

Supporting modules:
- `Text` models JavaScript's `trim`, ASCII `toLowerCase` and `includes`.
- `JsMath` models JavaScript's truncating `%`.
- `Wrappers` defines an `Option` type for TypeScript's optional properties.

The timers become explicit events:
- the 1500 ms chat reply becomes `Chatbot.DeliverReply`;
- the 1800 ms loading-message interval becomes `MessageTick`;
- the 9000 ms loading timeout becomes `LoadingFinished`;
- the 5000 ms carousel interval becomes `AutoAdvance`;
- the 3000 ms audio timeout becomes `AudioEnded`.

Several chat messages can be sent before the first reply is due. Their
replies are kept in a first-in, first-out queue (`pending`), because timers
with equal delays fire in the order they were set. Note that the typing
indicator is switched off by the first reply that arrives, even when further
replies are still due. The model keeps that behaviour.

## Model

| member | source | states |
|---|---|---|
| Onboarding.UpdateField | components/onboarding-form.tsx:45-50 | the edited field reads the new value; every other text field and the symptom list are unchanged |
| Onboarding.UpdateFieldSameValue | components/onboarding-form.tsx:45-50 | writing back a field's current value leaves the record as it was |
| Onboarding.UpdateFieldLastWins | components/onboarding-form.tsx:45-50 | of two edits to the same field, only the later one survives |
| Onboarding.UpdateFieldsCommute | components/onboarding-form.tsx:45-50 | edits to different fields are independent of each other and can be applied in either order |
| Onboarding.RemoveAll | components/onboarding-form.tsx:54 | the filter drops every copy of the id and keeps every other element with its multiplicity |
| Onboarding.RemoveAllAppend | components/onboarding-form.tsx:54 | the filter splits over concatenation, so the kept elements stay in their original order |
| Onboarding.RemoveAllAbsent | components/onboarding-form.tsx:54 | filtering out an id that is absent returns the list unchanged |
| Onboarding.RemoveAllDistinct | components/onboarding-form.tsx:54 | filtering a duplicate-free list leaves it duplicate-free |
| Onboarding.ToggleSymptom | components/onboarding-form.tsx:52-55 | after the toggle, the id is selected exactly when it was not selected before; other ids keep their counts; an absent id is appended at the end behind the unchanged old list |
| Onboarding.ToggleTwiceRestores | components/onboarding-form.tsx:52-55 | toggling an unselected id twice gives back the original list |
| Onboarding.ToggleTwiceMovesToEnd | components/onboarding-form.tsx:52-55 | toggling a selected id twice removes it everywhere and then appends it once at the end |
| Onboarding.ToggleKeepsDistinct | components/onboarding-form.tsx:52-55 | a selection without duplicates keeps no duplicates after a toggle |
| Onboarding.ToggleSymptomOf | components/onboarding-form.tsx:57-60 | a toggle on the record changes only the symptom list; name, age, gender, aadhaar, address and contact are kept |
| Onboarding.PreviousStep | components/onboarding-form.tsx:465 | "Previous" never produces a page below 0 |
| Onboarding.NextStep | components/onboarding-form.tsx:475 | "Next" never produces a page above `formSteps.length - 1` |
| Onboarding.StepsStayInRange | components/onboarding-form.tsx:465-475 | from a valid page, both buttons give a valid page: one back (staying at 0 on the first page) or one forward (staying at 2 on the last page) |
| Onboarding.PreviousUndoesNext | components/onboarding-form.tsx:465-475 | wherever "Next" is offered, "Previous" returns to the page it left |
| Onboarding.NextUndoesPrevious | components/onboarding-form.tsx:465-475 | wherever "Previous" is enabled, "Next" returns to the page it left |
| Onboarding.CompleteOnlyOnLastStep | components/onboarding-form.tsx:466-487 | on a valid page, "Complete Registration" replaces "Next" exactly on the last page (the helper `OffersComplete`, line 472); the helper `PreviousDisabled` (line 466), used by `Offered` and `NextUndoesPrevious`, disables "Previous" on page 0 |
| Onboarding.NextMessageIndex | components/onboarding-form.tsx:84 | a tick of the loading interval from a non-negative index yields `(i + 1) mod 5`, a valid message index |
| Onboarding.NextMessageIndexCounts | components/onboarding-form.tsx:84 | a tick advances the index the way counting modulo 5 does |
| Onboarding.MessageIndexCycles | components/onboarding-form.tsx:79-85 | starting at 0, the loading screen shows message `n mod 5` after `n` ticks, so the messages repeat in order |
| Onboarding.CurrentLoadingMessage | components/onboarding-form.tsx:79-85 | while the loading screen shows a valid form, the message on screen is one of the five loading messages |
| Onboarding.Offered | components/onboarding-form.tsx:98-110 | a completed form offers nothing; otherwise the two timers are offered exactly while the loading screen shows, and the form's controls exactly while it does not; each text input is offered only on its own page (the helper `StepOf`, for the field layout of lines 299-398) |
| Onboarding.Apply | components/onboarding-form.tsx:45-110 | each event changes only its own part: edits and toggles only the record (an edit keeps the symptoms, a toggle keeps the text fields), the buttons only the page, completion and the timers only the loading state and message index |
| Onboarding.CompletionIsFinal | components/onboarding-form.tsx:98-107 | once the loading timeout has fired and the app has moved to the chat tab, this instance of the form offers no further event, "Complete Registration" included |
| Onboarding.ApplyPreservesValid | components/onboarding-form.tsx:41-86 | every offered edit, toggle, button press or timer tick keeps the page in `[0, 2]`, the message index in `[0, 5)`, and the selection duplicate-free and drawn from the checklist ids |
| Onboarding.RunPreservesValid | components/onboarding-form.tsx:41-86 | any sequence of offered events keeps a valid form valid |
| Onboarding.ReachableFormsValid | components/onboarding-form.tsx:41-86 | every form reachable from the first render is valid |
| Chatbot.Greeting | components/voice-chatbot.tsx:38-46 | the opening message is a bot message with emotion `happy` |
| Chatbot.GreetingNamesPatient | components/voice-chatbot.tsx:42 | the greeting starts with "Hello ", ends with the fixed introduction, and addresses the patient's name, or "there" when the name is empty; that name can be read back from the text |
| Chatbot.GenerateBotResponse | components/voice-chatbot.tsx:89-121 | a pain/hurt keyword wins over all others; fever/hot is chosen only without pain/hurt; better/good only without any of those four; otherwise the default reply; the emotion is concerned, happy or neutral exactly in those cases |
| Chatbot.GenerateBotResponseIsFirstMatch | components/voice-chatbot.tsx:89-121 | the reply is the one for the first topic, in the order pain, fever, wellbeing, that the lower-cased input mentions, or the default |
| Chatbot.ResponsesIdentifyTopic | components/voice-chatbot.tsx:92-120 | the four replies are pairwise different, so a reply identifies the topic that produced it |
| Chatbot.ReplyIgnoresCase | components/voice-chatbot.tsx:90 | inputs that differ only in the case of letters get the same reply |
| Chatbot.ReplyDependsOnLowerCase | components/voice-chatbot.tsx:90 | lower-casing the input first does not change the reply |
| Chatbot.TooLongNotContained | components/voice-chatbot.tsx:92 | a keyword longer than the input never matches |
| Chatbot.ShotMatchesHot | components/voice-chatbot.tsx:100 | keyword matching is plain substring search: "Shot" gets the fever reply because it contains "hot" |
| Chatbot.DoctorEmoji | components/voice-chatbot.tsx:128-137 | the emoji is 😊 exactly for "happy" and 😟 exactly for "concerned"; every other value, and no value at all, gives 🩺 |
| Chatbot.AvatarOf | components/voice-chatbot.tsx:128-137 | a bot message shows the smile exactly when it is happy, the worried face exactly when it is concerned, and the stethoscope when it is neutral or has no emotion |
| Chatbot.ReplyAvatars | components/voice-chatbot.tsx:128-137 | pain and fever replies show the worried face, the wellbeing reply a smile, and the default reply the stethoscope |
| Chatbot.SendMessage | components/voice-chatbot.tsx:59-71 | blank content leaves the whole chat (transcript and text box) unchanged; other content appends exactly one user message holding the untrimmed text, clears the box, shows the typing indicator and makes a reply to that text due |
| Chatbot.Submit | components/voice-chatbot.tsx:253-270 | pressing Enter or the send button changes the chat exactly when the send button is enabled, and then appends the box's content as a user message and clears the box |
| Chatbot.SendEnabled | components/voice-chatbot.tsx:270 | the send button is enabled exactly when the text box holds a non-whitespace character |
| Chatbot.DeliverReply | components/voice-chatbot.tsx:74-85 | the reply step keeps the transcript as a prefix and appends exactly one bot message whose content and emotion come from the oldest sent text; it hides the typing indicator |
| Chatbot.InitialChat | components/voice-chatbot.tsx:38-49 | the first chat holds only the greeting as its one bot message, has no user message, shows no typing indicator and has the send button disabled |
| Chatbot.InitialConsistent | components/voice-chatbot.tsx:38-49 | the first chat satisfies the transcript invariant |
| Chatbot.SendPreservesConsistent | components/voice-chatbot.tsx:59-71 | sending preserves the invariant: after the greeting, bot messages answer the user messages one for one, in order; the rest are pending; typing only while a reply is due |
| Chatbot.DeliverPreservesConsistent | components/voice-chatbot.tsx:74-85 | delivering the oldest due reply preserves the transcript invariant |
| Chatbot.ApplyChatPreservesConsistent | components/voice-chatbot.tsx:59-86 | typing, sending and a reply timer firing all preserve the transcript invariant |
| Chatbot.ApplyChat | components/voice-chatbot.tsx:59-86 | no event removes or rewrites a message: the transcript only grows, by at most one message; typing (the helper `TypeInput`, line 252) only edits the text box; a reply timer appends one bot message and consumes the oldest due reply |
| Chatbot.RunChatPreservesConsistent | components/voice-chatbot.tsx:59-86 | any sequence of offered events keeps a consistent chat consistent |
| Chatbot.ReachableChatsConsistent | components/voice-chatbot.tsx:38-86 | every chat reachable from the first render satisfies the transcript invariant for the patient's name |
| Chatbot.SettledChatAnswersEverything | components/voice-chatbot.tsx:59-86 | once no reply is due, the typing indicator is off and the i-th user message is answered by the i-th reply after the greeting, generated from that message |
| Text.LeadingSpace | components/voice-chatbot.tsx:60 | counts the longest whitespace prefix: everything before it is whitespace and the next character is not |
| Text.TrailingSpace | components/voice-chatbot.tsx:60 | counts the longest whitespace suffix: everything after it is whitespace and the character before it is not |
| Text.Trim | components/voice-chatbot.tsx:60 | `trim` removes a whitespace-only prefix and suffix; what remains neither starts nor ends with whitespace and is empty exactly when the input is all whitespace |
| Text.LeadingSpaceCoversBlank | components/voice-chatbot.tsx:60 | the whitespace prefix covers the whole string exactly when the string is blank |
| Text.ToLower | components/voice-chatbot.tsx:90 | lower-casing keeps the length and lowers each character in place |
| Text.ToLowerIgnoresCase | components/voice-chatbot.tsx:90 | strings that differ only in letter case lower-case to the same string |
| Text.ToLowerIsCaseVariant | components/voice-chatbot.tsx:90 | a string and its lower-cased form differ only in letter case |
| Text.ToLowerIdempotent | components/voice-chatbot.tsx:90 | lower-casing twice is the same as lower-casing once |
| Text.Contains | components/voice-chatbot.tsx:92 | `includes` finds the empty string and any prefix, and never finds a string longer than the text |
| Text.ContainsIffOccurs | components/voice-chatbot.tsx:92 | `includes` holds exactly when the keyword occurs as a contiguous substring at some position |
| JsMath.Rem | components/health-tip-carousel.tsx:57 | JavaScript's `%` takes the sign of the dividend: `a == b * trunc(a / b) + r`, with `0 <= r < b` for non-negative `a` |
| Carousel.NextTip | components/health-tip-carousel.tsx:56-58 | from a non-negative index, next gives `(i + 1) mod 4`, a valid index; from any index the result is below 4 in magnitude |
| Carousel.PrevTip | components/health-tip-carousel.tsx:60-62 | from any index of at least -3, previous gives `(i + 3) mod 4`, a valid index; from any index the result is below 4 in magnitude |
| Carousel.ArrowsStayInRange | components/health-tip-carousel.tsx:56-62 | from a valid index, next and previous give valid indices; next wraps from 3 to 0 and previous wraps from 0 to 3 |
| Carousel.PrevUndoesNext | components/health-tip-carousel.tsx:57-61 | previous after next returns the original index |
| Carousel.NextUndoesPrev | components/health-tip-carousel.tsx:57-61 | next after previous returns the original index |
| Carousel.NextTipCounts | components/health-tip-carousel.tsx:57 | next advances the index the way counting modulo 4 does |
| Carousel.NextTimesAdvances | components/health-tip-carousel.tsx:50-57 | pressing next `n` times moves the index to `(i + n) mod 4` |
| Carousel.NextFourTimesIsIdentity | components/health-tip-carousel.tsx:50-57 | four presses of next return to the starting tip |
| Carousel.Apply | components/health-tip-carousel.tsx:48-67 | navigation never touches the audio flag; the audio button and its timeout never move the tip and set the flag to playing and not playing; a dot click shows that dot's tip |
| Carousel.AutoAdvanceIsNext | components/health-tip-carousel.tsx:48-58 | the auto-advance tick makes the same transition as the next arrow |
| Carousel.DotSelectsTip | components/health-tip-carousel.tsx:126-133 | clicking dot k, which exists for each tip index (the helper `Carousel.Offered`), shows tip k and leaves the audio flag unchanged |
| Carousel.PlayDisablesButton | components/health-tip-carousel.tsx:64-91 | `playAudio` sets the playing flag, which disables the audio button (the helper `Carousel.Offered`, line 91) |
| Carousel.CurrentTip | components/health-tip-carousel.tsx:70 | in a valid carousel, the tip on screen is one of the four tips |
| Carousel.ExactlyOneDotHighlighted | components/health-tip-carousel.tsx:126-133 | exactly one dot is highlighted: the one for the current tip |
| Carousel.ApplyPreservesValid | components/health-tip-carousel.tsx:45-67 | every offered event keeps the index in `[0, 4)` |
| Carousel.RunPreservesValid | components/health-tip-carousel.tsx:45-67 | any sequence of offered events keeps the index in `[0, 4)` |
| Carousel.ReachableCarouselsValid | components/health-tip-carousel.tsx:45-67 | starting at index 0, every reachable carousel shows a valid tip |

## Left out

- Rendering, styling and animation are not modelled. This covers the JSX, framer-motion, the SVG loading screen and the progress dots. None of them has behaviour beyond display.
- components/patient-onboarding-scene.tsx is not part of this model. It is a three.js scene with per-frame floating-point transforms and decorative switches.
- app/page.tsx and app/chat/page.tsx are not part of this model. They only do tab switching and wiring. The one exception is the empty initial patient record, which is `Onboarding.EmptyPatient`.
- Timer durations, cleanup and interleaving are not modelled. Each timer firing is a discrete event instead.
- The loading interval is never cleared in the source. Ticks after the loading screen has closed change nothing visible, so `MessageTick` is only offered while loading.
- The call into the parent component when loading finishes (`onNavigateToChat`) is not modelled. Its effect is modelled: the page moves to the chat tab, so `LoadingFinished` marks the form completed and a completed form offers no further event.
- Message ids from `Date.now()` and timestamps from `new Date()` are not modelled. They are clock readings, and their uniqueness is not promised.
- The voice-input toggles are not modelled. They flip a boolean and capture no audio.
- The patient-mood selector and `getPatientEmoji` are not modelled. They are a presentational side panel, apart from the transcript.
- The hard-coded vitals, the tip texts, icons and colours, and the audio file names are not modelled. They are display data only.
- Scroll-to-bottom of the transcript is not modelled. It only touches the DOM.
- Onboarding.UpdateField: `Field` covers only the six text fields. TypeScript would also accept the key `symptoms` with a string value, but no caller passes it.
- Onboarding.CompletionIsFinal: covers one mounted instance of the form only. Returning to the "Patient Registration" tab (app/page.tsx:58-66) mounts a fresh form on page 0, not loading, with the same patient record, and it can complete registration again. That remount is not modelled.
- Text.ToLower: lowers ASCII letters only. Full Unicode `toLowerCase`, which also maps non-ASCII capitals, is not modelled.
