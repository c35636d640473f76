# Portfolio page script: a verified model of its logic

The page script `js/script.js` drives a personal portfolio site. Most of it wires DOM
events to style changes. A few parts hold real decisions, and this project models them
as plain Dafny over plain data, with the DOM replaced by values:

- **Contact-form validation** (`validateForm`, `isValidEmail`), in module `FormValidation`
  (`validation.dfy`). It takes the four optional form values and returns the ordered
  list of error messages. The email regular expression `/^[^\s@]+@[^\s@]+\.[^\s@]+$/`
  has two definitions. One states what the pattern matches. The other is a direct
  string test. A lemma proves they agree on every string.
- **Text** (`text.dfy`, module `JsText`). Page text is a sequence of UTF-16 code units,
  as JavaScript sees it: `.length`, `trim()` and a regular expression without the `u`
  flag all count code units. White space is the ECMAScript WhiteSpace and
  LineTerminator set, which `\s` and `trim()` share.
- **Active-section tracking** (`updateActiveNavLink`), in module `ActiveSection`
  (`navigation.dfy`). One loop picks the last section whose box, shifted up by 100,
  holds the scroll offset. A second loop marks exactly the links whose href is
  `"#" + id`.
- **Loading counter** (`startLoadingCounter`), in module `Loading` (`loading.dfy`). Each
  tick is given its increment in [5, 20), standing in for `Math.random() * 15 + 5`.
- **Trailing-edge debounce** (`debounce`), in module `Debounce` (`debounce.dfy`). It is a
  state machine over abstract time. It is proved equal to a direct reference: call *i*
  reaches `func` iff at least `wait` passes before the next call.
- **Feedback blocks and the submit button** (`showFormErrors`, `showFormSuccess`,
  `submitForm`, the submit listener), in module `ContactForm` (`form.dfy`).
- **Mobile menu** (the button, link and Escape handlers), in module `MobileMenu`
  (`menu.dfy`).

`updateActiveNavLink` resets `currentSection` to `""` on every call (js/script.js:97).
So when no section matches, only links whose href is exactly `"#"` stay marked
(`ActiveSection.NoSectionMarksBareHash`).

## Model

| member | source | states |
|---|---|---|
| `JsText.Trim` | js/script.js:246 | `String.prototype.trim`. Its meaning is stated by `JsText.TrimSpec` and pinned down by `JsText.TrimUnique` |
| `JsText.TrimSpec` | js/script.js:246 | `trim()` removes white space only from the ends. The result starts and ends with non-white space, and what it removed on either side is all white space |
| `JsText.TrimUnique` | js/script.js:246 | Any split of a string into white space, a trimmed middle and white space is the split `trim()` makes |
| `FormValidation.MatchesEmailPattern` | js/script.js:273 | The strings the regular expression accepts: `A@B.C` with non-empty parts free of white space and `@`. Related to the direct test by `FormValidation.EmailTestMatchesPattern` |
| `FormValidation.IsValidEmail` | js/script.js:272-275 | `isValidEmail` as a direct string test. `FormValidation.EmailTestMatchesPattern` proves it equals the regular expression |
| `FormValidation.Violated` | js/script.js:246-260 | When each of the four checks fails, read off the checks. `FormValidation.FailingChecks` and `FormValidation.FormErrors` are proved against it |
| `FormValidation.IndexOf` | js/script.js:273 | The position of the first occurrence of a unit, or the length when it is absent |
| `FormValidation.EmailTestMatchesPattern` | js/script.js:272-275 | `isValidEmail` holds iff the string has no white space, exactly one `@` with something before it, and a dot in the domain that is neither first nor last. This holds iff the string matches the regular expression, in both directions |
| `FormValidation.PatternImpliesTest` | js/script.js:273 | A split `A@B.C` into non-empty parts without white space or `@` passes the direct email test |
| `FormValidation.TestImpliesPattern` | js/script.js:273 | A string that passes the direct email test has such a split |
| `FormValidation.FailingChecks` | js/script.js:242-260 | A check is reported iff it is violated, each at most once, in the order name, email, service, message. A name fails when missing or shorter than 2 after trimming. The email fails when missing or not matching the pattern. The service fails when missing or empty. The message fails when missing or shorter than 10 after trimming |
| `FormValidation.PartsMatchViolations` | js/script.js:246-260 | Each of the four `if` tests of the validator fires exactly when its check is violated. Each check fails on an absent or empty value |
| `FormValidation.FormErrors` | js/script.js:242-268 | One message per failing check. A check's message appears iff the check fails. The list is empty (validation succeeds) iff no check fails |
| `FormValidation.ErrorTextInjective` | js/script.js:247-259 | The four messages are distinct, so each message stands for exactly one check |
| `FormValidation.ErrorsInCheckOrder` | js/script.js:246-260 | An earlier message in the list belongs to an earlier check |
| `FormValidation.PaddedInitialIsRejected` | js/script.js:246-248 | A single non-blank character padded with spaces on both sides fails the name check |
| `FormValidation.AcceptedWhen` | js/script.js:242-268 | A name and a message long enough once trimmed, a matching email and a non-empty service give no errors |
| `FormValidation.RejectedWhen` | js/script.js:242-268 | A name under 2 units, a non-matching email, an empty service and a message under 10 units give all four messages, in check order |
| `FormValidation.SampleSubmissionAccepted` | js/script.js:242-275 | Name "Al", email "a@b.c", service "design" and message "1234567890" give no errors |
| `FormValidation.SampleSubmissionRejected` | js/script.js:242-275 | Name "A", email "bad", empty service and message "short" give all four messages in check order |
| `FormValidation.AllFourInOrder` | js/script.js:246-260 | A check list in order that holds all four checks is exactly name, email, service, message |
| `ActiveSection.CurrentSection` | js/script.js:97-109 | The id the first loop settles on. `ActiveSection.SelectSection` is proved to compute it, and `ActiveSection.LastInRange` states which section it is |
| `ActiveSection.ActiveMarks` | js/script.js:111-116 | The marks the second loop leaves, one per link. `ActiveSection.MarkLinks` is proved to produce them, and `ActiveSection.ExactlyOneActive` states that only the matching link is marked |
| `ActiveSection.LastInRange` | js/script.js:97-109 | No section is chosen iff no shifted box holds the offset. Otherwise the chosen section's box holds it and no later section's box does |
| `ActiveSection.SelectSection` | js/script.js:97-109 | The overwriting loop yields the id of the last section whose shifted box holds the offset, or `""` when there is none |
| `ActiveSection.MarkLinks` | js/script.js:111-116 | Afterwards a link is active iff its href is `"#" + current`. The old marks do not matter |
| `ActiveSection.UpdateActiveNavLink` | js/script.js:93-117 | Both loops together: the marks depend only on the offset, the sections and the hrefs |
| `ActiveSection.ExactlyOneActive` | js/script.js:111-116 | With distinct hrefs and a link for the current section, exactly that link is marked |
| `ActiveSection.NoSectionMarksBareHash` | js/script.js:97-116 | When no section holds the offset, the choice is `""` and only links with href exactly `"#"` stay marked |
| `Loading.Step` | js/script.js:33-44 | A tick keeps the percentage within [0, 100] and never lowers it. A tick on a running counter adds at least 5 or clamps to exactly 100 and stops. A stopped counter does not change |
| `Loading.Run` | js/script.js:33-44 | The counter after a sequence of ticks. Its properties are stated by `Loading.RunGainsAtLeastFive`, `Loading.RunMonotone`, `Loading.RunStaysStopped` and `Loading.StopsWithinTwentyTicks` |
| `Loading.RunGainsAtLeastFive` | js/script.js:33-44 | After n ticks the counter has stopped or has gained at least 5n |
| `Loading.RunStaysStopped` | js/script.js:36-39 | Once the interval is cleared, later ticks change nothing |
| `Loading.RunMonotone` | js/script.js:33-44 | The percentage never decreases over any run of ticks |
| `Loading.StopsWithinTwentyTicks` | js/script.js:33-39 | Twenty ticks from 0 always end at exactly 100 with the interval cleared |
| `Loading.RunStaysBelow` | js/script.js:33-39 | While the largest possible gains stay within 100, the counter keeps running |
| `Loading.NeedsAtLeastSixTicks` | js/script.js:33-39 | Five ticks from 0 never reach 100 |
| `Loading.LoadingCounter.Tick` | js/script.js:33-44 | The interval callback keeps the counter within [0, 100], stopped exactly at 100, and follows `Loading.Step` |
| `Debounce.Step` | js/script.js:434-441 | One call or one passage of time in the closure. `Debounce.StepKeepsInv` proves it keeps the state in line with the reference |
| `Debounce.Run` | js/script.js:432-442 | The closure's state after a whole history. `Debounce.RunMatchesReference` proves its runs equal the reference |
| `Debounce.NextCall` | js/script.js:439-440 | The index of the first call at or after a position: only elapsed time lies before it |
| `Debounce.LastCall` | js/script.js:439-440 | The last call of a history, with only elapsed time after it |
| `Debounce.FiresSnocEarlier` | js/script.js:439-440 | A call already followed by another call keeps its verdict whatever happens next |
| `Debounce.FiresSnocLast` | js/script.js:435-440 | The last call fires iff the time elapsed since it reaches `wait` |
| `Debounce.ExpectedAfterCall` | js/script.js:439-440 | A new call cancels the pending one and adds no run yet |
| `Debounce.ExpectedAfterElapse` | js/script.js:435-438 | Elapsed time adds at most one run, the last call's, at the end |
| `Debounce.StepKeepsInv` | js/script.js:432-442 | Every call and every passage of time keeps the closure's state in line with the reference |
| `Debounce.RunMatchesReference` | js/script.js:432-442 | The runs of `func` over any history are the arguments of the calls followed by at least `wait` of quiet, in order. A pending timer exists iff the last call has not run yet |
| `Debounce.SupersededCallDoesNotRun` | js/script.js:439-440 | A call followed by another call before `wait` elapses never runs |
| `Debounce.Debouncer.Invoke` | js/script.js:434-441 | A call replaces the pending timer with one for `now + wait` that carries this call's arguments. It does not run `func` |
| `Debounce.Debouncer.AdvanceTime` | js/script.js:435-438 | When time passes, a due timer runs `func` once with the most recent call's arguments and is cleared. The runs so far equal the reference |
| `MobileMenu.Step` | js/script.js:65-76 | One handler run: button, link, or Escape (js/script.js:490-497). `MobileMenu.StepKeepsSync` proves it keeps the marks equal |
| `MobileMenu.Apply` | js/script.js:65-76 | The menu after a sequence of button, link and Escape events. `MobileMenu.ApplyFromClosed` states when it is open |
| `MobileMenu.LastClose` | js/script.js:71-76 | The last link click or Escape in a history, with only button clicks after it |
| `MobileMenu.StepKeepsSync` | js/script.js:65-76 | Every handler keeps the two `active` marks equal if they were equal |
| `MobileMenu.ApplyKeepsSync` | js/script.js:65-76 | From agreeing marks, no sequence of events can separate them |
| `MobileMenu.ApplyFromClosed` | js/script.js:65-76 | From a closed menu, the menu is open iff an odd number of button clicks follow the last link click or Escape |
| `MobileMenu.CloseEventsClose` | js/script.js:71-76 | A link click, or Escape on agreeing marks, closes the menu |
| `MobileMenu.EscapeIgnoresStrayButtonMark` | js/script.js:493-496 | Escape looks only at the list's mark. A button marked on its own stays marked, and a toggle keeps the marks apart |
| `MobileMenu.ToggleTwiceRestores` | js/script.js:65-68 | Two button clicks restore the menu |
| `MobileMenu.Menu.OnButtonClick` | js/script.js:65-68 | Both marks flip, each on its own |
| `MobileMenu.Menu.OnLinkClick` | js/script.js:71-76 | Both marks are cleared |
| `MobileMenu.Menu.OnEscape` | js/script.js:490-497 | Both marks are cleared iff the list is marked. Agreeing marks always end closed |
| `ContactForm.Successes` | js/script.js:280-281 | What survives the removal of error blocks: exactly the success blocks |
| `ContactForm.WithoutSuccess` | js/script.js:383-385 | The removal timer takes out exactly its own success block |
| `ContactForm.ShowErrorsKeepsSuccesses` | js/script.js:280-308 | Showing errors keeps every success block and leaves at most one error block, in front |
| `ContactForm.AtMostOneSuccess` | js/script.js:353-377 | The top of the form holds at most one success block |
| `ContactForm.WithoutSuccessKeepsShape` | js/script.js:383-385 | Removing a success block keeps the top of the form well formed |
| `ContactForm.Form.ShowFormErrors` | js/script.js:278-312 | Error blocks are removed and success blocks kept. The new error block goes in front. The button is untouched |
| `ContactForm.Form.ShowFormSuccess` | js/script.js:351-386 | All error and success blocks are removed and one new success block goes in front |
| `ContactForm.Form.RemoveSuccess` | js/script.js:383-385 | The five-second timer removes its own success block, if it is still there |
| `ContactForm.Form.ValidateForm` | js/script.js:242-268 | Returns true iff no check fails. On failure the errors are shown. On success nothing changes |
| `ContactForm.Form.SubmitForm` | js/script.js:315-323 | The current label is captured. The button reads "Sending..." and is disabled |
| `ContactForm.Form.FinishSubmission` | js/script.js:326-336 | The success block is shown. The captured label comes back and the button is enabled |
| `ContactForm.Form.OnSubmit` | js/script.js:222-238 | Valid data starts the submission with the feedback untouched. Invalid data shows the errors and leaves the button alone |
| `ContactForm.SubmissionRestoresButton` | js/script.js:315-336 | A valid submission from an idle form ends with the button exactly as before "Sending..." and one success block |

## Left out

- DOM plumbing is not modelled: element lookups, `FormData` collection, `scrollIntoView`, `scrollTo`, inline styles and `innerHTML`. The model works on records and sequences.
- Timers are abstract. The debounce has explicit elapsed time. The loading counter, the submission delay and the success block's lifetime are events (`Tick`, `FinishSubmission`, `RemoveSuccess`) whose timing is not modelled. The 3.5 s start-up sequence and the loading screen's show and hide (js/script.js:1-27, 47-55) are left out.
- `Math.random` becomes a parameter of each tick. Floating-point rounding of the percentage and its `Math.floor` display are not modelled: the percentage is an exact real.
- `window.scrollY` is an integer here. Browsers can report fractional offsets.
- `Debounce.Debouncer.constructor`: requires a positive `wait`. The only use passes 100. With a zero wait, whether a timer fires before a later synchronous call depends on the event loop, which is not modelled.
- The `clearTimeout` inside the timer callback (js/script.js:436) clears a timer that is already firing. It has no effect and is not modelled.
- Event-listener wiring is not modelled. `removeEventListener` at js/script.js:450 runs when the script loads. That is before `initNavigation` adds the raw scroll listener inside the start-up delay (js/script.js:89). So the raw listener is never removed, and the undebounced and debounced trackers both stay attached.
- `form.reset()` and the removal of the `has-value`/`focused` classes (js/script.js:331, 337-343) are not modelled. The reset values come from the page markup, which is not part of this model.
- The success block's thank-you text and the error block's styling are not modelled. An error block is modelled as the list of its messages.
- The navbar's `scrolled` class (js/script.js:79-85), smooth scrolling (js/script.js:120-140), the `IntersectionObserver` reveal (js/script.js:143-166), the portfolio stagger, the hover transforms, the parallax, the mouse light, the Tab shortcut, performance logging, the error logger and the service-worker stub are not modelled. They are presentational, use browser APIs whose semantics are not visible here, or use floating point.
- `ContactForm.Form.FinishSubmission`: takes the oldest captured label. While a submission is pending the submit button is disabled, and the browser sends no submit event. So the queue holds at most one label in practice.
