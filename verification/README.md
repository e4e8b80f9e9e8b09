# Portfolio site: contact form, project filter and typing effect

A Dafny model of the three pieces of sequential logic in a personal portfolio
single-page application (React). Everything else in the site is layout and
animation.

- **Contact form** (`contact.dfy`, `email.dfy`, `text.dfy`). `validateForm`
  checks four strings. Name, subject and message must be non-empty after
  `trim`. The e-mail must be non-empty after `trim` and must then match
  `^[^\s@]+@[^\s@]+\.[^\s@]+$` as typed. `handleInputChange` updates one field
  and clears that field's error. `handleSubmit` validates, then runs idle →
  sending → (1500 ms) success shown → (3000 ms) form emptied. The page state is
  the immutable `ContactState`. The two `setTimeout` continuations are
  `Pending` values kept in that state. The event `Elapsed(i)` runs the `i`-th
  pending continuation once its delay is over.
- **Project filter** (`projects.dfy`). The four hard-coded projects and the
  category buttons. The `"all"` button shows the whole list. Any other id
  shows `mockProjects.filter(p => p.category === id)`.
- **Typing effect** (`typewriter.dfy`). The `typeText` loop of the
  `TypeWriter` component. It waits `delay`, then emits `text.slice(0, i)` for
  `i = 0 .. text.length` with a `speed` wait after each emission. Time is in
  integer millisecond ticks.

`Text.IsWs` is the single whitespace predicate. It lists the exact ECMAScript
WhiteSpace and LineTerminator characters, which both `String.prototype.trim`
and the regular-expression class `\s` use.

Two details of the typing effect that the model keeps:
- The typing loop waits `speed` after the final emission too
  (src/components/TypeWriter.tsx:30), so it ends at
  `delay + (|text| + 1) * speed`.
- The component registers no cleanup, so nothing cancels a running typing
  loop. The model promises no cancellation.

## Model

| member | source | states |
|---|---|---|
| Text.Trim | src/pages/Contact.tsx:36 | `trim` returns the slice `s[i..j]` whose dropped prefix `s[..i]` and suffix `s[j..]` are all whitespace and which neither starts nor ends with whitespace; it is empty exactly when the input is all whitespace (so `!x.trim()` means "blank") |
| EmailPattern.PatternIffWellShaped | src/pages/Contact.tsx:42 | the regex accepts `s` iff: `s` has no whitespace; `s` has exactly one `@` and something before it; after the `@` there is a `.` that is neither the first nor the last character of that part |
| EmailPattern.CheckEmail | src/pages/Contact.tsx:42 | a single left-to-right scan, stopping at the first whitespace or second `@`, decides the regex exactly |
| EmailPattern.ExampleAccepted | src/pages/Contact.tsx:42 | `a@b.c` matches |
| EmailPattern.ExampleLeadingSpace | src/pages/Contact.tsx:42 | ` a@b.c` does not match: the regex sees the untrimmed value |
| EmailPattern.ExampleTwoAts | src/pages/Contact.tsx:42 | `a@b@c.d` does not match |
| EmailPattern.ExampleDotAfterAt | src/pages/Contact.tsx:42 | `a@.bc` does not match: the run between `@` and `.` must be non-empty |
| Contact.ValidateFormErrors | src/pages/Contact.tsx:33-54 | the stored error map flags name, subject and message exactly when blank after trim, each with its "required" message; it flags the e-mail exactly when blank or not well shaped, with "required" when blank and "invalid format" otherwise |
| Contact.CheckRequiredFields | src/pages/Contact.tsx:36-52 | name, subject and message each fail iff blank after trim, with their own "required" message; nothing else is checked for them |
| Contact.CheckEmailField | src/pages/Contact.tsx:40-44 | the e-mail fails iff blank or not well shaped; "required" iff blank, "invalid format" iff not blank and not well shaped, so the two errors exclude each other |
| Contact.EmailCheckedUntrimmed | src/pages/Contact.tsx:40-44 | a non-blank e-mail starting with whitespace passes the presence check yet gets the format error |
| Contact.ValidWhenAllChecksPass | src/pages/Contact.tsx:33-55 | the form is valid iff name, subject and message are non-blank and the e-mail is well shaped |
| Contact.HandleInputChange | src/pages/Contact.tsx:78-85 | the named field takes the new value and the other three keep theirs; its error is cleared and every other field's error is unchanged; the submit flags and timers are untouched |
| Contact.HandleSubmit | src/pages/Contact.tsx:58-66 | while sending it does nothing; otherwise it stores the validation errors; an invalid form starts nothing; a valid form sets `isSubmitting` and starts the 1500 ms delay; the form values and the success flag are kept |
| Contact.TimerElapsed | src/pages/Contact.tsx:66-75 | the end of the send delay clears `isSubmitting`, shows success and starts the reset delay; the end of the reset delay empties all four fields and hides success; the fired timer is removed |
| Contact.InvalidSubmitStaysIdle | src/pages/Contact.tsx:61 | submitting an invalid form from the idle page leaves `isSubmitting` and `showSuccess` false and starts no timer; it only shows the (non-empty) errors |
| Contact.SubmitPreservesInv | src/pages/Contact.tsx:240-248 | with the button disabled while sending, a submission never starts a second send: sending iff exactly one send delay is pending |
| Contact.ElapsedPreservesInv | src/pages/Contact.tsx:66-69 | firing any timer keeps "sending iff one send delay is pending" |
| Contact.StepPreservesInv | src/pages/Contact.tsx:58-85 | every event (edit, submit, timer) keeps that invariant |
| Contact.InitialInv | src/pages/Contact.tsx:23-31 | the freshly rendered page (empty form, no errors, not sending, no success, no timer) satisfies the invariant |
| Contact.RunPreservesInv | src/pages/Contact.tsx:58-85 | from any page where the invariant holds (with `InitialInv`, from the fresh page) it still holds after any sequence of events |
| Contact.FillInFromInitial | src/pages/Contact.tsx:23-31 | typing four values into the fresh page yields exactly those values, no errors, not sending, no success, no timers |
| Contact.SubmitLifecycle | src/pages/Contact.tsx:63-75 | from idle with a valid form: submit → sending, errors empty, re-submit ignored; send delay → not sending, success shown, values kept; reset delay → fields empty, success hidden, no timers |
| Contact.SubmitLifecycleFromInitial | src/pages/Contact.tsx:23-75 | fill in a valid form, submit, let both delays run out: the page is back in its initial state |
| Projects.FilterSoundComplete | src/pages/Projects.tsx:59 | a project is in the filtered list iff it is in the input list and has the selected category |
| Projects.FilterMultiset | src/pages/Projects.tsx:59 | the filter keeps each matching project exactly as often as it occurs, and no other project |
| Projects.FilterIsSubsequence | src/pages/Projects.tsx:59 | the filtered list is a subsequence of its input, so relative order is preserved |
| Projects.FilterKeepsMatching | src/pages/Projects.tsx:59 | a list whose projects all have the category passes the filter unchanged |
| Projects.FilterIdempotent | src/pages/Projects.tsx:57-59 | filtering the result again with the same category returns it unchanged |
| Projects.FilteredProjects | src/pages/Projects.tsx:56-59 | `"all"` yields exactly `mockProjects`; any other id yields exactly the projects of that category; the result is always a subsequence of `mockProjects` |
| Projects.EachProjectOneCategory | src/pages/Projects.tsx:9-49 | category ids are distinct; every project's category is the id of exactly one non-`"all"` button; no project has category `"all"` |
| Projects.WebContents | src/pages/Projects.tsx:9-59 | `"web"` shows the projects with ids 1 and 4, in that order |
| Projects.MobileContents | src/pages/Projects.tsx:9-59 | `"mobile"` shows the project with id 2 alone |
| Projects.DesignContents | src/pages/Projects.tsx:9-59 | `"design"` shows the project with id 3 alone |
| Projects.AllIsNoCategory | src/pages/Projects.tsx:57-59 | filtering by `"all"` as a category would give nothing, so the separate `"all"` branch is needed to show every project |
| TypeWriter.TypeText | src/components/TypeWriter.tsx:22-35 | the loop emits exactly `|text| + 1` values; emission `i` is the length-`i` prefix, at tick `delay + i*speed`; the loop ends at `delay + (|text|+1)*speed`; this agrees with the reference `Schedule` |
| TypeWriter.ScheduleGrowsByOne | src/components/TypeWriter.tsx:27-29 | the first emission is `""` and the last is `text`; empty text gives the single emission `""`; each emission is the previous one plus the next character (no skips, no repeats) |
| TypeWriter.SchedulePrefixes | src/components/TypeWriter.tsx:27-28 | every emission is a prefix of `text` with length equal to its index (at most `|text|`); each is a strict prefix of the next |
| TypeWriter.DefaultSchedule | src/components/TypeWriter.tsx:15-30 | with the default props (`delay = 0`, `speed = 0.05` s) the emission showing `i` characters comes at `50 * i` ms, for all `|text| + 1` emissions |
| TypeWriter.ScheduleTimes | src/components/TypeWriter.tsx:25-30 | the first emission is at `delay`; consecutive emissions are `speed` apart; times never decrease, and strictly increase when `speed > 0` |
| TypeWriter.DisplayedBeforeStart | src/components/TypeWriter.tsx:20-25 | before the start delay ends, the displayed text is the initial `""` |
| TypeWriter.DisplayedBetween | src/components/TypeWriter.tsx:27-30 | from emission `i` until the next, the display shows the first `i` characters |
| TypeWriter.DisplayedAfterEnd | src/components/TypeWriter.tsx:27-31 | from the last emission on, the display shows the whole text |

## Left out

- Rendering: JSX, framer-motion variants, springs, `AnimatePresence` and the blinking cursor (src/components/TypeWriter.tsx:40-48). These are declarative calls into a library whose code is not part of this model.
- Parallax mapping (src/App.tsx:24-39): a `useTransform` call driven by a window mouse listener, working on floats.
- Random decorative geometry (`FloatingShapes`, `InkSplatter`, `ParticleEffect`, `ScrollSpeedLines`, `PageTransitionEffects`) and the 800 ms transition and 2000 ms loading toggles. These are `Math.random` float ranges and plain timers with no logic to prove.
- Routing, navigation, the page transition wrapper, the project detail modal, `LoadingIndicator` and `About`. These are UI plumbing or static content.
- Typing-effect re-triggering and overlapping runs: the effect registers no cleanup, so a change of props starts a second loop beside the first. That is a timer-concurrency matter. The model describes one run and claims no cancellation.
- TypeWriter.TypeText: `delay` and `speed` are seconds in floating point, multiplied by 1000 for `setTimeout`. The model takes them as non-negative integer milliseconds. Fractional, negative and NaN values are not modelled. The ticks are the nominal deadlines. A real `setTimeout` fires no earlier than its delay, and each wait starts from when the previous one fired, so real emissions come at or after these ticks and lateness accumulates. Browsers also clamp timeouts nested more than five deep to at least 4 ms, which moves the later emissions when `speed` is under 4 ms; that clamp is not modelled.
- Strings are sequences of Unicode scalar values. JavaScript's `length`, `slice`, `trim` and regular expressions (without the `u` flag) work on UTF-16 code units, so text outside the Basic Multilingual Plane would be counted and cut differently.
- Timer ordering: `Elapsed(i)` may fire any pending continuation, not only the one with the earliest deadline. This admits every order the browser can produce and some it cannot. The lifecycle lemmas fire timers in the real order.
- Clearing an error: the source sets the field to `undefined` rather than deleting the key. Only truthiness of that field is ever read, so the model removes the key.
- Submitting while sending is a no-op because the submit button is disabled (`disabled={isSubmitting}`). Blocking implicit submission from a disabled button is browser behaviour, taken as given here. `e.preventDefault()` is left out.
- The e-mail input has `type="email"` (src/pages/Contact.tsx:170) and the form has no `noValidate` (src/pages/Contact.tsx:109-115). The browser therefore strips newlines and leading or trailing ASCII whitespace from the value before it reaches `formData`. It also runs its own e-mail check before the submit event, so for a value such as `a b@c.d` the `handleSubmit` handler never runs and the stored errors stay as they were. That is browser behaviour outside this code. The model lets `Change` store any string and lets `Submit` reach `handleSubmit` with it. `validateForm` is modelled as the function it is, for every input.
- React batches `setIsSubmitting(false)` and `setShowSuccess(true)` into one state update; the model applies both in one step.
- Projects.FilterCategory: its own contract states only the length bound. Soundness, completeness, multiplicity, order and idempotence are proved in the lemmas listed above.
