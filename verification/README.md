# SoftSell landing page: FAQ chat and contact form, in Dafny

The SoftSell landing page is a single React page. Four parts of it have
behaviour beyond layout, and this project models those four as immutable
datatypes and pure functions, then proves what the page promises about them:

- **FAQ matcher** (`getResponse`, module `Faq`): lower-cases and trims a
  question, then tries an exact lookup in a five-entry table. If that misses,
  it returns the answer of the first key, in declaration order, that the
  question contains. If nothing matches, it returns a fixed fallback text.
  The matcher is written once for any table (`Respond`) and applied to the
  page's own table (`GetResponse`).
- **Chat widget** (module `Chat`): a transcript that opens with a greeting,
  an input box and a typing indicator. Sending a message appends the raw
  text and schedules a reply. Each reply timer later appends the matcher's
  answer to the text it was scheduled with. Timers are explicit events. The
  replies still waiting form a first-in-first-out queue, because the widget
  does not stop a second send while a reply is pending.
- **Contact form** (modules `ContactForm` and `Email`):
  - the five-field record;
  - the per-field change handler;
  - the submit handler: a required-field check, then the email regex
    `/^[^\s@]+@[^\s@]+\.[^\s@]+$/`, then a deferred reset.

  The regex's matching semantics (`RegexTest`) is proved equivalent to a
  plain description of the accepted addresses (`IsEmail`).
- **Theme toggle** (module `Theme`): dark goes to light; any other value
  goes to dark.

Module `Text` holds the JavaScript string operations these rely on:
`toLowerCase`, `trim`, `includes`, and the whitespace class shared by `trim`
and `\s`. Module `Opt` holds the option type.

The message ids that the widget takes from `Date.now()` are parameters of the
transitions. The `setTimeout` callbacks are separate transitions, so nothing
in the model reads a clock or a timer.

## Model

| member | source | states |
|---|---|---|
| Text.ToLower | softsell-web-showcase-main/src/components/ChatWidget.tsx:26 | lower-casing keeps the length, leaves no upper-case letter, and maps each character on its own |
| Text.TrimStartSpec | softsell-web-showcase-main/src/components/ChatWidget.tsx:26 | dropping leading whitespace leaves the suffix after a blank prefix, and that suffix starts with a non-space |
| Text.TrimEndSpec | softsell-web-showcase-main/src/components/ChatWidget.tsx:26 | dropping trailing whitespace leaves the prefix before a blank suffix, and that prefix ends with a non-space |
| Text.TrimSpec | softsell-web-showcase-main/src/components/ChatWidget.tsx:57 | `trim` returns the slice between a blank prefix and a blank suffix; neither of its ends is whitespace; it is empty exactly when the input is all whitespace |
| Text.TrimFixesTrimmed | softsell-web-showcase-main/src/components/ChatWidget.tsx:26 | a string with no whitespace at either end is its own trim |
| Text.TrimIdempotent | softsell-web-showcase-main/src/components/ChatWidget.tsx:26 | trimming twice equals trimming once |
| Text.Trim | softsell-web-showcase-main/src/components/ChatWidget.tsx:57 | `String.prototype.trim`; what it returns is stated by `TrimSpec`: the slice between a blank prefix and a blank suffix, empty exactly for blank input |
| Text.ToLowerFixesLowercase | softsell-web-showcase-main/src/components/ChatWidget.tsx:26 | lower-casing a string without capitals changes nothing |
| Text.TrimKeepsNoUpper | softsell-web-showcase-main/src/components/ChatWidget.tsx:26 | trimming cannot introduce a capital |
| Text.MissingCharNotContained | softsell-web-showcase-main/src/components/ChatWidget.tsx:35 | `includes` fails when the key has a character the text lacks |
| Text.Contains | softsell-web-showcase-main/src/components/ChatWidget.tsx:35 | `includes`: some position starts an occurrence of the key; `MissingCharNotContained` and `ContainsSelf` are the facts used about it |
| Text.ContainsSelf | softsell-web-showcase-main/src/components/ChatWidget.tsx:35 | every string includes itself, so an exact key is also a substring hit |
| Faq.Normalize | softsell-web-showcase-main/src/components/ChatWidget.tsx:26 | `toLowerCase().trim()`; `NormalizeIdempotent` shows normalising twice equals once, `NormalFormFixed` that lower-case text with no blank ends is already normal |
| Faq.NormalizeIdempotent | softsell-web-showcase-main/src/components/ChatWidget.tsx:26 | normalising twice equals normalising once |
| Faq.KeyIndex | softsell-web-showcase-main/src/components/ChatWidget.tsx:29-30 | the exact lookup finds an entry with that key, or reports that no key equals it |
| Faq.FirstContained | softsell-web-showcase-main/src/components/ChatWidget.tsx:34-38 | the scan returns the first entry, in declaration order, whose key the text includes; no earlier key is included; with no result, no key is included |
| Faq.Respond | softsell-web-showcase-main/src/components/ChatWidget.tsx:25-42 | the reply is always the fallback or one of the table's answers |
| Faq.RespondNormalized | softsell-web-showcase-main/src/components/ChatWidget.tsx:26 | the reply depends on the question only through its lower-cased, trimmed form |
| Faq.RespondExact | softsell-web-showcase-main/src/components/ChatWidget.tsx:28-31 | when the normalised question is a key with a non-empty answer, that answer is returned, even if an earlier key also occurs in the question |
| Faq.RespondFirstContained | softsell-web-showcase-main/src/components/ChatWidget.tsx:33-38 | without an exact hit, the answer of the first included key in declaration order is returned |
| Faq.RespondFallback | softsell-web-showcase-main/src/components/ChatWidget.tsx:40-41 | the fallback is returned if and only if no key occurs in the normalised question, given that no answer equals the fallback |
| Faq.GetResponse | softsell-web-showcase-main/src/components/ChatWidget.tsx:25-42 | the page's `getResponse`: `Respond` on the page's table and fallback; its replies are fixed by `GetResponseRange`, `RespondExact`, `RespondFirstContained` and `RespondFallback` |
| Faq.GetResponseRange | softsell-web-showcase-main/src/components/ChatWidget.tsx:16-42 | the page's matcher returns one of exactly six texts: the five answers or the fallback |
| Faq.FaqTableWellFormed | softsell-web-showcase-main/src/components/ChatWidget.tsx:16-22 | the page's keys are distinct, and every answer is non-empty and differs from the fallback |
| Faq.FaqKeys | softsell-web-showcase-main/src/components/ChatWidget.tsx:16-22 | the table has five entries, and their keys appear in declaration order |
| Faq.NormalFormFixed | softsell-web-showcase-main/src/components/ChatWidget.tsx:26 | a question with no capitals and no whitespace at its ends is already normalised |
| Faq.IsThisLegalExample | softsell-web-showcase-main/src/components/ChatWidget.tsx:21-31 | `"IS THIS LEGAL"` gets the compliance answer by exact match |
| Faq.EmbeddedQuestionExample | softsell-web-showcase-main/src/components/ChatWidget.tsx:33-38 | a question embedding the second key, but not the first, gets the valuation answer |
| Faq.UnrelatedQuestionExample | softsell-web-showcase-main/src/components/ChatWidget.tsx:40-41 | `"what's the weather"` gets the fallback |
| Faq.SuggestedQuestionExample | softsell-web-showcase-main/src/components/ChatWidget.tsx:162 | the example question shown under the input, with capitals and a question mark, gets the first answer |
| Chat.Edit | softsell-web-showcase-main/src/components/ChatWidget.tsx:154 | the change handler replaces the input box and nothing else |
| Chat.Send | softsell-web-showcase-main/src/components/ChatWidget.tsx:56-68 | a blank input leaves the whole state unchanged; otherwise exactly one user message with the raw, untrimmed text is appended, the input is cleared, the indicator is set, and the text joins the pending replies |
| Chat.Reply | softsell-web-showcase-main/src/components/ChatWidget.tsx:71-79 | the oldest pending reply appends one assistant message holding the matcher's answer to its text, and the indicator is cleared |
| Chat.Step | softsell-web-showcase-main/src/components/ChatWidget.tsx:56-80 | one event: typing, a send, or the oldest reply timer; it is refused exactly when a timer fires with no reply pending, and it never removes a message |
| Chat.Run | softsell-web-showcase-main/src/components/ChatWidget.tsx:56-80 | a sequence of events from a state; `RunAppendOnly` and `RunValid` state what every run keeps |
| Chat.RunAppendOnly | softsell-web-showcase-main/src/components/ChatWidget.tsx:66-78 | over any run of events, the earlier transcript is a prefix of the later one |
| Chat.ValidInitial | softsell-web-showcase-main/src/components/ChatWidget.tsx:46-54 | the mounted widget `Chat.Initial` (the greeting with id "1" alone, an empty input, no indicator, nothing pending) satisfies the transcript invariant |
| Chat.EditValid | softsell-web-showcase-main/src/components/ChatWidget.tsx:154 | typing keeps the invariant |
| Chat.SendValid | softsell-web-showcase-main/src/components/ChatWidget.tsx:56-68 | sending keeps the invariant: the new question is both the last user text and the last pending one |
| Chat.ReplyValid | softsell-web-showcase-main/src/components/ChatWidget.tsx:71-79 | a reply keeps the invariant: the oldest pending text is the first unanswered question, and its answer follows the earlier answers |
| Chat.StepValid | softsell-web-showcase-main/src/components/ChatWidget.tsx:56-80 | every event keeps the invariant |
| Chat.RunValid | softsell-web-showcase-main/src/components/ChatWidget.tsx:46-80 | every state reached from a valid state keeps the invariant: greeting first, no blank user message, answers in question order, indicator only while a reply is pending |
| Chat.SettledTranscript | softsell-web-showcase-main/src/components/ChatWidget.tsx:46-80 | once nothing is pending, the assistant texts are the greeting followed by the answers to every user question, in order |
| Chat.SendThenReply | softsell-web-showcase-main/src/components/ChatWidget.tsx:56-80 | a send and its timer append the raw question and then its answer, and leave the input empty and nothing pending |
| Chat.IndicatorClearsEarly | softsell-web-showcase-main/src/components/ChatWidget.tsx:68-79 | with two questions sent back to back, the first reply turns the indicator off while the second reply is still pending |
| Email.MatchIsEmail | softsell-web-showcase-main/src/pages/Index.tsx:48 | any match of the regex has no whitespace, exactly one `@`, a non-empty local part and an inner `.` in the domain |
| Email.EmailMatches | softsell-web-showcase-main/src/pages/Index.tsx:48 | every address of that shape is matched |
| Email.RegexIffEmail | softsell-web-showcase-main/src/pages/Index.tsx:48-49 | the regex accepts a string if and only if it has the described shape |
| Email.RegexTest | softsell-web-showcase-main/src/pages/Index.tsx:48-49 | `emailRegex.test`: some placement of `@` and `.` splits the string into three non-empty runs without whitespace or `@`; `RegexIffEmail` gives the plain description |
| Email.NoAtRejected | softsell-web-showcase-main/src/pages/Index.tsx:48-49 | `"not-an-email"` is refused |
| Email.TrailingDotRejected | softsell-web-showcase-main/src/pages/Index.tsx:48-49 | `"a@b."` is refused |
| Email.DotlessDomainRejected | softsell-web-showcase-main/src/pages/Index.tsx:48-49 | `"a@b"` is refused by the regex |
| Email.ShortestAccepted | softsell-web-showcase-main/src/pages/Index.tsx:48-49 | `"a@b.c"` is accepted |
| ContactForm.Update | softsell-web-showcase-main/src/pages/Index.tsx:24-30 | the named field takes the new value and every other field keeps its old one |
| ContactForm.UpdateSameValue | softsell-web-showcase-main/src/pages/Index.tsx:24-30 | writing back a field's own value leaves the form unchanged |
| ContactForm.UpdateOverwrite | softsell-web-showcase-main/src/pages/Index.tsx:24-30 | of two writes to one field, only the later is seen |
| ContactForm.HandleSubmit | softsell-web-showcase-main/src/pages/Index.tsx:32-60 | the form data is never changed. A missing name, email or company gives the required-fields error with the flag cleared. Otherwise a malformed email gives the invalid-email error with the flag cleared. Neither error schedules a reset. Otherwise no toast is raised, the form stays submitting, and exactly one success timer is scheduled |
| ContactForm.CompleteSubmission | softsell-web-showcase-main/src/pages/Index.tsx:59-73 | the success timer fires only while one is scheduled; it empties all five fields, clears the flag, shows the success toast and uses up one timer |
| ContactForm.ValidSubmissionResets | softsell-web-showcase-main/src/pages/Index.tsx:59-73 | a valid submission followed by its timer empties the form with as many timers waiting as before; from a form with none waiting, it returns to the initial state |
| ContactForm.RefusedSubmissionSchedulesNothing | softsell-web-showcase-main/src/pages/Index.tsx:36-57 | a refused submission keeps the data and schedules no reset, so with none waiting before, no success step can follow it |
| ContactForm.DoubleSubmitResetsTwice | softsell-web-showcase-main/src/pages/Index.tsx:59-73 | two valid submissions before the first timer schedule two resets, and both fire, the second on an already empty form |
| ContactForm.OptionalFieldsIgnored | softsell-web-showcase-main/src/pages/Index.tsx:37 | the licence type and the message never change the outcome |
| ContactForm.EmptyNameReported | softsell-web-showcase-main/src/pages/Index.tsx:36-57 | the required-field check comes first: an empty name is reported even when the email is malformed too |
| ContactForm.MalformedEmailReported | softsell-web-showcase-main/src/pages/Index.tsx:49-56 | with the required fields present, a malformed email gives the invalid-email error, keeps the form contents and schedules no reset |
| Theme.Toggle | softsell-web-showcase-main/src/pages/Index.tsx:82 | the result is dark or light, and it is light exactly when the theme was dark |
| Theme.ToggleFlipsPressed | softsell-web-showcase-main/src/pages/Index.tsx:81-82 | each press flips the pressed state |
| Theme.ToggleTwice | softsell-web-showcase-main/src/pages/Index.tsx:82 | two presses restore dark or light; any other value ends on light |

## Left out

- Rendering, styling, animation, the open/closed chat panel and the
  presentational sections of the page: there is no behaviour in them to state.
- `setTimeout` delays and the `Date.now()` message ids are not modelled.
  Timers are explicit events and ids are caller-supplied strings. Because all
  reply timers share one delay, the model fires them in the order they were
  set.
- The send button's `disabled` state (ChatWidget.tsx line 157) and the
  submit button's `disabled` state (Index.tsx line 328) are not modelled.
  The send handler re-checks for blank input itself. Submitting twice while
  a submission is pending is allowed: each valid submission adds one
  waiting success timer.
- The browser's own form validation is not modelled. The form (Index.tsx
  line 253) has no `noValidate`. The name, email and company inputs are
  `required` (lines 263, 276 and 290), and the email input has
  `type="email"` (line 272). In a browser, an empty required field or an
  address that fails the browser's email check stops the submit event
  before `handleSubmit` runs. So on the page, the required-fields toast and
  the refusal of `"not-an-email"` are never reached. The model states what
  the handler itself does with any data. Only addresses the browser accepts
  but the regex refuses, such as `"a@b"` (`Email.DotlessDomainRejected`),
  reach the invalid-email toast on the page.
- The exact lookup in `getResponse` indexes a plain JavaScript object, so
  inherited names such as `"constructor"` would find a non-string value. The
  model looks keys up only in the table.
- `toLowerCase` is modelled on ASCII letters only. Unicode case mapping, for
  example of accented capitals, is not part of this model.
- Theme persistence in the theme provider and toast delivery by the toast
  provider are external components. The model stops at the value passed to
  `setTheme` and at the toast the handler raises.
- `ContactForm.Update`: only the five named controls are modelled. A change
  event from a control with another `name` would add a new key to the record
  in the source.
