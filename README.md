# Rooted landing page: interaction model

This project models the interactive behaviour of the Rooted landing page
(`script.js`) and proves properties of it:

- **Email** (`email.dfy`) covers the email field check of the waitlist form:
  - `String.prototype.trim` over the exact ECMAScript whitespace set, which
    `trim()` shares with the regular-expression class `\s`;
  - `validateEmail`, the anchored pattern `^[^\s@]+@[^\s@]+\.[^\s@]+$`,
    written as the language it accepts and proved equal to a plain
    description (no whitespace, one '@', a non-empty local part, a domain
    with an inner '.');
  - the three-way decision (required / invalid / clear) that both the blur
    and the submit handler take on the trimmed value.
- **Waitlist** (`waitlist.dfy`) models the form controller as a class:
  - per-group error class and error text;
  - the submit handler;
  - the 100 ms send timer, the post, its resolution or rejection, and the
    1500 ms reset timer.

  One invariant ties the button's `disabled` flag and label and the success
  banner's `visible` class and `aria-hidden` value to where the submission
  stands. Every handler keeps it.
- **Faq** (`faq.dfy`) models the FAQ accordion as a class over two
  arrays: the items' `open` class and the questions' `aria-expanded`. The
  click handler's loop is proved against a function on sequences. That
  function is proved to leave at most one item open and to keep
  `aria-expanded` equal to `open`, after one click and after any sequence
  of clicks.
- **Navigation** (`navigation.dfy`) models the `active` classes of the
  hamburger toggle and of the menu, and the `scrolled` class of the bar.
- **Reveal** (`reveal.dfy`) models the scroll-reveal observer callback and
  the reduced-motion path.

Events are methods. The browser supplies their inputs, which become
parameters:
- the key pressed;
- whether a click landed inside the navigation bar;
- the scroll offset;
- the observer's entry batch;
- what the user typed.

## Model

| member | source | states |
|---|---|---|
| Email.Trim | script.js:135 | defines `trim()` as the input with its leading and trailing whitespace counts cut off; its contract: the result is never longer than the input (the lemmas below characterise it) |
| Email.LeadingSpaceIsMaximal | script.js:135 | the leading count covers only whitespace and stops at the first non-whitespace character |
| Email.TrailingSpaceIsMaximal | script.js:135 | the trailing count covers only whitespace and stops at the last non-whitespace character |
| Email.TrimShape | script.js:135 | `trim()` returns a slice of its input; everything cut off on both sides is whitespace; the result neither starts nor ends with whitespace |
| Email.TrimEmptyIff | script.js:135-136 | the trimmed value is `''` exactly when the raw value is all whitespace |
| Email.TrimUnchanged | script.js:135 | a string with no whitespace at either end is returned unchanged |
| Email.TrimIdempotent | script.js:135 | trimming twice equals trimming once |
| Email.ValidateEmail | script.js:107-111 | defines acceptance by the pattern: `s` splits as run '@' run '.' run, where a run is a non-empty sequence of characters that are neither whitespace nor '@'; its contract: an accepted string has at least 5 characters and holds an '@' and a '.' |
| Email.ValidateEmailImpliesWellFormed | script.js:107-111 | everything the pattern accepts has no whitespace, exactly one '@', a non-empty local part and a '.' strictly inside the domain |
| Email.WellFormedImpliesValidateEmail | script.js:107-111 | every such string is accepted by the pattern |
| Email.ValidateEmailIff | script.js:107-111 | the pattern accepts exactly the well-formed strings |
| Email.ValidEmailIsTrimmed | script.js:107-111 | an accepted address has no whitespace at either end, so `trim()` returns it unchanged |
| Email.AcceptedSample | script.js:107 | `user@example.com` is accepted |
| Email.AcceptedDottedSample | script.js:107 | `a@b.c.d` is accepted (the middle run takes the earlier dots) |
| Email.RejectedSamples | script.js:107 | `a@b`, `a@@b.c`, `@b.c`, `a@b.` and `a b@c.d` are rejected |
| Email.CheckEmail | script.js:135-142 | defines the decision on the raw field value: trim it; empty is "required", rejected by the pattern is "invalid", otherwise "clear"; its contract: a "clear" field holds at least 5 characters |
| Email.CheckEmailOutcomes | script.js:134-142 | the decision is "required" exactly when the field is all whitespace, "clear" exactly when the trimmed value is well formed, and "invalid" otherwise |
| Email.ErrorText | script.js:136-142 | the error text is empty exactly when the decision clears the error; "required" shows `Email address is required`; "invalid" shows `Please enter a valid email address` |
| Waitlist.Form.ShowError | script.js:113-121 | the group gets the error class; its error text becomes the message only when it has an error element; every other group is untouched |
| Waitlist.Form.ClearError | script.js:123-131 | the group loses the error class; its error text becomes empty only when it has an error element; every other group is untouched |
| Waitlist.Form.ApplyCheck | script.js:136-142 | only the email group changes: it shows the error exactly when the decision is not "clear", with the decision's text |
| Waitlist.Form.Blur | script.js:134-143 | leaving the email field sets the email group's error and text from the decision on the current value and touches no other group |
| Waitlist.Form.ClearAllErrors | script.js:150 | after the loop over all groups no group shows an error, and every group with an error element has an empty text |
| Waitlist.Form.CheckAllGroups | script.js:149-162 | after the submit handler's checks, a group shows an error exactly when it is the email group and the email was rejected |
| Waitlist.Form.Submit | script.js:146-176 | a rejected email leaves exactly one error (on the email group), focuses the field, keeps the button enabled and schedules nothing; an accepted email leaves no error, disables the button, sets `Adding...`, saves the old label and schedules the post; the invariant is kept |
| Waitlist.Form.SubmitDecided | script.js:149-175 | the same effect, stated for a given decision |
| Waitlist.Form.SendTimerFired | script.js:178-185 | the 100 ms timer posts exactly the field values as they are at that moment, appended to the posts sent so far |
| Waitlist.Form.ShowSuccessMessage | script.js:208-212 | the banner becomes visible with `aria-hidden` "false" |
| Waitlist.Form.FetchResolved | script.js:186-188 | a settled post shows the banner; the button stays disabled with `Adding...` |
| Waitlist.Form.FetchRejected | script.js:200-204 | a failed post re-enables the button with the saved label and leaves the banner hidden |
| Waitlist.Form.ResetTimerFired | script.js:191-198 | the reset empties the fields, re-enables the button with the saved label, focuses the email field and hides the banner with `aria-hidden` "true" |
| Waitlist.StartSubmission | script.js:164-176 | submitting an idle form whose email is accepted schedules the post, shows no error, saves the button label, and leaves the fields and the posts sent so far unchanged |
| Waitlist.CompleteSubmission | script.js:178-198 | from any scheduled form, one post is appended, carrying the field values at send time; after the reset the fields are empty, the button is enabled with the saved label, the email field is focused and the banner is hidden |
| Waitlist.SuccessfulSubmission | script.js:146-198 | a full run from page load with an accepted address sends the address as typed with empty name and message, then ends enabled with the original label and the banner hidden |
| Waitlist.RejectSubmit | script.js:156-167 | submitting an idle form whose email is rejected leaves the email group as the only one with an error, with the decision's text where it has an error element; it focuses the email field, keeps the button's state and label, and sends nothing |
| Waitlist.RejectedSubmission | script.js:146-167 | a run from page load with a rejected address shows the one error with the decision's text and sends nothing |
| Faq.ClickOpen | script.js:226-243 | defines the `open` flags after a click on item `i`: every other open item is closed, then item `i` is toggled; its contract: same length, and item `i` ends opposite to how it started |
| Faq.ClickExpanded | script.js:229-243 | defines the `aria-expanded` flags after the same click: "false" on every other open item, then item `i` gets the opposite of its old `open` flag; its contract: same length, and item `i` ends opposite to its old `open` flag |
| Faq.ClickOpenAt | script.js:226-243 | after a click on item `i`, item `j` is open exactly when `j` is `i` and `i` was closed |
| Faq.ClickLeavesAtMostOne | script.js:228-243 | after any click at most one item is open |
| Faq.ClickLeavesClosedUntouched | script.js:229-234 | a closed item other than the clicked one keeps both flags |
| Faq.ClickKeepsMirror | script.js:229-243 | when `aria-expanded` equals `open` on every item before a click, it does after |
| Faq.ClicksKeepInvariant | script.js:221-244 | at most one open item, and `aria-expanded` equal to `open`, hold after any sequence of clicks |
| Faq.Accordion.Click | script.js:222-244 | the loop and toggle leave the arrays equal to the click function of the old arrays, with at most one item open and the mirror kept |
| Faq.Accordion.KeyDown | script.js:247-252 | Enter and Space act exactly as a click, leaving at most one item open and keeping the mirror; any other key changes nothing |
| Navigation.NavMenu.ToggleClick | script.js:15-20 | both `active` classes flip, so they stay equal if they were |
| Navigation.NavMenu.LinkClick | script.js:23-28 | a link click removes both `active` classes |
| Navigation.NavMenu.DocumentClick | script.js:31-36 | a click outside the bar removes both classes; a click inside changes nothing |
| Navigation.NavMenu.DocumentKeyDown | script.js:260-266 | Escape removes both classes; other keys change nothing |
| Navigation.NavMenu.Scroll | script.js:44-46 | `scrolled` is set exactly when the vertical offset exceeds 40 |
| Reveal.RevealObserver.OnEntries | script.js:81-88 | an element is revealed after the batch exactly when it was before or some entry hits it; it stays observed exactly when it was and no entry hits it; reveals are never undone |
| Reveal.RevealObserver.ShowAll | script.js:272-281 | with reduced motion every element is visible |

## Left out

- The scroll progress bar width (script.js:48-51) is left out: it is floating-point layout arithmetic.
- Smooth scrolling for in-page links (script.js:58-73) is left out: it only moves the viewport and changes no page state the model holds.
- The intersection geometry (threshold, root margin) is left out; the observer's entry batches are inputs.
- Element lookup (`getElementById`, `querySelector`, `closest`) is left out: form groups, FAQ items and reveal targets are array indices.
- Each form group is assumed to contain a `.form-input`. Otherwise the clearing loop at script.js:150 would throw.
- The toggle is assumed present. The `navToggle` guard at script.js:15 protects only the toggle's own listener; the other three handlers dereference it unguarded.
- `console.error` in the failure path is left out: it is logging only.
- The network and the two timers are events (`SendTimerFired`, `FetchResolved`, `FetchRejected`, `ResetTimerFired`), not concurrency. The request's headers and endpoint are not modelled.
- `form.reset()` is modelled as emptying the three fields, on the assumption that their default values are empty. Error classes and texts are left as they were.
- The `animation: none` style that the reduced-motion path sets is left out. Only the visible state is modelled.
- `window.matchMedia` is left out; the reduced-motion path is the method `ShowAll`.
- Page markup that the script relies on but does not set is assumed:
  - the banner's initial `aria-hidden` is "true";
  - the error texts are empty at load;
  - every FAQ item is closed at load, and every question's `aria-expanded` is "false";
  - the toggle and the navigation links sit inside the navigation bar, so their clicks reach the document listener as clicks inside the bar;
  - the form's only named controls are the email, name and message fields, so a post carries exactly those three values. `new FormData(form)` (script.js:181) would also carry any other named control.
- Waitlist.Form.Submit: requires the form to be idle. While a submission is under way the default submit button is disabled, and HTML then blocks both the button's click and implicit submission by Enter.
- Waitlist.Form.FetchResolved: runs for any HTTP response, as `fetch().then` does (script.js:186). A 4xx or 5xx answer also shows the success banner; only a network failure takes the `FetchRejected` path.
- A click on an FAQ question also reaches the document click listener of the navigation bar. The accordion and the bar are separate classes, so that combined effect is the caller's pair of calls.
