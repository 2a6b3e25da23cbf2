# SureSuccess Consult page script — a verified model

The site's only script, `script.js`, is mostly DOM and animation glue. This
project models the parts of it that carry logic and proves what they promise:

- **The contact form's submit handler** (`ContactForm`, `contact_form.dfy`).
  It runs three checks in a fixed order and stops at the first failure:
  1. every field is non-empty;
  2. the email matches `^[^\s@]+@[^\s@]+\.[^\s@]+$`;
  3. the phone, with all whitespace removed, matches `^[0-9]{11}$`.

  Only then are the five values handed to `submitForm`, exactly as typed.
  `Validate` returns `FillAll`, `BadEmail`, `BadPhone` or `Submit(form)`.
  The email check is written character by character (`IsValidEmail`: one
  '@', no whitespace, something before the '@', a '.' inside the domain).
  It is proved equal to the pattern read as its own shape, `A '@' B '.' C`
  with `A`, `B` and `C` non-empty runs of `[^\s@]` (`MatchesEmailPattern`).
  `Validate`'s contract is stated against that shape.
- **JavaScript's `\s` and `replace(/\s/g, '')`** (`JsText`, `js_text.dfy`).
  `IsWs` is the ECMAScript WhiteSpace and LineTerminator sets. `StripWs`
  removes them.
- **The navigation bar** (`Navigation`, `navigation.dfy`). It has the
  `active` class on the hamburger and on the link list, the bar's `scrolled`
  class, and the unused `lastScroll` variable. Class `Navbar` holds these as
  fields, and its listener methods update them in place.
  - The pure functions `Toggled`, `AfterAnchor`, `AfterHamburger`,
    `AfterDocument` and `AfterClick` specify the listeners.
  - One click runs the listeners it reaches in bubbling order: the in-page
    anchor's, then the hamburger's, then the document's.
  - `AfterClicks` folds a sequence of clicks.
- **Animation integers** (`Animation`, `animation.dfy`).
  - The stagger delays `index * 100` and `index * 80`.
  - The counter's final text `end.toString().padStart(2, '0')`, built from
    `DecimalString` (`toString` of a non-negative integer) and `PadStart`.
    `DecimalValue` reads a digit string back as a number.

Helper lemmas without a row below: `ContactForm.PlainSlice`,
`ContactForm.PlainAt`, `ContactForm.OnlyAt`, `ContactForm.CountOneAt`, `ContactForm.ValidAtPositions`,
`Animation.SingleDigitBelowTen`, `Animation.LeadingNonzeroPositive` and
`Animation.AppendDigit`; the helper function `Animation.DigitChar` (the digit
character for 0..9) has no row either. `Navigation.NavbarScenario` is a client method. It
shows what the `Navbar` contracts let a caller conclude.

## Model

| member | source | states |
|---|---|---|
| `JsText.StripWs` | script.js:142 | The result has no whitespace and is no longer than the input. Its characters are exactly the input's non-whitespace characters. |
| `JsText.StripWsAppend` | script.js:142 | Stripping distributes over concatenation, so non-whitespace characters keep their order. |
| `JsText.StripWsOfClean` | script.js:142 | A string without whitespace is unchanged. |
| `JsText.StripWsIdempotent` | script.js:142 | Stripping twice equals stripping once. |
| `JsText.StripWsOfBlank` | script.js:142 | A string of whitespace only strips to "". |
| `ContactForm.CountChar` | script.js:134 | The count of `c` in `s` equals the multiplicity of `c` in `multiset(s)`. |
| `ContactForm.IndexOf` | script.js:134 | Returns the first index holding `c`, or the length of `s` when there is none. |
| `ContactForm.MatchesEmailPattern` | script.js:134 | The regex `^[^\s@]+@[^\s@]+\.[^\s@]+$` as a predicate: the whole string splits as A '@' B '.' C, where A, B and C are non-empty runs of `[^\s@]`; `^` and `$` without the `m` flag anchor at the start and end of the input. It has no contract of its own; `Validate` is stated against it and `EmailCheckIsPattern` ties it to `IsValidEmail`. |
| `ContactForm.EmailCheckSound` | script.js:134-135 | Every email that passes the character-level check splits as `A@B.C`, with `A`, `B` and `C` non-empty and free of whitespace and '@'. |
| `ContactForm.EmailCheckComplete` | script.js:134-135 | Every email of that shape has exactly one '@' and no whitespace. Its part before '@' is non-empty. Its part after '@' has a '.' that is neither first nor last. |
| `ContactForm.EmailCheckIsPattern` | script.js:134-135 | The character-level email check holds exactly when the email regex matches. |
| `ContactForm.PhoneVerdictStable` | script.js:141-142 | Checking an already stripped phone gives the same verdict as checking the raw phone. |
| `ContactForm.PhoneIgnoresInsertedBlanks` | script.js:141-142 | Inserting whitespace anywhere in a phone does not change the phone verdict. |
| `ContactForm.Validate` | script.js:117-150 | `FillAll` exactly when some field is "". `BadEmail` exactly when all are filled and the email does not match. `BadPhone` exactly when the email matches but the stripped phone is not 11 ASCII digits. `Submit` exactly when all three checks pass, and it carries the five original values. |
| `ContactForm.EmptyFieldMasksEmail` | script.js:128-138 | An empty field is reported even when the email is malformed too. |
| `ContactForm.BlankPhoneIsBadPhone` | script.js:128-145 | A phone of spaces only passes the emptiness check and then fails the phone check. |
| `ContactForm.SpacedPhoneSubmittedAsTyped` | script.js:141-149 | A phone typed as three digit groups separated by spaces is accepted. It is submitted with its spaces. |
| `ContactForm.NoticeFor` | script.js:129-166 | The three rejections show an "error" notice and a submission a "success" notice. Each verdict has its own text, as at script.js:129, 136, 143 and 166. |
| `Navigation.Toggled` | script.js:40-43 | A hamburger toggle flips both the hamburger flag and the link-list flag. |
| `Navigation.HamburgerClickToggles` | script.js:40-51 | A plain click on the hamburger toggles both flags, and the document's listener ignores it. Two such clicks restore the state. |
| `Navigation.OutsideClickCloses` | script.js:45-51 | A click outside the hamburger and the link list clears both flags. |
| `Navigation.AnchorClickCloses` | script.js:2-16 | An in-page anchor whose target exists clears both flags. This holds inside the link list too. |
| `Navigation.InsideMenuClickKeeps` | script.js:2-51 | Inside the link list, a click that is not on an anchor with an existing target leaves the flags unchanged. |
| `Navigation.ClickPreservesSynced` | script.js:2-51 | A click keeps equal flags equal. A click outside both elements always leaves them equal. |
| `Navigation.ClicksPreserveSynced` | script.js:2-51 | Flags that start equal stay equal after any sequence of clicks. |
| `Navigation.Navbar.constructor` | script.js:20-22 | The page starts with both menu flags and `scrolled` clear, and `lastScroll` at 0. |
| `Navigation.Navbar.OnHamburgerClick` | script.js:40-43 | Both flags are toggled. Their agreement is unchanged, and nothing else changes. |
| `Navigation.Navbar.OnDocumentClick` | script.js:45-51 | A click outside both elements clears both flags. Any other click changes nothing. |
| `Navigation.Navbar.OnAnchorClick` | script.js:2-16 | Both flags are cleared when the target exists. Otherwise nothing changes. |
| `Navigation.Navbar.OnClick` | script.js:2-51 | The new flags are `AfterClick` of the old ones, so equal flags stay equal. `scrolled` and `lastScroll` do not change. |
| `Navigation.Navbar.OnScroll` | script.js:24-34 | `scrolled` is set exactly when the offset is strictly greater than 100. `lastScroll` becomes the offset, and the menu is untouched. |
| `Animation.StaggerOrder` | script.js:88-106 | Index 0 has no delay. Delays never decrease and strictly grow with the index. Consecutive items are 100 ms (benefits) and 80 ms (requirements) apart. |
| `Animation.DecimalString` | script.js:210 | The decimal form of `n` is non-empty and all digits, with no leading zero except "0". It reads back as `n`. |
| `Animation.PadStart` | script.js:210 | The result has length `max(len(s), target)` and ends with `s`. Everything before `s` is the fill character. |
| `Animation.LeadingZeros` | script.js:210 | Leading zeros do not change the number a digit string denotes. |
| `Animation.CounterText` | script.js:209-210 | The final counter text has at least two digits and reads back as `end`. It is the plain decimal form from 10 on, and '0' plus the digit below 10. |
| `Animation.CanonicalDigits` | script.js:210 | `DecimalString` inverts `DecimalValue` on digit strings without a leading zero. |
| `Animation.TwoDigitTextRestored` | script.js:210-224 | A two-digit number text, read as a number and counted up to, ends showing the same text. |
| `JsText.IsWs` | script.js:142 | The `\s` class (also at script.js:134): ECMAScript WhiteSpace and LineTerminator code points. It has no contract of its own; `StripWs` and `EmailCheckIsPattern` state what depends on it. |
| `ContactForm.IsValidEmail` | script.js:134-135 | The character-level email test. It has no contract of its own; `EmailCheckIsPattern` proves it holds exactly when the regex matches. |
| `ContactForm.IsElevenDigits` | script.js:141 | The pattern `^[0-9]{11}$`: exactly eleven ASCII digits. It has no contract of its own; `Validate` states its role. |
| `ContactForm.IsValidPhone` | script.js:141-142 | The pattern tested on the phone with whitespace removed. It has no contract of its own; `PhoneVerdictStable` and `PhoneIgnoresInsertedBlanks` specify it. |
| `ContactForm.AllFilled` | script.js:128 | Every field differs from "". It has no contract of its own; `Validate` and `EmptyFieldMasksEmail` specify it. |
| `Navigation.AfterAnchor` | script.js:2-16 | The anchor listener's effect on the flags. It has no contract of its own; `AnchorClickCloses` specifies it. |
| `Navigation.AfterHamburger` | script.js:40-43 | The hamburger listener's effect on the flags. It has no contract of its own; `HamburgerClickToggles` specifies it. |
| `Navigation.AfterDocument` | script.js:45-51 | The document listener's effect on the flags. It has no contract of its own; `OutsideClickCloses` and `InsideMenuClickKeeps` specify it. |
| `Navigation.AfterClick` | script.js:2-51 | One click through every listener it reaches, in the order anchor, hamburger, document. It has no contract of its own; `ClickPreservesSynced` and the click lemmas specify it. |
| `Navigation.AfterClicks` | script.js:2-51 | A sequence of clicks in order. It has no contract of its own; `ClicksPreserveSynced` specifies it. |
| `Animation.BenefitDelay` | script.js:88-92 | `index * 100`. It has no contract of its own; `StaggerOrder` specifies it. |
| `Animation.RequirementDelay` | script.js:102-106 | `index * 80`. It has no contract of its own; `StaggerOrder` specifies it. |
| `Animation.DecimalValue` | script.js:223 | `parseInt` on non-empty decimal digit text whose value is below 2^53. It has no contract of its own; `DecimalString`, `CanonicalDigits` and `TwoDigitTextRestored` relate it to `toString`. |

## Left out

- DOM access is left out. `querySelector(href)` becomes the boolean `targetExists`. When `querySelector` throws (for `href="#"` or an href that is not a valid selector), the listener stops before touching the flags, which is `Anchor(false)`. `contains(e.target)` becomes `inHamburger` and `inNavLinks`. Class lists become boolean fields.
- The page's HTML is not part of this model. The constructor assumes no element starts with the `active` or `scrolled` class.
- Navigation.Navbar.OnClick: runs the anchor's listener before the hamburger's, then the document's. This assumes the HTML has no `a[href^="#"]` enclosing `#hamburger`. Bubbling runs listeners innermost first, so for a hamburger inside such an anchor the real order would be toggle, then close.
- The smooth scroll to `offsetTop - 70` (script.js:7-11) is left out. It is a browser call with no bearing on the flags.
- IntersectionObserver geometry is left out: thresholds, root margin and which entries intersect. Reveal classes and the header sub-element delays are left out too. Only the stagger-delay formulas are modelled.
- Timers and their durations are left out: the 1500 ms simulated send, the 5000 ms message hide and the 600 ms ripple removal. `submitForm`'s button text and disabled state and the form reset are left out with them. `showMessage`'s text and `type` are kept as `Notice`'s `text` and `kind` (the class becomes `form-message ${type}`, script.js:185); only its auto-hide is dropped.
- Floating-point effects are left out: parallax, card tilt, ripple geometry, and the counter's fractional `increment` loop with its intermediate `Math.floor` texts. Only the counter's final text is modelled.
- Animation.TwoDigitTextRestored: takes the number's text to be decimal digits. `parseInt` of any other text (possibly NaN) is not modelled.
- Animation.CounterText: models `end` as a non-negative integer only, and is exact only below 2^53. It does not model negative values. From 2^53 up, JavaScript numbers are doubles: `toString` prints the shortest digits that read back as the same double, padded with zeros, and from 1e21 on it uses exponent notation.
- Animation.DecimalString: is `toString` of a non-negative integer only below 2^53. From 2^53 up it gives the exact decimal, where JavaScript prints shortest round-trip digits padded with zeros (exponent notation from 1e21).
- Animation.DecimalValue: equals `parseInt` only on non-empty digit text whose value is below 2^53. `DecimalValue("")` is 0 where `parseInt("")` is NaN (the counter would then show "NaN" and never stop). From 2^53 up it is exact where `parseInt` rounds to the nearest double.
- Navigation.Navbar.OnScroll: takes `pageYOffset` as an exact real. Comparing a double with 100 is exact, so this loses nothing, and the offset is never NaN.
- Characters are Unicode scalar values, while the regexes run over UTF-16 code units (no `u` flag). The verdicts agree: either half of a surrogate pair is not whitespace, not '@' and not a digit.
- Hover transforms, the `loaded` body class, image preloading (an empty list), injected CSS and console logging are left out. They are I/O or fixed style strings with no logic.
