# Portfolio page script: verified model of its decision logic

The portfolio site's `script.js` binds page events to page changes. Three parts of it
make real decisions, and this project models those three in Dafny. The document is
replaced by plain values.

- **Theme controller** (`Theme`, with the shared `ActiveMarks`). `ThemeManager` holds
  the current theme, the `portfolio-theme` storage slot, the class set of
  `document.body` and an array of theme buttons. `setTheme` removes the four theme tokens (`light`, `dark`,
  `theme-neon`, `theme-gradient`) and adds the ones the name maps to. It then saves
  the name and re-scans the buttons: a button is active exactly when its
  `data-theme` equals the current theme. `loadTheme` falls back to `dark` when the
  slot is empty or holds the empty string.
- **Section activation** (`Navigation`). `NavigationManager` holds `activeSection`
  (initially `home`) and an array of navigation links. The observer callback folds a
  batch of `(id, isIntersecting)` entries in delivery order. Each intersecting entry
  calls `setActiveSection`, so the last one wins. That call re-scans every link: a
  link is active exactly when its `href` is `#` followed by the id.
- **Contact form** (`EmailPattern`, `ContactForm`). Validation checks the required
  fields first and the email shape second, in that fixed order. The email shape is
  the regular expression `^[^\s@]+@[^\s@]+\.[^\s@]+$`, a simplified shape and not
  RFC 5322. The check decides the toast's texts and icon, and only a valid
  submission resets the form.

JavaScript's `undefined`/`null` is `Option.None`. This covers a button without
`data-theme`, a link without `href`, a field that `FormData.get` does not find and an
empty storage slot. `localStorage.setItem` coerces `undefined` to the string
`"undefined"`, and `StorageValue` models that coercion. JavaScript's `\s` is written
out as the ECMAScript WhiteSpace and LineTerminator code points (`IsWhitespace`).

The button and link re-scans are the same operation. Both are `ActiveMarks.MarkAll`,
and both classes perform it in place with `ActiveMarks.MarkInPlace`.

Three consequences of the code are worth stating:
- a non-empty stored name that is not one of the four is kept as the current theme
  and applies no theme token;
- the pattern admits exactly one `@`, because `[^\s@]` excludes it on both sides;
- when the buttons' `data-theme` values are distinct and one of them is the current
  theme, exactly that button is active (`ExactlyOneActive`); with duplicates of the
  current theme every matching button is active, and with no match none is.

## Model

| member | source | states |
|---|---|---|
| `ActiveMarks.MarkAll` | script.js:40-47 | after a re-scan the list keeps its length and keys, and element i is active iff its key equals the target |
| `ActiveMarks.MarkAllKeepsKeys` | script.js:139-144 | a re-scan keeps every key and the order of the elements, and leaves the list in sync with the target |
| `ActiveMarks.MarkAllInSync` | script.js:42-47 | re-scanning a list that is already in sync changes nothing |
| `ActiveMarks.MarkAllOverwrites` | script.js:134-145 | two re-scans in a row equal the second one alone, so no flag from the first survives |
| `ActiveMarks.ExactlyOneActive` | script.js:40-47 | with distinct keys, the element whose key is the target is active and no other element is |
| `ActiveMarks.MarkInPlace` | script.js:42-47 | the in-place loop (remove `active`, add it back on a match) leaves the array equal to `MarkAll` of its old contents |
| `Theme.StorageValue` | script.js:14-16 | a present name is saved as itself and a missing one as `"undefined"`, so a missing `data-theme` and the name `"undefined"` are saved alike; `ReloadRestoresName` reads it back |
| `Theme.TokensFor` | script.js:21-33 | the added tokens are a subset of the four theme tokens and empty exactly for an unknown name; `light` and `dark` exclude each other, as do `theme-neon` and `theme-gradient`, and either of those two brings `dark` |
| `Theme.ApplyTheme` | script.js:18-33 | body classes outside the four theme tokens are untouched, and the theme tokens present are exactly those of the name |
| `Theme.LoadTheme` | script.js:10-12 | the result is never empty; it is the stored value exactly when that value is present and non-empty, and `dark` otherwise |
| `Theme.ReloadRestoresName` | script.js:10-16 | saving then loading gives back a non-empty name, gives `dark` for the empty name and gives `"undefined"` for a missing one |
| `Theme.ReloadRestoresClasses` | script.js:10-33 | for every name but the empty one, a reload applies the same body classes that `setTheme` left |
| `Theme.ApplyThemeOverwrites` | script.js:18-33 | applying one theme after another equals applying the second alone |
| `Theme.SetThemeIdempotent` | script.js:18-47 | `setTheme(t)` twice leaves the body classes and the buttons as `setTheme(t)` once |
| `Theme.ThemeManager.constructor` | script.js:5-12 | the loaded name becomes current and is applied by `init` (script.js:50-51), which saves it; the body classes and buttons are set as by `setTheme` of that name, and the view is in sync |
| `Theme.ThemeManager.SaveTheme` | script.js:14-16 | the slot holds the name coerced to a string |
| `Theme.ThemeManager.SetTheme` | script.js:18-38 | the current theme is the name and the slot holds it; the body classes are `ApplyTheme` of the old classes, the buttons are `MarkAll` of the old buttons, and body, slot and buttons are in sync |
| `Theme.ThemeManager.UpdateActiveThemeButton` | script.js:40-48 | the buttons become `MarkAll` of their old state for the current theme, with keys and order unchanged |
| `Theme.ThemeManager.ClickThemeButton` | script.js:54-59 | clicking button i makes its `data-theme` the current theme and leaves that button active and everything in sync |
| `Navigation.ActiveAfter` | script.js:121-127 | the batch fold gives either the section active before or the id of an intersecting entry; `LastIntersectingWins` and `NoIntersectingKeepsSection` pin down which |
| `Navigation.LastIntersectingWins` | script.js:121-127 | after a batch, the active section is the id of the last intersecting entry |
| `Navigation.NoIntersectingKeepsSection` | script.js:121-127 | a batch with no intersecting entry leaves the active section unchanged |
| `Navigation.ActiveAfterForgetsHistory` | script.js:121-127 | when some entry of a batch intersects, the result does not depend on the section that was active before |
| `Navigation.NavigationManager.constructor` | script.js:65-66 | the active section starts as `home` and the links are as the markup has them |
| `Navigation.NavigationManager.SetActiveSection` | script.js:134-145 | the id becomes active; exactly the links whose `href` is `#id` are active, with hrefs and order unchanged |
| `Navigation.NavigationManager.OnIntersections` | script.js:121-127 | the active section is the batch fold (the last intersecting id, or unchanged); the links are re-scanned for it when some entry intersects and are untouched otherwise |
| `EmailPattern.IsValidEmail` | script.js:283-284 | the check holds iff the string is `L@R` with a non-empty `L` in `[^\s@]*`, with `R` in `[^\s@]*`, and with a `.` in `R` that has a character on each side |
| `EmailPattern.ValidEmailMatchesRegex` | script.js:283 | every string the `L@R` check accepts matches the regular expression read literally |
| `EmailPattern.RegexMatchIsValidEmail` | script.js:283 | every string the regular expression matches passes the `L@R` check |
| `EmailPattern.EmailCheckIsRegex` | script.js:283-284 | the check and the regular expression accept the same strings |
| `EmailPattern.ShapedAddressPasses` | script.js:283-284 | `a@b.com` passes |
| `EmailPattern.NoAtSignFails` | script.js:283-287 | `not-an-email` fails |
| `EmailPattern.MissingLocalPartFails` | script.js:283-287 | `@b.com` fails |
| `EmailPattern.DotRightAfterAtFails` | script.js:283-287 | `a@.com` fails |
| `EmailPattern.SpaceInLocalPartFails` | script.js:283-287 | `a b@c.com` fails |
| `ContactForm.Filled` | script.js:277 | a field value is falsy exactly when it is null or the empty string, so a blank string counts as filled |
| `ContactForm.Validate` | script.js:276-287 | the result is the required error iff name, email or message is absent or empty; otherwise it is the email error iff the email does not match the regular expression, and success when it does; the subject plays no part |
| `ContactForm.ShowToast` | script.js:296-313 | the toast is shown with the given texts; it gets the red exclamation icon (`#ef4444`) iff the type is `error`, and the green check (`#10b981`) otherwise |
| `ContactForm.Reset` | script.js:292-293 | after a reset no field is filled, and the fields the form has are still present |
| `ContactForm.HandleSubmit` | script.js:265-294 | each outcome shows its title and message; the two errors keep the form and success resets it; a refused submission shows the red exclamation (`fas fa-exclamation-circle`, `#ef4444`) and a successful one the green check (`fas fa-check-circle`, `#10b981`) |
| `ContactForm.SubjectNeverChecked` | script.js:269-280 | changing the subject changes neither the outcome nor the toast |
| `ContactForm.OnlySuccessResets` | script.js:284-293 | for every submission, handling it changes the form iff validation succeeded |
| `ContactForm.ResubmitAfterSuccessIsRequiredError` | script.js:277-293 | submitting again right after a success gives the required-fields error and changes nothing |
| `ContactForm.EmptyNameExample` | script.js:277-280 | an empty name gives the required-fields toast and the form is kept, even with a valid email |
| `ContactForm.BadEmailExample` | script.js:283-287 | a filled form with the email `not-an-email` gives the invalid-email toast |
| `ContactForm.SuccessExample` | script.js:289-293 | name `A`, email `a@b.com` and message `hi` give the success toast and clear every field |
| `ContactForm.BlankFieldsAccepted` | script.js:277 | a name and a message of one space pass the required check, because nothing is trimmed |

## Left out

- Document lookup and event wiring are not modelled: `querySelector`, `addEventListener`, the `DOMContentLoaded` start-up and the `resize` handler. Their results are plain sequences and method calls. `preventDefault` has no counterpart.
- Intersection geometry is not modelled: the thresholds 0.3, 0.1 and 0.5 and the `rootMargin` insets. `isIntersecting` is an input.
- Scrolling is not modelled: `scrollToSection` (both the method and the global function), the `top + pageYOffset - 80` offset, smooth scrolling and the parallax `scrolled * 0.5`. These are floating-point layout values handed to the browser.
- Timers are not modelled: the 200 ms skill-bar delay and the 5000 ms toast auto-hide. The toast stays `shown` in the model, so the race between two pending hide timers is not captured.
- The entrance animation, the skill-bar widths, the image fallbacks and the mobile menu are not modelled. They are direct style writes with no decision beyond "set this property".
- `localStorage` is a single slot (`ThemeManager.stored`) rather than a storage API. The key `portfolio-theme` is implied.
- `ContactForm.Reset`: assumes the markup's default value of every field is empty. `form.reset()` actually restores markup defaults, which this model does not see.
- `ContactForm.HandleSubmit`: `FormData.get` returning a `File` is not modelled. Every present field is a string.
- `ContactForm.ShowToast`: the parameter's default of `'success'` is not modelled, because every caller passes the type.
