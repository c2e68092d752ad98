# Restaurant site interactivity: a verified model

This project models the client-side logic of a restaurant's marketing site (`script.js`). The code does five things that are worth modelling:

- **Menu book** (`menu_book.dfy`, module `MenuBook`). This is the paginated menu viewer. A counter holds the current page in 1..N. Each page element carries the classes `active`, `prev` and `next`. Going to a page checks the target first: a target outside 1..N, or equal to the current page, is ignored. Otherwise the old page loses `active` and gains `prev` or `next` by direction, the target becomes `active`, and the arrow buttons and indicator dots are refreshed. Next and previous clamp at the ends. The inputs are dot clicks, arrow clicks, the arrow keys and swipes. The pure part (`State`, `GoTo`, `Forward`, `Back`, `Navigation`, `Handle`, `Run`) says what happens. The class `Book` does the same thing the way the script does: it keeps the page counter, the page classes and the dot flags in arrays and updates them in place.
- **Swipe classification** (`swipe.dfy`, module `Swipe`). There are two touch-end classifiers. The menu book's own handler needs |dx| > |dy| and |dx| > 50. The separate touch-navigation handler also needs |dx| > 80 and |dy| < 30.
- **Loading progress** (`loading_progress.dfy`, module `LoadingProgress`).
  - The 24 critical resources are cut into batches of five and checked batch by batch.
  - Only checks that succeed increment the counter.
  - Each update shows `Math.round(loaded / total * 100)` and one of six status texts.
- **Reservation form validation** (`form_validation.dfy`, module `FormValidation`). The value is trimmed. Then come the required-field check, the e-mail regular expression, the telephone regular expression with its minimum length of 10, and the date-not-before-today check. These make up `validateField`. `validateForm` runs over every required field.
- **Language switching** (`translation.dfy`, module `Translation`). Each element tagged with a key gets the table's text for the chosen language. If there is no non-empty text, the element keeps what it shows.

Several kinds of input become parameters:
- The outcome of each resource check: `check: string -> bool`.
- The clock, as a day number `today`.
- Parsing of date values: `dayOf: string -> Option<int>`.
- The DOM, as the initial page classes, the number of dots and whether each arrow button exists.

The language and theme preferences default to `'nl'` and `'light'` (script.js:364, script.js:149). They are not modelled further.

Two details of the code fix what the model counts and shows:
- Only successful checks increment the progress counter (script.js:674-677). The `catch` branch never runs, because `checkResourceLoaded` always resolves.
- `Math.round` (script.js:612) rounds to the nearest integer, a half rounded up.

## Model

| member | source | states |
|---|---|---|
| Swipe.MenuBookSwipe | script.js:1000-1010 | the menu-book handler turns a page exactly when \|dx\| > \|dy\| and \|dx\| > 50; a turn back only for dx > 0 and a turn forward only for dx < 0 |
| Swipe.TouchSwipe | script.js:181-208 | the touch-navigation handler fires exactly when \|dx\| > \|dy\|, \|dx\| > 80 and \|dy\| < 30; the direction follows the sign of dx as above |
| Swipe.TouchSwipeImpliesMenuBookSwipe | script.js:196-208 | every gesture the touch-navigation handler accepts is accepted by the menu-book handler with the same direction |
| Swipe.MenuBookSwipeMirrors | script.js:1004-1010 | mirroring dx reverses the page-turn direction, and the sign of dy does not matter |
| Swipe.VerticalGestureIgnored | script.js:1004 | a gesture at least as vertical as it is horizontal turns no page in either handler |
| MenuBook.GoTo | script.js:915-940 | a target below 1, above N or equal to the current page changes nothing; otherwise the target becomes current, its page is active with neither prev nor next, the old page loses active and gains prev (forward) or next (backward) keeping its other flag, and every other page is unchanged |
| MenuBook.Forward | script.js:942-946 | from k < N the current page becomes k + 1 through GoTo; at N nothing changes (no wrap-around) |
| MenuBook.Back | script.js:948-952 | from k > 1 the current page becomes k - 1 through GoTo; at 1 nothing changes (no wrap-around) |
| MenuBook.Navigation | script.js:954-963 | the previous arrow is disabled iff the current page is 1, the next arrow iff it is N, and dot i (0-based) is highlighted iff i + 1 is the current page |
| MenuBook.Handle | script.js:965-1010 | a click on dot i goes to page i + 1 through GoTo; the previous arrow, ArrowLeft and a swipe MenuBookSwipe classifies as Previous go Back; the next arrow, ArrowRight and a Next swipe go Forward; any other key and an ignored swipe change nothing; the page stays in 1..N |
| MenuBook.Run | script.js:965-1010 | any series of clicks, key presses and swipes keeps the current page in 1..N |
| MenuBook.GoToKeepsOneActive | script.js:924-938 | if exactly the current page was active, after goToPage exactly the new current page is active |
| MenuBook.HandleKeepsOneActive | script.js:965-1010 | every input event keeps exactly the current page active |
| MenuBook.RunKeepsOneActive | script.js:915-1010 | exactly one page, the current one, stays active through any series of inputs |
| MenuBook.NextClicksClamp | script.js:942-946 | k presses of "next" from page c land on page min(c + k, N) |
| MenuBook.ForwardControls | script.js:942-963 | after "next" from k < N the previous arrow is enabled and the next arrow is disabled iff k + 1 = N |
| MenuBook.AtMostOneDot | script.js:960-962 | no two indicator dots are highlighted at once |
| MenuBook.Book.constructor | script.js:912-913 | a book with at least one page starts on page 1 with its page classes as given, and the controls are synchronised with it |
| MenuBook.Book.UpdateNavigation | script.js:954-963 | the arrows present on the page and every dot show what Navigation prescribes; an absent arrow keeps its state |
| MenuBook.Book.GoToPage | script.js:915-940 | the in-place page classes and counter move exactly as GoTo says; an ignored target changes no field, page or dot; a real turn leaves the controls synchronised |
| MenuBook.Book.NextPage | script.js:942-946 | the in-place state moves as Forward says; on the last page nothing changes |
| MenuBook.Book.PreviousPage | script.js:948-952 | the in-place state moves as Back says; on the first page nothing changes |
| MenuBook.Book.Dispatch | script.js:965-1010 | dot clicks, arrow clicks, ArrowLeft/ArrowRight and swipes change the in-place state as Handle says; an event that turns no page changes nothing at all, and arrows and dots that matched the page still match it afterwards |
| MenuBook.InitMenuBook | script.js:904-913 | there is no book exactly when the document has no pages; otherwise the book starts on page 1 |
| LoadingProgress.Percent | script.js:611-612 | the percentage r is the integer nearest to 100·loaded/total, a half rounded up: (2r−1)·total ≤ 200·loaded < (2r+1)·total |
| LoadingProgress.PercentIsNearest | script.js:612 | that rounding condition has exactly one solution, the value of Percent |
| LoadingProgress.PercentAtMost100 | script.js:612 | with loaded ≤ total the percentage is at most 100 |
| LoadingProgress.PercentMonotone | script.js:611-612 | a larger counter never shows a smaller percentage |
| LoadingProgress.PercentEnds | script.js:612 | 0 loaded shows 0 and all loaded shows 100 |
| LoadingProgress.FullOnlyWhenAllLoaded | script.js:612 | with fewer than 200 resources the percentage is 100 iff every resource was counted |
| LoadingProgress.Band | script.js:619-631 | the band index is the number of the boundaries 20, 40, 60, 80, 95 that the percentage has reached, so the six bands partition the integers |
| LoadingProgress.StatusText | script.js:618-632 | the loading text is the text of the percentage's band |
| LoadingProgress.BandMonotone | script.js:619-631 | a higher percentage never shows an earlier band |
| LoadingProgress.HalfwayExample | script.js:612-624 | 11 of 22 shows 50 and the text "Menu items laden..." |
| LoadingProgress.SplitBatches | script.js:662-667 | the batches joined in order give back the resource list; every batch has 1 to 5 resources, all but the last exactly 5, and there are ⌈n/5⌉ of them |
| LoadingProgress.CountLoaded | script.js:674-677 | the number of successful checks never exceeds the number of resources |
| LoadingProgress.AllCountedIff | script.js:674-677 | every resource is counted iff every check succeeded |
| LoadingProgress.LoadCriticalResources | script.js:657-691 | the final counter is the number of successful checks (at most the list length); the percentages shown are Percent(0), Percent(1), … Percent(counter), one per update, each at most 100 and never decreasing |
| LoadingProgress.CriticalResourcesFull | script.js:558-590 | for the site's 24 resources the counter-driven percentage reaches 100 iff no check failed |
| FormValidation.TrimStart | script.js:404 | the result is a suffix of the input, everything removed is white space, and it does not start with white space |
| FormValidation.TrimEnd | script.js:404 | the result is a prefix of the input, everything removed is white space, and it does not end with white space |
| FormValidation.Trim | script.js:404 | the trimmed value is a middle slice s[a..b] of the input with only white space outside it; it is empty iff the input is all white space, and otherwise starts and ends with a non-space |
| FormValidation.EmailShape | script.js:419-420 | a value matches the e-mail pattern iff it has no white space, exactly one '@' and not at the start, and a '.' after it that is neither the first nor the last character of the domain part |
| FormValidation.EmailPatternHasWords | script.js:419-420 | a value the e-mail pattern accepts has no white space, a single '@' after its first character, and a '.' inside the domain part |
| FormValidation.EmailWordsHavePattern | script.js:419-420 | conversely, such a value is accepted by the e-mail pattern |
| FormValidation.FieldRules | script.js:410-446 | a blank required field fails; a blank optional field passes; a non-blank e-mail passes iff it matches the pattern; a non-blank telephone passes iff it uses only digits, white space and - + ( ) and has at least 10 characters; a non-blank date that parses passes iff it is not before today, and one that does not parse passes |
| FormValidation.ValidateField | script.js:402-452 | the verdict is Passes and the message is empty for a pass, else the required message for a blank value or the message of the field's type |
| FormValidation.Report | script.js:473-485 | after validateForm a required field shows no message iff it passes, else the message of its type; an optional field is not visited and keeps the message it showed before |
| FormValidation.ValidateForm | script.js:473-485 | the form is valid iff every required field passes; every field is checked without stopping early, and afterwards each field shows its Report: failing required fields their message, passing ones none, optional ones what they showed before |
| FormValidation.VisitField | script.js:478-482 | one visit of validateForm: the verdict fails only for a required field that does not pass, and the field then shows its Report |
| FormValidation.TrimWithoutSpace | script.js:404 | a value without white space is its own trimmed value |
| FormValidation.AcceptedFormKeepsStaleMessage | script.js:473-485 | a form whose only field is an optional telephone field holding "0612" is accepted, although that value fails validateField, and the field keeps the message an earlier blur (script.js:386) put there |
| FormValidation.BlankRequiredRefused | script.js:473-485 | a form with a blank required field is refused and that field shows "Dit veld is verplicht." |
| Translation.Translate | script.js:511-516 | an element keeps its key; its text becomes the table's text when the language has a non-empty entry for the key, and otherwise the element is unchanged |
| Translation.TranslateAll | script.js:509-517 | every element is translated on its own, in order |
| Translation.UpdateLanguage | script.js:509-520 | the scanned elements change in place as TranslateAll says and the document language becomes the chosen one |
| Translation.UnknownLanguageKeepsTexts | script.js:513 | a language missing from the table changes no text |
| Translation.TranslateAllIdempotent | script.js:509-517 | choosing the same language twice equals choosing it once |
| Translation.SwitchFallsBack | script.js:509-517 | after switching languages an element shows the new text, else the previous language's text, else its original text |
| Translation.CompleteLanguageOverridesPrevious | script.js:509-517 | when the new language covers every key on the page, the previously chosen language leaves no trace |

## Left out

- DOM, styles and ARIA: element lookup, `style.transition`, injected CSS, the hamburger menu, gallery stories, scroll animations, smooth scrolling and the ripple effect are not modelled. Page and dot state are abstract flags.
- MenuBook.Book: the guard for a missing page element (script.js:921) is not modelled. Every page 1..N is assumed to be present, with page p at index p − 1.
- MenuBook.Book: the model takes the initial page classes as given. "Exactly one page active" is proved to persist from any state where it holds. Whether the markup starts that way is outside the script.
- Swipe.TouchSwipe: only the classification is modelled. The dispatch calls `prevPage()` and `nextPage()` (script.js:205, script.js:208). No function of those names is in scope there (`nextPage` is local to `initMenuBook`). In a browser the names resolve to the arrow buttons with those ids, so both calls throw a TypeError. That handler never reaches the menu book; the menu book's own swipe listener still runs.
- Swipe: touch coordinates are floating-point in the browser. The model uses integer displacements.
- LoadingProgress.Percent: it computes the exact rational rounding. It does not model the floating-point evaluation of `loaded / total * 100`. For the 24 resources the two agree, because every tie is an exact binary fraction.
- LoadingProgress.LoadCriticalResources: several things are not modelled:
  - timers: the 50 ms pause between batches, the 5 s per-image timeout, the 3 s minimum and the 8 s forced completion;
  - icon rotation;
  - `completeLoading`, which forces the bar to 100 %;
  - the real resource checks.
  Each check is an opaque boolean. The checks inside one batch run concurrently in the source and are taken in list order here. Each success adds exactly one, so the counter values shown do not depend on that order.
- LoadingProgress.LoadCriticalResources: it requires a non-empty list. The source calls it only with its fixed list of 24 resources.
- FormValidation: the date check compares day numbers. It does not model the instant built by `new Date(value)` or the local-midnight `today`. It does not model time zones.
- FormValidation: the model counts string length in Unicode characters, not UTF-16 code units. This matters only for values the telephone pattern already rejects.
- FormValidation.Report: each field has at most one message, its own. In the page, `clearError` removes the first `.field-error` under the field's parent element, so fields that share a parent can clear each other's messages. That sharing is not modelled.
- FormValidation: several form effects are not modelled:
  - clearing errors on input;
  - the error element and class;
  - the success notice;
  - `reset()` after a valid submission.
- Translation: the table is a parameter, not the site's four-language table.
- Translation: property lookups that JavaScript would resolve through the object prototype are not modelled.
- Translation: the `localStorage` preferences are not modelled.
