# bookvile page logic in Dafny

This project models the logic core of the bookvile book-shop page
(`index.js`). Four of the script's modules are modelled:

- **FormsModule.** The phone formatter `formatPhoneNumber`, the `input` mask
  of telephone fields, `validatePhone` and `validateEmail`. These are in the
  modules `Phone` and `Email`.
- **ProductsModule.** The twelve-book catalog and `generateRatingStars` are
  in `Catalog`. The cart and the favorites are in `Store`: `toggleCart`,
  `addToCart`, `toggleFavorite`, `isFavorite`, the cart counter, and the
  `localStorage` copies that a reload reads back.
- **NotificationModule.** The queue behind `show`, `processQueue` and
  `closeNotification`. This is `Notifications`.
- **SliderModule.** `showSlide`, `changeSlide`, `goToSlide`, the end of the
  animation lock, `handleSwipe`, the keyboard keys and the autoplay tick.
  This is `Slider`.

The page state is a value. Every handler is a pure function from the old
state to the new one.

- Timers are events. These are the 500 ms animation lock, the 300 ms close
  animation, the auto-close and `mouseleave` timers, and the autoplay
  interval. They may arrive at any point in a sequence of events.
- `localStorage` is a pair of optional arrays, one per key.
- The DOM is not modelled. Only the values the logic computes are kept.

The JavaScript semantics that matter are written out:

- `\d` is the ASCII digits.
- `\s` is the ECMAScript white-space set.
- `substring` clamps its arguments and swaps them when they are reversed.
- `findIndex` and `indexOf` return the first match or -1.
- `splice(i, 1)` removes one element.
- `reduce` is a left fold.

Modules:

- `Wrappers`: `Option`.
- `Seqs`: keyed search and removal on sequences.
- `Phone`, `Email`: the form logic.
- `Catalog`, `Store`: the products module.
- `Notifications`, `Slider`: the other two modules.

## Model

| member | source | states |
|---|---|---|
| Phone.Digits | index.js:1135 | the digit filter keeps only digits and never lengthens the text |
| Phone.FormatPhoneNumber | index.js:1139-1163 | the result is empty exactly when the input has no digit; otherwise it starts with "+7" |
| Phone.LayoutIsRender | index.js:1139-1163 | the group-by-group construction equals an independent digit-by-digit rendering of the mask `+7 (XXX) XXX-XX-XX` over the kept digits |
| Phone.FormatMatchesRender | index.js:1139-1163 | for any input with a digit, the formatted text is the reference rendering of digits 2 to 11 |
| Phone.FormatKeepsDigits | index.js:1139-1163 | the digits of the output are "7" followed by input digits 2 to 11: the first digit is replaced and anything past the eleventh is lost |
| Phone.FormatDependsOnlyOnKept | index.js:1139-1163 | two inputs with the same digits 2 to 11 format identically, whatever their first digit and their other characters |
| Phone.FormatIdempotent | index.js:1139-1163 | formatting already formatted text changes nothing |
| Phone.FormatMonotone | index.js:1139-1163 | appending digits to `formatPhoneNumber`'s input only extends its output; on the page this carries over to typing only with the corrected mask (`Phone.MaskKeepingCodeTyping`), not with the mask as written (`Phone.MaskRetypeExample`) |
| Phone.FormatTenDigitsExample | index.js:1139-1163 | ten digits given to the formatter directly lose their first digit: "9991234567" becomes "+7 (991) 234-56-7" |
| Phone.ValidatePhone | index.js:1134-1137 | `validatePhone` accepts at least eleven digits anywhere in the text; an accepted text has at least eleven characters, and a text of digits only is accepted exactly when it has at least eleven |
| Phone.ValidatePhoneIgnoresOthers | index.js:1134-1137 | inserting a non-digit never changes `validatePhone`'s verdict; inserting a digit never turns acceptance into rejection |
| Phone.ValidateFormatted | index.js:1134-1163 | a formatted number passes `validatePhone` exactly when the raw input held at least eleven digits |
| Phone.MaskInput | index.js:1105-1111 | the mask empties the field exactly when it holds no digit |
| Phone.MaskKeepsDigits | index.js:1105-1111 | the masked field holds "7" and then the first ten digits of the value the input event saw |
| Phone.ValidateMasked | index.js:1105-1111 | a masked field passes `validatePhone` exactly when it held at least ten digits |
| Phone.MaskExamples | index.js:1105-1111 | a field whose value becomes "9991234567" in one input event (a paste) shows "+7 (999) 123-45-67"; an empty or blank field stays empty |
| Phone.MaskRepeatsCountryCode | index.js:1105-1111 | masking the mask's own output puts a second "7" in front of the digits |
| Phone.MaskRetypeExample | index.js:1105-1111 | typing "9" then "9" leaves "+7 (799" in the field |
| Phone.MaskInputKeepingCode | index.js:1105-1111 | the corrected mask empties the field exactly when it holds no digit |
| Phone.MaskKeepingCodeIdempotent | index.js:1105-1111 | the corrected mask is stable on its own output |
| Phone.MaskKeepingCodeTyping | index.js:1105-1111 | with the corrected mask, a typed digit is appended to the number until ten digits follow the "7" |
| Phone.MaskKeepingCodeRetypeExample | index.js:1105-1111 | with the corrected mask, typing "9" then "9" gives "+7 (99" |
| Email.ValidateEmail | index.js:1129-1132 | `validateEmail` is the pattern `^[^\s@]+@[^\s@]+\.[^\s@]+$`, with the dot it matches chosen among the domain's dots; an accepted text has at least five characters and neither starts nor ends with "@" |
| Email.ValidateEmailIsWellShaped | index.js:1129-1132 | the pattern accepts exactly the texts with no white space, exactly one "@" that is not first, and a "." in the domain that is neither its first nor its last character |
| Email.NoAtRejected | index.js:1129-1132 | a text without "@" is rejected |
| Email.EmailExamples | index.js:1129-1132 | "a@b.co" is accepted and "not-an-email" is rejected |
| Catalog.AllProducts | index.js:986-992 | twelve products with ids 1 to 12, in group order popular, discounts, recommended |
| Catalog.FindIn | index.js:856 | `find` returns the first product in the list with the id, and fails exactly when no product has that id |
| Catalog.Find | index.js:856 | the catalog lookup succeeds exactly on ids 1 to 12 and returns the product at position id - 1 |
| Catalog.RatingStars | index.js:819-839 | `generateRatingStars` emits at least five stars, exactly five for a rating up to 5, and a full star at every position below the rating's whole part |
| Catalog.RatingStarsShape | index.js:819-839 | a rating up to 5 shows five stars: full ones, then at most one half, then empty ones; the stars shown are the rating rounded down to a half star |
| Catalog.StarCounts | index.js:819-839 | the number of full stars is the whole part of the rating; there is one half star exactly when the fraction is at least one half |
| Catalog.CatalogStarsExample | index.js:819-839 | the first book, rated 4.8, shows four full stars and a half star |
| Store.Load | index.js:743-744 | start-up reads each key: a stored array is taken as it is and a missing key gives `[]` |
| Store.IsFavorite | index.js:964-966 | `isFavorite` (`includes`) agrees with the `indexOf` search `toggleFavorite` uses |
| Store.CartCount | index.js:977-983 | the counter sums the quantities; it is never negative for non-negative quantities, and equals the number of entries when every quantity is 1, as every pushed entry has |
| Store.ToggleCart | index.js:855-900 | an unknown id changes nothing; a new id is appended with quantity 1; a present id is removed; every change is written to the `cart` key; favorites are untouched |
| Store.ToggleCartFlips | index.js:855-900 | on a catalog id, membership flips and the ids stay unique |
| Store.ToggleCartRemovesFirst | index.js:859-863 | removing splices out the first entry with the id and nothing else |
| Store.ToggleCartKeepsOthers | index.js:855-900 | every other entry stays in place and in order |
| Store.ToggleCartCount | index.js:977-983 | the counter rises by 1 on an add and falls by the removed entry's quantity on a removal |
| Store.ToggleCartTwiceFromAbsent | index.js:855-900 | adding and then removing restores the cart exactly |
| Store.ToggleCartTwiceFromPresent | index.js:855-900 | removing and then re-adding moves the item to the end with quantity 1 |
| Store.ToggleCartPersists | index.js:892 | after a toggle, a reload gives back the cart in memory |
| Store.AddToCart | index.js:1021-1026 | `addToCart` is `toggleCart`, so it takes out an item that is already in the cart |
| Store.ToggleFavorite | index.js:923-962 | a new id is appended; the outcome is "added" exactly for a new catalog id and "faulted" exactly for an unknown id; only a catalog id reaches the `favorites` write |
| Store.ToggleFavoriteFlips | index.js:923-962 | on a catalog id, favorite membership flips, the ids stay unique, and the stored copy is the array in memory |
| Store.ToggleFavoriteRemovesFirst | index.js:924-942 | un-favoriting splices out the first occurrence of the id |
| Store.ToggleFavoriteKeepsOthers | index.js:923-962 | every other favorite stays in place and in order |
| Store.ToggleFavoriteTwiceFromAbsent | index.js:923-962 | favoriting and then un-favoriting restores the array exactly |
| Store.FavoriteSurvivesReload | index.js:743-744 | favoriting a catalog book and reloading shows it as a favorite |
| Store.ToggleFavoriteUnknownDiverges | index.js:923-930 | for an unknown id the array in memory gains the id but its stored copy does not |
| Store.ToggleFavoriteUnknownExample | index.js:923-930 | toggling id 13 on an empty store leaves [13] in memory and nothing stored |
| Store.ToggleFavoriteGuarded | index.js:923-962 | the guarded toggle ignores unknown ids, behaves as `toggleFavorite` otherwise, and keeps storage in step with memory |
| Store.Apply | index.js:843-909 | one cart click, favorite click, `addToCart` call (index.js:1021-1026) or reload; a cart action leaves the favorites alone, a favorite click leaves the cart alone, and reloading a store whose storage is in step with memory changes nothing |
| Store.SessionConsistent | index.js:743-1026 | from stored arrays without repeated ids, any sequence of cart clicks, favorite clicks on the buttons the product cards render (which carry catalog ids, index.js:790-792), `addToCart` calls and reloads keeps the ids unique and storage in step with memory; favorite clicks run the unguarded `toggleFavorite` |
| Store.UnknownFavoriteBreaksSession | index.js:903-909 | a single favorite click carrying id 13 already breaks that consistency, so the lemma's requirement on the buttons' ids is needed |
| Store.LoadConsistent | index.js:743-744 | loading stored arrays without repeated ids gives a consistent store |
| Notifications.ProcessQueue | index.js:1203-1212 | the head of the queue is displayed and removed, or the module goes idle on an empty queue |
| Notifications.Show | index.js:1195-1201 | the note is enqueued, and displayed at once when nothing is showing |
| Notifications.Close | index.js:1298-1306 | the end of any close displays the next waiting note, whichever widget was closed, and clears `isShowing` exactly when nothing waits, even when the widget closed is an earlier one and a later one is still on screen |
| Notifications.CloseOwn | index.js:1298-1306 | the corrected close advances only for the widget on screen and ignores any other |
| Notifications.Run | index.js:1195-1306 | a run of shows and closes builds exactly one widget per note it displays |
| Notifications.RunConserves | index.js:1195-1212 | over any run of shows and closes, the notes displayed followed by the notes waiting are the notes given, in order: none is lost, duplicated or reordered |
| Notifications.RunKeepsInv | index.js:1195-1212 | nothing waits while nothing is shown, after every event |
| Notifications.DisplayedIsPrefix | index.js:1195-1212 | from page load, the displayed notes are a prefix of the notes given to `show` |
| Notifications.ClosingEachDrains | index.js:1203-1212 | closing each displayed widget once displays every waiting note in order and empties the queue |
| Notifications.OwnCloseOnlyReplacesCurrent | index.js:1298-1306 | under the corrected close, a displayed note gives way only to the close of its own widget |
| Notifications.StaleCloseExample | index.js:1277-1306 | a close of the first widget followed by a second close of the same widget (its auto-close timer after a keyboard close, or a `mouseleave` timer) replaces a second note nobody closed; the corrected close keeps it on screen |
| Slider.ShowSlide | index.js:140-173 | the step is ignored while animating or without slides; otherwise the slide becomes current and the lock is taken |
| Slider.ChangeSlide | index.js:175-187 | any direction keeps the index on an existing slide, and the step is ignored while animating |
| Slider.ChangeSlideIsModular | index.js:175-187 | one step forward or back is a step modulo the number of slides |
| Slider.GoToSlide | index.js:189-193 | only an existing slide is shown, and not while animating |
| Slider.AnimationEnd | index.js:170-172 | the end of the animation releases the lock and keeps the slide |
| Slider.Swipe | index.js:94-105 | a travel of more than 50 px to the left moves forward and one to the right moves back; shorter travels do nothing |
| Slider.Init | index.js:18-29 | start-up shows slide 0 and takes the lock exactly when there are slides |
| Slider.Step | index.js:32-139 | the wiring of arrows, dots, keys, swipes, the autoplay tick (index.js:196-203) and the animation end: the slide count never changes, the animation end releases the lock in place, and any other input either changes nothing or moves while taking the lock |
| Slider.StepKeepsValid | index.js:32-203 | every arrow, dot, key, swipe, autoplay tick and animation end keeps the index on an existing slide |
| Slider.AnimatingIgnoresInput | index.js:140-193 | while a slide animates, every input but the end of the animation is ignored |
| Slider.ForwardThenBack | index.js:175-187 | one step forward and one step back return to the same slide |
| Slider.AdvanceMovesBy | index.js:196-203 | k autoplay steps advance the index by k modulo the number of slides |
| Slider.FullCycle | index.js:196-203 | as many autoplay steps as there are slides come back to the starting slide |

## Left out

- DOM work, icons, ARIA attributes, CSS classes and styles, button pulses and the markup of notifications are not modelled. Only the state the logic keeps is.
- Timers are not modelled as clocks. Each timer's callback is an event that may arrive at any point, so durations, and `mouseenter` clearing the auto-close timer, only limit which runs can happen.
- `localStorage` failures are not modelled. A stored value that is not valid JSON makes `JSON.parse` throw at start-up. A value that parses to a falsy value (`null`, `0`, `false`, `""`) falls back to `[]` through `|| []`, exactly like a missing key, and the model reads it as a missing key. A value that parses to a truthy non-array (an object, a non-zero number, a non-empty string) is kept and breaks the later array calls; the model's storage holds only arrays or nothing, so that case is not modelled.
- `show`'s default arguments (type `success`, 3000 ms) are not modelled as such: every note in the model carries its kind and duration explicitly.
- Titles, prices, images, `addedAt` timestamps and notification texts are not modelled. None of them affects control flow. `toggleFavorite`'s read of `product.title` is modelled only as the fault it raises for an unknown id.
- Ids come from `parseInt` on data attributes. The model takes integer ids, so `NaN` ids are not modelled. In `toggleCart` a `NaN` id finds no product and changes nothing, like an unknown id. In `toggleFavorite` it does not behave like an unknown integer id: `favorites.indexOf(NaN)` is always -1 (index.js:924), so every click pushes another `NaN` (index.js:929) and none splices it, before `product.title` throws.
- Catalog.Known: this is the numeric range 1 to 12. `Catalog.Find` proves that range is exactly the set of ids the lookup succeeds on.
- Catalog.RatingStars: ratings are integer tenths of a star. This is exact for the catalog's ratings 4.6 to 4.9, because each floating `rating % 1` lands on the same side of 0.5 as its tenths. Other fractional ratings are not modelled.
- The form submit handlers are not modelled. Both `trim` the text. The consultation form then rejects an empty name or phone (index.js:1078) before calling `validatePhone`; the newsletter form calls `validateEmail` on the trimmed text directly (index.js:1048-1050). Only the validators are modelled.
- The `keydown` key filter of telephone fields is not modelled. It only decides whether a key press reaches the field, and the mask already accepts any text.
- Slider pause on hover and touch is not modelled. It stops and restarts the autoplay interval, which only changes when `AutoplayTick` events may occur.
- The header, search, scroll, animation, analytics, performance and window error-handler modules are not modelled. They lie outside the four modules modelled here.
- Store.ToggleCartTwiceFromPresent: toggling a cart item twice does not restore the store. The item comes back at the end with quantity 1. The model follows the code.
- Store.ToggleCart: the calls to `showNotification` (index.js:864, 885) are not fed to the `Notifications` queue. `Notifications.Run` accepts any sequence of show events, so its lemmas cover these notes too.
- Store.ToggleFavorite: the calls to `showNotification` (index.js:930, 943) are not fed to the `Notifications` queue, and neither is the note the window `error` handler (index.js:1615-1618) queues when the unknown-id fault reaches it. `Notifications.Run` accepts any sequence of show events, so its lemmas cover these notes too.
- Store.ToggleFavorite: for an id outside the catalog, the code does not leave the favorites unchanged. It modifies the array in memory and then throws before the write. The model follows the code. `Store.ToggleFavoriteGuarded` is the no-op behaviour.
- Phone.FormatTenDigitsExample: `formatPhoneNumber` alone on "9991234567" does not give "+7 (999) 123-45-67". That result holds only when the ten digits reach the input mask in one input event, such as a paste; the mask first puts "+7" in front (`Phone.MaskExamples`). Typed one key at a time they do not give it (`Phone.MaskRetypeExample`).

## Findings

| source | as written | input that shows it | evidently intended | confidence | as-written member | corrected member |
|---|---|---|---|---|---|---|
| index.js:1105-1111 | the mask puts "+7" in front of the digits of the field's current value, which already starts with "+7" | typing "9" and then "9" into an empty field leaves "+7 (799" | typing a digit appends that digit to the number | not executed | Phone.MaskRetypeExample | Phone.MaskKeepingCodeTyping |
| index.js:923-930 | `toggleFavorite` changes the array before looking the product up; for an unknown id `product.title` throws before the write | a favorite button whose `data-product-id` is 13, clicked on an empty store, leaves [13] in memory and nothing in `favorites`; the buttons the script renders carry catalog ids (index.js:790-792), so such a button has to come from other markup or a later change to the catalog | an unknown id is ignored, as in `toggleCart` | not executed | Store.ToggleFavoriteUnknownDiverges | Store.ToggleFavoriteGuarded |
| index.js:1277-1306 | every close of a widget runs `processQueue`: the close button, the auto-close timer that the click does not cancel, and each `mouseleave` timer | show a, b, c; close a from the keyboard (a mouse click first fires `mouseenter`, which clears the auto-close timer, index.js:1287-1289); a's auto-close timer fires later and replaces b, which nobody closed, with c. With a mouse, hovering out and back in before clicking close does the same, because the `mouseleave` timer is never cancelled (index.js:1291-1295) | only the close of the widget on screen advances the queue | not executed | Notifications.StaleCloseExample | Notifications.CloseOwn |
