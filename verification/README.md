# Blind-auction home page: time-left label and view state

A Dafny model of the behavioural core of the blind-auction front end's home
page (`src/app/page.tsx`). The page has two small pieces of behaviour:

- **The time-left label** (`formatTimeLeft`). It takes the milliseconds
  between an auction's end and now. It answers `"Ended"` when none are left.
  Otherwise it splits the difference into whole days, hours and minutes and
  shows `"{d}d {h}h left"`, `"{h}h {m}m left"` or `"{m}m left"`.
- **The view state** of the `Home` component. It has four state hooks: the
  active tab, the selected auction (which shows the bid modal), the text of
  the bid field, and whether the wallet is connected. The click and change
  handlers set these hooks. The page also derives whether the submit and
  create buttons are disabled.

Modules:

- `Options` holds the `Option` datatype, which stands for a nullable value.
- `Decimal` models how a template literal prints a non-negative integer. It
  also holds a parser that is proved to be the inverse in both directions.
- `TimeLeft` builds the formatter in three steps:
  - `Decompose` does the floor divisions and remainders.
  - `Classify` picks the branch, described by what each shape shows.
  - `Render` fills in the template literals. `ParseTimeLeft` reads a label
    back, and the lemmas prove that every label reads back to the
    classification that produced it.
- `HomeView` models the page state:
  - an immutable `State` record and the `Action`s that have handlers;
  - `Step`, whose contract says that every action writes at most the one
    field it names;
  - `Available`, which says when each control is on screen and can be
    activated;
  - `Run` and `ValidTrace` for sequences of interactions, with an invariant
    that holds in every reachable state: an open modal always shows one of
    the listed auctions.

The clock and date parsing are not modelled. The caller computes
`new Date(endTime).getTime() - Date.now()`, and the model takes that
difference as an integer parameter.

## Model

| member | source | states |
|---|---|---|
| Decimal.NatToString | src/app/page.tsx:97-99 | an interpolated count prints as a non-empty string of decimal digits with no leading zero except for "0" itself |
| Decimal.ParseOfNatToString | src/app/page.tsx:97-99 | parsing an interpolated count gives back the same number |
| Decimal.NatToStringOfParse | src/app/page.tsx:97-99 | every digit string without a leading zero is the printed form of the number it denotes, so the printing is a bijection onto such strings |
| Decimal.NatToStringInjective | src/app/page.tsx:97-99 | different counts print differently |
| TimeLeft.Decompose | src/app/page.tsx:93-95 | for any positive difference, hours are below 24, minutes below 60, and days·86400000 + hours·3600000 + minutes·60000 ≤ diff < that + 60000 |
| TimeLeft.DecomposeUnique | src/app/page.tsx:93-95 | the split of the three floor divisions is the only normal split that truncates the difference to whole minutes |
| TimeLeft.Classify | src/app/page.tsx:91-99 | "Ended" exactly when diff ≤ 0, days-and-hours exactly when at least a day is left, hours-and-minutes exactly between an hour and a day, minutes only below an hour; each shape's numbers are diff truncated to its finer unit, with hours below 24 and minutes below 60 |
| TimeLeft.Render | src/app/page.tsx:91-99 | the label is "Ended" for the ended shape and no other; every other label starts with a digit and ends in " left" |
| TimeLeft.ParseRefusesPadding | src/app/page.tsx:97-99 | the zero-padded label "07m left" is refused |
| TimeLeft.RenderOfParse | src/app/page.tsx:91-99 | any string that reads back as a shape is exactly that shape's label, so reading back fixes every character, digits included |
| TimeLeft.FormatOfParse | src/app/page.tsx:86-100 | a string that reads back as the classification of diff is the formatter's label for diff, so that read-back alone determines the label |
| TimeLeft.ParseOfRender | src/app/page.tsx:97-99 | each of the four label shapes reads back as the shape and the numbers it was printed from |
| TimeLeft.RenderInjective | src/app/page.tsx:97-99 | no two different shapes or numbers print the same label |
| TimeLeft.FormatTimeLeft | src/app/page.tsx:86-100 | the label is "Ended" if and only if diff ≤ 0, and otherwise reads back as the truncated split |
| TimeLeft.FormatDays | src/app/page.tsx:97 | with at least a day left, the label is "{days}d {hours}h left" and contains no minutes |
| TimeLeft.FormatHours | src/app/page.tsx:98 | with an hour to a day left, the label is "{hours}h {minutes}m left" and contains no days |
| TimeLeft.FormatMinutes | src/app/page.tsx:91-99 | with under an hour left, the label is "{minutes}m left"; under a minute it is "0m left", never "Ended" |
| TimeLeft.FormatNinetyMinutes | src/app/page.tsx:93-98 | 90 minutes ahead reads "1h 30m left" |
| HomeView.Step | src/app/page.tsx:81-84 | each handler writes at most one of the four hooks and leaves the other three unchanged; a tab click sets the tab, a card click selects that card, either close path closes the modal, typing sets the bid text, the header button flips the wallet and the My Bids button connects it |
| HomeView.Available | src/app/page.tsx:244-531 | tab and header wallet buttons can always be activated, from the keyboard even under the modal's overlay; a card opens only a listed auction and only while no modal is shown; the modal's controls work only while it is shown; the My Bids connect button exists exactly on that tab while create is disabled |
| HomeView.OpenCardFromBrowse | src/app/page.tsx:244-254 | a card opens only from the browse tab with no modal shown, and the modal then shows that listed auction |
| HomeView.ModalOutlivesTabSwitch | src/app/page.tsx:224-226 | opening a card and then pressing a tab button is a possible sequence; the tab changes and the modal stays open |
| HomeView.StepConsistent | src/app/page.tsx:246-254 | an available interaction keeps the invariant that an open modal shows one of the listed auctions |
| HomeView.RunConsistent | src/app/page.tsx:246-254 | any sequence of available interactions keeps that invariant |
| HomeView.ReachableConsistent | src/app/page.tsx:81-84 | every state reachable from the initial hook values satisfies that invariant |
| HomeView.TabSelectionsKeepRest | src/app/page.tsx:192-226 | any number of tab selections leaves the selected auction, the bid text and the wallet flag as they were, and the last selection wins |
| HomeView.CloseKeepsBid | src/app/page.tsx:531-546 | the backdrop and the close button have the same effect: the modal closes and the bid text is not reset |
| HomeView.PanelClickKeepsModal | src/app/page.tsx:539 | a click inside the modal panel changes nothing |
| HomeView.BidCarriesOver | src/app/page.tsx:546-570 | text typed for one auction is still in the bid field after closing it and opening another |
| HomeView.ToggleTwiceRestores | src/app/page.tsx:137 | pressing the header wallet button twice restores the state |
| HomeView.SubmitDisabled | src/app/page.tsx:596 | submit is disabled whenever create is, and with a wallet connected it is disabled exactly when the bid field is empty |
| HomeView.CreateDisabled | src/app/page.tsx:417 | create is disabled exactly when the header wallet button would connect a wallet |
| HomeView.SubmitEnabledAfterTyping | src/app/page.tsx:596 | after typing, submit is enabled exactly when a wallet is connected and the text is non-empty; submit enabled implies create enabled |
| HomeView.CreateEnabledAfterConnect | src/app/page.tsx:417-442 | the My Bids connect button enables the create button, and the header button flips it |
| HomeView.Badge | src/app/page.tsx:272 | the card badge reads "Live" exactly when the auction's status is active, and "Ended" when it is ended |
| HomeView.BadgeIgnoresClock | src/app/page.tsx:272-275 | an active auction whose end time has passed shows "Live" next to "Ended" |

## Left out

- Date parsing and the clock (`new Date(endTime).getTime()`, `Date.now()`) are foreign calls. Their difference is the integer parameter `diff`.
- TimeLeft.Decompose: `Math.floor` of a floating-point quotient is modelled as exact integer division. The two agree for every difference between two valid JavaScript dates. Floating point itself is not modelled.
- The NaN path for an unparsable end time, which prints "NaNm left", is a floating-point artefact and is not modelled.
- Decimal.NatToString prints every natural number as plain digits. JavaScript would switch to exponent notation at 10^21, but no difference of valid dates gets that large.
- The text carried by a TypeBid action is the value the browser reports for the number input. The browser's sanitising of number input, which leaves only "" or a valid number string, is not modelled, so any string is allowed.
- Auction amounts (`minBid`, `bidCount`) are JavaScript numbers. The model uses `real` and `int` and does no arithmetic on them.
- HomeView.Available: which controls can be activated is read from the markup, not derived from layout. The modal's fixed, full-screen, z-50 overlay stops pointer clicks on the cards. The header, hero and tab-bar buttons stay available under it because they can still be reached from the keyboard.
- The submit and create buttons have no click handlers, so they only appear as their disabled predicates. Bid submission, bid history storage, auction creation and chain fetches do not happen on this page.
- The create form's inputs are uncontrolled and hold no component state.
- Markup, styles, the colour table, the SVG icon components, the fixed "My Bids" cards, the mock auction values and `src/app/layout.tsx` are presentation only.
