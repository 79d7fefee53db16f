/**
 * The view state of the auction home page: the four state hooks of the
 * page component as one immutable record, and every handler that sets
 * them as one pure step function.
 */
module HomeView {
  import opened Options
  import TimeLeft

  datatype Tab = Browse | Create | MyBids

  datatype Status = Active | Ended

  /** An auction as the page receives it; amounts are JavaScript numbers, here reals. */
  datatype Auction = Auction(
    id: string,
    title: string,
    description: string,
    endTime: string,
    bidCount: int,
    status: Status,
    minBid: real)

  datatype State = State(
    activeTab: Tab,
    selectedAuction: Option<Auction>,
    bidAmount: string,
    walletConnected: bool)

  /** The hooks' initial values. */
  const Initial: State := State(Browse, None, "", false)

  /** The user interactions that have a handler on the page. */
  datatype Action =
    | SelectTab(tab: Tab)        // hero buttons and the tab bar
    | OpenCard(auction: Auction) // clicking an auction card
    | CloseBackdrop              // clicking the dark overlay around the bid modal
    | CloseButton                // the close button in the modal's corner
    | ClickPanel                 // a click inside the modal panel, whose propagation is stopped
    | TypeBid(text: string)      // editing the bid amount field
    | ToggleWallet               // the header wallet button
    | ConnectFromMyBids          // the "Connect Wallet" button of the My Bids tab

  /** The four pieces of state; each action writes at most one of them. */
  datatype Field = TabField | SelectionField | BidField | WalletField

  function Writes(a: Action): Option<Field> {
    match a
    case SelectTab(_) => Some(TabField)
    case OpenCard(_) => Some(SelectionField)
    case CloseBackdrop => Some(SelectionField)
    case CloseButton => Some(SelectionField)
    case ClickPanel => None
    case TypeBid(_) => Some(BidField)
    case ToggleWallet => Some(WalletField)
    case ConnectFromMyBids => Some(WalletField)
  }

  /** `s` and `r` agree on every field other than `f` (on all of them when `f` is None). */
  predicate AgreeExcept(s: State, r: State, f: Option<Field>) {
    && (f != Some(TabField) ==> r.activeTab == s.activeTab)
    && (f != Some(SelectionField) ==> r.selectedAuction == s.selectedAuction)
    && (f != Some(BidField) ==> r.bidAmount == s.bidAmount)
    && (f != Some(WalletField) ==> r.walletConnected == s.walletConnected)
  }

  /** The modal is shown while an auction is selected. */
  predicate ModalOpen(s: State) {
    s.selectedAuction.Some?
  }

  /** The controls that exist only inside the bid modal. */
  predicate ModalControl(a: Action) {
    a.CloseBackdrop? || a.CloseButton? || a.ClickPanel? || a.TypeBid?
  }

  /**
   * Whether the control behind `a` is on screen and can be activated. Cards
   * exist only on the browse tab; they are plain elements that take pointer
   * clicks only, so the modal's full-screen overlay hides them. The modal's
   * controls exist only while it is shown. The My Bids connect button exists
   * only on that tab without a wallet. The header, hero and tab-bar buttons
   * are always rendered, and as buttons they stay reachable from the
   * keyboard even beneath the overlay.
   */
  predicate Available(listings: seq<Auction>, s: State, a: Action): (avail: bool)
    ensures a.SelectTab? || a.ToggleWallet? ==> avail
    ensures avail && a.OpenCard? ==> !ModalOpen(s) && a.auction in listings
    ensures avail && ModalControl(a) ==> ModalOpen(s)
    ensures a.ConnectFromMyBids? ==> (avail <==> CreateDisabled(s) && s.activeTab == MyBids)
  {
    match a
    case SelectTab(_) => true
    case OpenCard(x) => !ModalOpen(s) && s.activeTab == Browse && x in listings
    case CloseBackdrop => ModalOpen(s)
    case CloseButton => ModalOpen(s)
    case ClickPanel => ModalOpen(s)
    case TypeBid(_) => ModalOpen(s)
    case ToggleWallet => true
    case ConnectFromMyBids => s.activeTab == MyBids && !s.walletConnected
  }

  /** The handlers. Each writes only the field it names and leaves the other three alone. */
  function Step(s: State, a: Action): (r: State)
    ensures AgreeExcept(s, r, Writes(a))
    ensures a.SelectTab? ==> r.activeTab == a.tab
    ensures a.OpenCard? ==> r.selectedAuction == Some(a.auction)
    ensures a.CloseBackdrop? || a.CloseButton? ==> !ModalOpen(r)
    ensures a.TypeBid? ==> r.bidAmount == a.text
    ensures a.ToggleWallet? ==> r.walletConnected != s.walletConnected
    ensures a.ConnectFromMyBids? ==> r.walletConnected
  {
    match a
    case SelectTab(t) => s.(activeTab := t)
    case OpenCard(x) => s.(selectedAuction := Some(x))
    case CloseBackdrop => s.(selectedAuction := None)
    case CloseButton => s.(selectedAuction := None)
    case ClickPanel => s
    case TypeBid(text) => s.(bidAmount := text)
    case ToggleWallet => s.(walletConnected := !s.walletConnected)
    case ConnectFromMyBids => s.(walletConnected := true)
  }

  /** The state after a sequence of interactions. */
  function Run(s: State, acts: seq<Action>): State
    decreases |acts|
  {
    if |acts| == 0 then s else Run(Step(s, acts[0]), acts[1..])
  }

  /** Every interaction of `acts` is available at the moment it happens. */
  predicate ValidTrace(listings: seq<Auction>, s: State, acts: seq<Action>)
    decreases |acts|
  {
    |acts| == 0 || (Available(listings, s, acts[0]) && ValidTrace(listings, Step(s, acts[0]), acts[1..]))
  }

  /** While the modal is shown, the auction it shows is one of the listed cards. */
  predicate Consistent(listings: seq<Auction>, s: State) {
    ModalOpen(s) ==> s.selectedAuction.value in listings
  }

  /** One available interaction keeps the state consistent. */
  lemma StepConsistent(listings: seq<Auction>, s: State, a: Action)
    requires Consistent(listings, s) && Available(listings, s, a)
    ensures Consistent(listings, Step(s, a))
  {
  }

  /** Every state the page can reach from its initial one is consistent. */
  lemma {:induction false} RunConsistent(listings: seq<Auction>, s: State, acts: seq<Action>)
    requires Consistent(listings, s) && ValidTrace(listings, s, acts)
    ensures Consistent(listings, Run(s, acts))
    decreases |acts|
  {
    if |acts| > 0 {
      StepConsistent(listings, s, acts[0]);
      RunConsistent(listings, Step(s, acts[0]), acts[1..]);
    }
  }

  lemma ReachableConsistent(listings: seq<Auction>, acts: seq<Action>)
    requires ValidTrace(listings, Initial, acts)
    ensures Consistent(listings, Run(Initial, acts))
  {
    RunConsistent(listings, Initial, acts);
  }

  /** A card opens only from the browse tab with no modal shown, and it shows that card. */
  lemma OpenCardFromBrowse(listings: seq<Auction>, s: State, x: Auction)
    requires Available(listings, s, OpenCard(x))
    ensures s.activeTab == Browse && !ModalOpen(s)
    ensures Step(s, OpenCard(x)).selectedAuction == Some(x) && Consistent(listings, Step(s, OpenCard(x)))
  {
  }

  /**
   * The modal is not tied to the browse tab: a tab button activated from the
   * keyboard beneath the overlay switches tabs and the modal stays shown.
   */
  lemma ModalOutlivesTabSwitch(listings: seq<Auction>, x: Auction, t: Tab)
    requires x in listings
    ensures ValidTrace(listings, Initial, [OpenCard(x), SelectTab(t)])
    ensures Run(Initial, [OpenCard(x), SelectTab(t)]) == State(t, Some(x), "", false)
  {
    var acts := [OpenCard(x), SelectTab(t)];
    var s1 := Step(Initial, OpenCard(x));
    assert acts[1..] == [SelectTab(t)];
    assert Run(Initial, acts) == Run(s1, [SelectTab(t)]);
    assert ValidTrace(listings, s1, [SelectTab(t)]);
  }

  /** Only `tab` of the whole state can differ after any number of tab selections. */
  lemma {:induction false} TabSelectionsKeepRest(s: State, acts: seq<Action>)
    requires forall i :: 0 <= i < |acts| ==> acts[i].SelectTab?
    ensures Run(s, acts).selectedAuction == s.selectedAuction
    ensures Run(s, acts).bidAmount == s.bidAmount
    ensures Run(s, acts).walletConnected == s.walletConnected
    ensures |acts| > 0 ==> Run(s, acts).activeTab == acts[|acts| - 1].tab
    decreases |acts|
  {
    if |acts| > 0 {
      var rest := acts[1..];
      assert forall i :: 0 <= i < |rest| ==> rest[i] == acts[i + 1];
      TabSelectionsKeepRest(Step(s, acts[0]), rest);
    }
  }

  /** Both ways of closing the modal do the same thing, and neither clears the typed bid. */
  lemma CloseKeepsBid(s: State)
    ensures Step(s, CloseBackdrop) == Step(s, CloseButton)
    ensures Step(s, CloseBackdrop).bidAmount == s.bidAmount
    ensures !ModalOpen(Step(s, CloseBackdrop))
  {
  }

  /** A click inside the modal panel does not reach the backdrop, so the modal stays. */
  lemma PanelClickKeepsModal(s: State)
    ensures Step(s, ClickPanel) == s
  {
  }

  /** A bid typed for one auction is still in the field when another auction is opened. */
  lemma BidCarriesOver(s: State, x: Auction, y: Auction, text: string)
    ensures Run(s, [OpenCard(x), TypeBid(text), CloseButton, OpenCard(y)]).bidAmount == text
    ensures Run(s, [OpenCard(x), TypeBid(text), CloseButton, OpenCard(y)]).selectedAuction == Some(y)
  {
    var acts := [OpenCard(x), TypeBid(text), CloseButton, OpenCard(y)];
    var s1 := Step(s, OpenCard(x));
    var s2 := Step(s1, TypeBid(text));
    var s3 := Step(s2, CloseButton);
    assert acts[1..] == [TypeBid(text), CloseButton, OpenCard(y)];
    assert Run(s, acts) == Run(s1, acts[1..]);
    assert Run(s1, acts[1..]) == Run(s2, [CloseButton, OpenCard(y)]);
    assert Run(s2, [CloseButton, OpenCard(y)]) == Run(s3, [OpenCard(y)]);
    assert Run(s3, [OpenCard(y)]) == Step(s3, OpenCard(y));
  }

  /** The header button is an involution on the state. */
  lemma ToggleTwiceRestores(s: State)
    ensures Step(Step(s, ToggleWallet), ToggleWallet) == s
  {
  }

  /** Disabled when no wallet is connected or the bid field is empty (an empty string is falsy). */
  predicate SubmitDisabled(s: State): (disabled: bool)
    ensures CreateDisabled(s) ==> disabled
    ensures s.walletConnected ==> (disabled <==> |s.bidAmount| == 0)
  {
    !s.walletConnected || s.bidAmount == ""
  }

  /** Disabled when no wallet is connected, which is exactly when the header button would connect one. */
  predicate CreateDisabled(s: State): (disabled: bool)
    ensures disabled <==> Step(s, ToggleWallet).walletConnected
  {
    !s.walletConnected
  }

  /** Typing decides the submit button exactly when a wallet is connected. */
  lemma SubmitEnabledAfterTyping(s: State, text: string)
    ensures !SubmitDisabled(Step(s, TypeBid(text))) <==> s.walletConnected && text != ""
    ensures !SubmitDisabled(s) ==> !CreateDisabled(s)
  {
  }

  /** Either wallet button decides the create button; the header one flips it. */
  lemma CreateEnabledAfterConnect(s: State)
    ensures !CreateDisabled(Step(s, ConnectFromMyBids))
    ensures !CreateDisabled(Step(s, ToggleWallet)) <==> CreateDisabled(s)
  {
  }

  /** The card badge, which reads the auction's status and not its end time. */
  function Badge(a: Auction): (text: string)
    ensures text == "Live" <==> a.status == Active
    ensures a.status == Ended ==> text == "Ended"
  {
    if a.status == Active then "Live" else "Ended"
  }

  /**
   * A card can say "Live" next to a time-left label of "Ended": the badge
   * ignores the clock.
   */
  lemma BadgeIgnoresClock(a: Auction, diff: int)
    requires a.status == Active && diff <= 0
    ensures Badge(a) == "Live" && TimeLeft.FormatTimeLeft(diff) == "Ended"
  {
  }
}
