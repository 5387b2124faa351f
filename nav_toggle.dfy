/** The interaction controller of nav-toggle.js: the mobile panel and its
    hamburger button, the nav dropdowns with their toggle buttons, and the
    two section accordions (desktop `.mn-dd-section`, mobile
    `.mmp-section-links`), driven by one delegated click handler and one
    keydown handler.

    The state the handlers change is described twice: as a value (NavView)
    with one pure function per handler, whose postconditions state what the
    handler promises, and as the page object NavPage whose methods change
    boolean arrays in place and are proved to match those functions. */
module NavToggle {
  import opened Options

  // ---------------------------------------------------------------------
  // The page as a value
  // ---------------------------------------------------------------------

  /** The markup the handlers navigate, which they never change: whether the
      panel and the hamburger button exist, and for each toggle button and
      each accordion label the element it opens (by index into its group). */
  datatype Layout = Layout(
    panelExists: bool,                  // #morgan-mobile-panel
    hamburgerExists: bool,              // #mn-hamburger-btn
    toggleDropdown: seq<Option<nat>>,   // per `.mn-more-btn`: the `.mn-dropdown` in its parent
    desktopNext: seq<Option<nat>>,      // per `.mn-dd-label[data-toggle]`: its next sibling, if a `.mn-dd-section`
    mobileNext: seq<Option<nat>>)       // per `.mmp-section[data-toggle]`: its next sibling, if a `.mmp-section-links`

  /** One accordion group: the `hidden` attribute of each section and the
      `open` class of each label. */
  datatype Accordion = Accordion(hidden: seq<bool>, labelOpen: seq<bool>)

  /** Everything the handlers change. */
  datatype NavView = NavView(
    panelHidden: bool,            // the panel's `hidden` attribute
    hamburgerExpanded: bool,      // the hamburger's aria-expanded
    dropdownOpen: seq<bool>,      // `open` class of each `#morgan-nav .mn-dropdown`
    toggleExpanded: seq<bool>,    // aria-expanded of each `#morgan-nav .mn-more-btn`
    desktop: Accordion,
    mobile: Accordion)

  predicate PointsInto(targets: seq<Option<nat>>, n: nat)
  {
    forall i :: 0 <= i < |targets| && targets[i].Some? ==> targets[i].value < n
  }

  predicate AccordionFits(a: Accordion, next: seq<Option<nat>>)
  {
    |a.labelOpen| == |next| && PointsInto(next, |a.hidden|)
  }

  /** The view has one flag per element of the layout. */
  predicate Fits(lay: Layout, v: NavView)
  {
    |v.toggleExpanded| == |lay.toggleDropdown| && PointsInto(lay.toggleDropdown, |v.dropdownOpen|) &&
    AccordionFits(v.desktop, lay.desktopNext) && AccordionFits(v.mobile, lay.mobileNext)
  }

  /** At most one position of `s` holds `on`. */
  predicate Exclusive(s: seq<bool>, on: bool)
  {
    forall i, j :: 0 <= i < |s| && 0 <= j < |s| && s[i] == on && s[j] == on ==> i == j
  }

  function Uniform(n: nat, b: bool): (r: seq<bool>)
    ensures |r| == n && forall i :: 0 <= i < n ==> r[i] == b
  {
    seq(n, _ => b)
  }

  /** The panel is showing: it exists and has no `hidden` attribute. */
  predicate PanelShown(lay: Layout, v: NavView)
  {
    lay.panelExists && !v.panelHidden
  }

  predicate AccordionConsistent(a: Accordion, next: seq<Option<nat>>)
  {
    AccordionFits(a, next) &&
    Exclusive(a.hidden, false) && Exclusive(a.labelOpen, true) &&
    forall l :: 0 <= l < |a.labelOpen| && a.labelOpen[l] ==> next[l].Some? && !a.hidden[next[l].value]
  }

  /** The states the handlers keep: at most one dropdown open, at most one
      toggle expanded and only over its open dropdown, in each accordion at
      most one section shown and at most one label open and only over its
      shown section, and the hamburger's aria-expanded telling whether the
      panel shows. */
  predicate Consistent(lay: Layout, v: NavView)
  {
    Fits(lay, v) &&
    Exclusive(v.dropdownOpen, true) && Exclusive(v.toggleExpanded, true) &&
    (forall b :: 0 <= b < |v.toggleExpanded| && v.toggleExpanded[b] ==>
       lay.toggleDropdown[b].Some? && v.dropdownOpen[lay.toggleDropdown[b].value]) &&
    AccordionConsistent(v.desktop, lay.desktopNext) &&
    AccordionConsistent(v.mobile, lay.mobileNext) &&
    (lay.panelExists && lay.hamburgerExists ==> v.hamburgerExpanded == !v.panelHidden)
  }

  // ---------------------------------------------------------------------
  // The primitives and handlers as functions
  // ---------------------------------------------------------------------

  /** `closePanel` (nav-toggle.js:25-35): hide the panel and reset the
      hamburger, each only if it exists. */
  function PanelClosed(lay: Layout, v: NavView): (r: NavView)
    ensures !PanelShown(lay, r)
    ensures lay.hamburgerExists ==> !r.hamburgerExpanded
    ensures !lay.panelExists ==> r.panelHidden == v.panelHidden
    ensures !lay.hamburgerExists ==> r.hamburgerExpanded == v.hamburgerExpanded
    ensures r.dropdownOpen == v.dropdownOpen && r.toggleExpanded == v.toggleExpanded
    ensures r.desktop == v.desktop && r.mobile == v.mobile
  {
    v.(panelHidden := if lay.panelExists then true else v.panelHidden,
       hamburgerExpanded := if lay.hamburgerExists then false else v.hamburgerExpanded)
  }

  /** `openPanel` (nav-toggle.js:37-47): show the panel and mark the
      hamburger expanded, each only if it exists. */
  function PanelOpened(lay: Layout, v: NavView): (r: NavView)
    ensures lay.panelExists ==> PanelShown(lay, r)
    ensures lay.hamburgerExists ==> r.hamburgerExpanded
    ensures !lay.panelExists ==> r.panelHidden == v.panelHidden
    ensures !lay.hamburgerExists ==> r.hamburgerExpanded == v.hamburgerExpanded
    ensures r.dropdownOpen == v.dropdownOpen && r.toggleExpanded == v.toggleExpanded
    ensures r.desktop == v.desktop && r.mobile == v.mobile
  {
    v.(panelHidden := if lay.panelExists then false else v.panelHidden,
       hamburgerExpanded := if lay.hamburgerExists then true else v.hamburgerExpanded)
  }

  /** `closeAllDropdowns` (nav-toggle.js:49-58): no dropdown open, no toggle
      expanded, nothing else touched. */
  function DropdownsClosed(v: NavView): (r: NavView)
    ensures |r.dropdownOpen| == |v.dropdownOpen| && forall i :: 0 <= i < |r.dropdownOpen| ==> !r.dropdownOpen[i]
    ensures |r.toggleExpanded| == |v.toggleExpanded| && forall j :: 0 <= j < |r.toggleExpanded| ==> !r.toggleExpanded[j]
    ensures r.panelHidden == v.panelHidden && r.hamburgerExpanded == v.hamburgerExpanded
    ensures r.desktop == v.desktop && r.mobile == v.mobile
  {
    v.(dropdownOpen := Uniform(|v.dropdownOpen|, false), toggleExpanded := Uniform(|v.toggleExpanded|, false))
  }

  /** A click on toggle button `b` (nav-toggle.js:90-104): if its parent holds
      a dropdown, close every dropdown and then reopen that one unless it
      was open; otherwise change nothing. */
  function DropdownToggled(lay: Layout, v: NavView, b: nat): (r: NavView)
    requires Fits(lay, v) && b < |lay.toggleDropdown|
    ensures Fits(lay, r)
    ensures |r.dropdownOpen| == |v.dropdownOpen| && |r.toggleExpanded| == |v.toggleExpanded|
    ensures lay.toggleDropdown[b].None? ==> r == v
    ensures lay.toggleDropdown[b].Some? ==>
      var d := lay.toggleDropdown[b].value;
      Exclusive(r.dropdownOpen, true) &&
      r.dropdownOpen[d] == !v.dropdownOpen[d] &&
      (forall i :: 0 <= i < |r.dropdownOpen| && i != d ==> !r.dropdownOpen[i]) &&
      (forall j :: 0 <= j < |r.toggleExpanded| ==> (r.toggleExpanded[j] <==> j == b && r.dropdownOpen[d]))
    ensures r.panelHidden == v.panelHidden && r.hamburgerExpanded == v.hamburgerExpanded
    ensures r.desktop == v.desktop && r.mobile == v.mobile
  {
    match lay.toggleDropdown[b]
    case None => v
    case Some(d) =>
      var closed := DropdownsClosed(v);
      if v.dropdownOpen[d] then closed
      else closed.(dropdownOpen := closed.dropdownOpen[d := true],
                   toggleExpanded := closed.toggleExpanded[b := true])
  }

  /** A click on label `l` of an accordion (nav-toggle.js:107-127 and 130-150):
      if the label's next sibling is a section of the group, hide every
      section and close every label, then reveal that section and open the
      label unless the section was showing; otherwise change nothing. */
  function SectionToggled(a: Accordion, next: seq<Option<nat>>, l: nat): (r: Accordion)
    requires AccordionFits(a, next) && l < |next|
    ensures AccordionFits(r, next)
    ensures |r.hidden| == |a.hidden| && |r.labelOpen| == |a.labelOpen|
    ensures next[l].None? ==> r == a
    ensures next[l].Some? ==>
      var s := next[l].value;
      Exclusive(r.hidden, false) && Exclusive(r.labelOpen, true) &&
      r.hidden[s] == !a.hidden[s] &&
      (forall k :: 0 <= k < |r.hidden| && k != s ==> r.hidden[k]) &&
      (forall m :: 0 <= m < |r.labelOpen| ==> (r.labelOpen[m] <==> m == l && !r.hidden[s]))
  {
    match next[l]
    case None => a
    case Some(s) =>
      Accordion(Uniform(|a.hidden|, true)[s := !a.hidden[s]], Uniform(|a.labelOpen|, false)[l := a.hidden[s]])
  }

  // ---------------------------------------------------------------------
  // Click classification
  // ---------------------------------------------------------------------

  /** What the click handler finds out about the click target: whether it is
      in the hamburger button, in a `.mmp-close-btn`, the toggle button and
      the accordion labels it is in (by index), and whether it is in the
      panel or in a dropdown. */
  datatype Target = Target(
    inHamburger: bool,
    inCloseButton: bool,
    toggle: Option<nat>,
    desktopLabel: Option<nat>,
    mobileLabel: Option<nat>,
    inPanel: bool,
    inDropdown: bool)

  /** The target lies in the markup: an element it is inside exists, and an
      index names a member of its group. */
  predicate TargetFits(lay: Layout, t: Target)
  {
    (t.inHamburger ==> lay.hamburgerExists) &&
    (t.inPanel ==> lay.panelExists) &&
    (t.toggle.Some? ==> t.toggle.value < |lay.toggleDropdown|) &&
    (t.desktopLabel.Some? ==> t.desktopLabel.value < |lay.desktopNext|) &&
    (t.mobileLabel.Some? ==> t.mobileLabel.value < |lay.mobileNext|)
  }

  /** The eight cases of the click handler. */
  datatype ClickKind =
    | Hamburger
    | CloseButton
    | DropdownToggle(button: nat)
    | DesktopLabel(index: nat)
    | MobileLabel(index: nat)
    | InsidePanel
    | InsideDropdown
    | Elsewhere

  /** The position of a case in the handler's chain of tests. */
  function Rank(k: ClickKind): nat
  {
    match k
    case Hamburger => 1
    case CloseButton => 2
    case DropdownToggle(_) => 3
    case DesktopLabel(_) => 4
    case MobileLabel(_) => 5
    case InsidePanel => 6
    case InsideDropdown => 7
    case Elsewhere => 8
  }

  /** The test of case `k` succeeds on target `t`. */
  predicate Matches(t: Target, k: ClickKind)
  {
    match k
    case Hamburger => t.inHamburger
    case CloseButton => t.inCloseButton
    case DropdownToggle(b) => t.toggle == Some(b)
    case DesktopLabel(l) => t.desktopLabel == Some(l)
    case MobileLabel(l) => t.mobileLabel == Some(l)
    case InsidePanel => t.inPanel
    case InsideDropdown => t.inDropdown
    case Elsewhere => true
  }

  /** The case the click handler takes (nav-toggle.js:69-164): the first, in
      the order of Rank, whose test succeeds. */
  function Classify(t: Target): (k: ClickKind)
    ensures Matches(t, k)
    ensures forall k' :: Rank(k') < Rank(k) ==> !Matches(t, k')
  {
    if t.inHamburger then Hamburger
    else if t.inCloseButton then CloseButton
    else if t.toggle.Some? then DropdownToggle(t.toggle.value)
    else if t.desktopLabel.Some? then DesktopLabel(t.desktopLabel.value)
    else if t.mobileLabel.Some? then MobileLabel(t.mobileLabel.value)
    else if t.inPanel then InsidePanel
    else if t.inDropdown then InsideDropdown
    else Elsewhere
  }

  /** The close button sits inside the panel, and its case comes first:
      clicking it closes the panel instead of being ignored as a click in it. */
  lemma CloseButtonBeatsPanel(lay: Layout, v: NavView, t: Target)
    requires Fits(lay, v) && TargetFits(lay, t)
    requires t.inCloseButton && t.inPanel && !t.inHamburger
    ensures Classify(t) == CloseButton
    ensures !PanelShown(lay, AfterClick(lay, v, t))
  {
    assert Matches(t, CloseButton);
  }

  // ---------------------------------------------------------------------
  // The two handlers
  // ---------------------------------------------------------------------

  /** The state after the click handler (nav-toggle.js:60-165) has run on a
      click at `t`. */
  function AfterClick(lay: Layout, v: NavView, t: Target): (r: NavView)
    requires Fits(lay, v) && TargetFits(lay, t)
    ensures Fits(lay, r)
    // no click adds or removes a member of any group
    ensures |r.dropdownOpen| == |v.dropdownOpen| && |r.toggleExpanded| == |v.toggleExpanded|
    ensures |r.desktop.hidden| == |v.desktop.hidden| && |r.desktop.labelOpen| == |v.desktop.labelOpen|
    ensures |r.mobile.hidden| == |v.mobile.hidden| && |r.mobile.labelOpen| == |v.mobile.labelOpen|
    // hamburger: open a hidden panel, otherwise close it; nothing else changes
    ensures Classify(t) == Hamburger ==>
      r.dropdownOpen == v.dropdownOpen && r.toggleExpanded == v.toggleExpanded &&
      r.desktop == v.desktop && r.mobile == v.mobile &&
      if lay.panelExists && v.panelHidden then PanelShown(lay, r) && r.hamburgerExpanded
      else !PanelShown(lay, r) && !r.hamburgerExpanded
    // close button: close the panel; nothing else changes
    ensures Classify(t) == CloseButton ==> r == PanelClosed(lay, v)
    // a toggle, a label: only its own group changes, and it is left with at
    // most one member open if the toggle or label had one to open
    ensures Classify(t).DropdownToggle? ==>
      r == DropdownToggled(lay, v, Classify(t).button) &&
      r.panelHidden == v.panelHidden && r.hamburgerExpanded == v.hamburgerExpanded &&
      r.desktop == v.desktop && r.mobile == v.mobile &&
      (lay.toggleDropdown[Classify(t).button].Some? ==> Exclusive(r.dropdownOpen, true))
    ensures Classify(t).DesktopLabel? ==>
      r == v.(desktop := SectionToggled(v.desktop, lay.desktopNext, Classify(t).index)) &&
      (lay.desktopNext[Classify(t).index].Some? ==> Exclusive(r.desktop.hidden, false))
    ensures Classify(t).MobileLabel? ==>
      r == v.(mobile := SectionToggled(v.mobile, lay.mobileNext, Classify(t).index)) &&
      (lay.mobileNext[Classify(t).index].Some? ==> Exclusive(r.mobile.hidden, false))
    // inside the panel or a dropdown: nothing changes
    ensures Classify(t) in {InsidePanel, InsideDropdown} ==> r == v
    // elsewhere: close every dropdown and the panel; the accordions stay
    ensures Classify(t) == Elsewhere ==>
      (forall i :: 0 <= i < |r.dropdownOpen| ==> !r.dropdownOpen[i]) &&
      (forall j :: 0 <= j < |r.toggleExpanded| ==> !r.toggleExpanded[j]) &&
      !PanelShown(lay, r) && (lay.hamburgerExists ==> !r.hamburgerExpanded) &&
      (!PanelShown(lay, v) ==> r.panelHidden == v.panelHidden) &&
      r.desktop == v.desktop && r.mobile == v.mobile
  {
    match Classify(t)
    case Hamburger =>
      if lay.panelExists && v.panelHidden then PanelOpened(lay, v) else PanelClosed(lay, v)
    case CloseButton => PanelClosed(lay, v)
    case DropdownToggle(b) => DropdownToggled(lay, v, b)
    case DesktopLabel(l) => v.(desktop := SectionToggled(v.desktop, lay.desktopNext, l))
    case MobileLabel(l) => v.(mobile := SectionToggled(v.mobile, lay.mobileNext, l))
    case InsidePanel => v
    case InsideDropdown => v
    case Elsewhere => PanelClosed(lay, DropdownsClosed(v))
  }

  const Escape := "Escape"

  /** The state after the keydown handler (nav-toggle.js:168-182) has run on
      key `key`. */
  function AfterKey(lay: Layout, v: NavView, key: string): (r: NavView)
    requires Fits(lay, v)
    ensures Fits(lay, r)
    ensures Consistent(lay, v) ==> Consistent(lay, r)
    // any other key: nothing changes
    ensures key != Escape ==> r == v
    // Escape with the panel showing closes the panel and only the panel
    ensures key == Escape && PanelShown(lay, v) ==>
      r == PanelClosed(lay, v) &&
      !PanelShown(lay, r) && (lay.hamburgerExists ==> !r.hamburgerExpanded) && r.dropdownOpen == v.dropdownOpen &&
      r.toggleExpanded == v.toggleExpanded && r.desktop == v.desktop && r.mobile == v.mobile
    // otherwise Escape closes the dropdowns if one is open
    ensures key == Escape && !PanelShown(lay, v) && (exists i :: 0 <= i < |v.dropdownOpen| && v.dropdownOpen[i]) ==>
      r == DropdownsClosed(v)
    // and changes nothing if none is
    ensures key == Escape && !PanelShown(lay, v) && (forall i :: 0 <= i < |v.dropdownOpen| ==> !v.dropdownOpen[i]) ==>
      r == v
  {
    if key != Escape then v
    else if PanelShown(lay, v) then PanelClosed(lay, v)
    else if true in v.dropdownOpen then DropdownsClosed(v)
    else v
  }

  /** An accordion click leaves the group consistent. */
  lemma SectionToggledConsistent(a: Accordion, next: seq<Option<nat>>, l: nat)
    requires AccordionConsistent(a, next) && l < |next|
    ensures AccordionConsistent(SectionToggled(a, next, l), next)
  {
  }

  /** A toggle click leaves the dropdown group consistent. */
  lemma DropdownToggledConsistent(lay: Layout, v: NavView, b: nat)
    requires Consistent(lay, v) && b < |lay.toggleDropdown|
    ensures Consistent(lay, DropdownToggled(lay, v, b))
  {
  }

  /** Every click keeps the exclusivity and aria-expanded invariants. */
  lemma ClickKeepsConsistent(lay: Layout, v: NavView, t: Target)
    requires Consistent(lay, v) && TargetFits(lay, t)
    ensures Consistent(lay, AfterClick(lay, v, t))
  {
    match Classify(t)
    case DropdownToggle(b) => DropdownToggledConsistent(lay, v, b);
    case DesktopLabel(l) => SectionToggledConsistent(v.desktop, lay.desktopNext, l);
    case MobileLabel(l) => SectionToggledConsistent(v.mobile, lay.mobileNext, l);
    case _ =>
  }

  /** Opening dropdown A while dropdown B is open leaves exactly A open. */
  lemma SwitchDropdown(lay: Layout, v: NavView, t: Target, a: nat, b: nat)
    requires Fits(lay, v) && TargetFits(lay, t)
    requires Classify(t).DropdownToggle? && lay.toggleDropdown[Classify(t).button] == Some(a)
    requires b < |v.dropdownOpen| && a != b && v.dropdownOpen[b] && !v.dropdownOpen[a]
    ensures forall i :: 0 <= i < |v.dropdownOpen| ==> (AfterClick(lay, v, t).dropdownOpen[i] <==> i == a)
  {
    var btn := Classify(t).button;
    assert AfterClick(lay, v, t) == DropdownToggled(lay, v, btn);
  }

  /** Clicking the hamburger twice on a closed panel restores the state. */
  lemma HamburgerTwice(lay: Layout, v: NavView, t: Target)
    requires Consistent(lay, v) && TargetFits(lay, t)
    requires Classify(t) == Hamburger && lay.panelExists && v.panelHidden
    ensures AfterClick(lay, v, t).hamburgerExpanded && PanelShown(lay, AfterClick(lay, v, t))
    ensures AfterClick(lay, AfterClick(lay, v, t), t) == v
  {
  }

  /** Escape with the panel showing leaves an open dropdown open. */
  lemma EscapePanelFirst(lay: Layout, v: NavView, d: nat)
    requires Fits(lay, v) && PanelShown(lay, v) && d < |v.dropdownOpen| && v.dropdownOpen[d]
    ensures !PanelShown(lay, AfterKey(lay, v, Escape)) && AfterKey(lay, v, Escape).dropdownOpen[d]
  {
  }

  // ---------------------------------------------------------------------
  // The page object
  // ---------------------------------------------------------------------

  /** One accordion click in place: the loops of nav-toggle.js:114-123
      (desktop) and 137-146 (mobile). */
  method ToggleSection(hidden: array<bool>, labelOpen: array<bool>, next: seq<Option<nat>>, l: nat)
    requires hidden != labelOpen
    requires AccordionFits(Accordion(hidden[..], labelOpen[..]), next) && l < |next|
    modifies hidden, labelOpen
    ensures Accordion(hidden[..], labelOpen[..]) == SectionToggled(old(Accordion(hidden[..], labelOpen[..])), next, l)
  {
    match next[l] {
      case None =>
      case Some(s) =>
        var wasOpen := !hidden[s];
        for i := 0 to hidden.Length
          invariant forall k :: 0 <= k < i ==> hidden[k]
          invariant labelOpen[..] == old(labelOpen[..])
        {
          hidden[i] := true;
        }
        for j := 0 to labelOpen.Length
          invariant forall k :: 0 <= k < j ==> !labelOpen[k]
          invariant forall k :: 0 <= k < hidden.Length ==> hidden[k]
        {
          labelOpen[j] := false;
        }
        if !wasOpen {
          hidden[s] := false;
          labelOpen[l] := true;
        }
        assert hidden[..] == Uniform(hidden.Length, true)[s := wasOpen];
        assert labelOpen[..] == Uniform(labelOpen.Length, false)[l := !wasOpen];
    }
  }

  /** The page as nav-toggle.js sees it: the flags of its elements, which
      the handlers update in place, and the window-wide init guard with the
      listeners and close buttons it accounts for. */
  class NavPage {
    const layout: Layout
    const dropdownOpen: array<bool>
    const toggleExpanded: array<bool>
    const desktopHidden: array<bool>
    const desktopLabelOpen: array<bool>
    const mobileHidden: array<bool>
    const mobileLabelOpen: array<bool>
    var panelHidden: bool
    var hamburgerExpanded: bool
    var closeButtons: nat          // `.mmp-close-btn` elements in the panel
    var initialized: bool          // window.__navToggleInit
    var clickListeners: nat
    var keyListeners: nat

    ghost predicate Valid()
      reads this
    {
      dropdownOpen != toggleExpanded && dropdownOpen != desktopHidden && dropdownOpen != desktopLabelOpen &&
      dropdownOpen != mobileHidden && dropdownOpen != mobileLabelOpen &&
      toggleExpanded != desktopHidden && toggleExpanded != desktopLabelOpen &&
      toggleExpanded != mobileHidden && toggleExpanded != mobileLabelOpen &&
      desktopHidden != desktopLabelOpen && desktopHidden != mobileHidden && desktopHidden != mobileLabelOpen &&
      desktopLabelOpen != mobileHidden && desktopLabelOpen != mobileLabelOpen &&
      mobileHidden != mobileLabelOpen &&
      toggleExpanded.Length == |layout.toggleDropdown| && PointsInto(layout.toggleDropdown, dropdownOpen.Length) &&
      desktopLabelOpen.Length == |layout.desktopNext| && PointsInto(layout.desktopNext, desktopHidden.Length) &&
      mobileLabelOpen.Length == |layout.mobileNext| && PointsInto(layout.mobileNext, mobileHidden.Length) &&
      (!layout.panelExists ==> closeButtons == 0) &&
      clickListeners == keyListeners == (if initialized then 1 else 0)
    }

    /** The flags, as a value. */
    ghost function View(): (v: NavView)
      reads this, dropdownOpen, toggleExpanded, desktopHidden, desktopLabelOpen, mobileHidden, mobileLabelOpen
      ensures Valid() ==> Fits(layout, v)
    {
      NavView(panelHidden, hamburgerExpanded, dropdownOpen[..], toggleExpanded[..],
              Accordion(desktopHidden[..], desktopLabelOpen[..]),
              Accordion(mobileHidden[..], mobileLabelOpen[..]))
    }

    /** A page before nav-toggle.js has run. */
    constructor (layout: Layout, v: NavView, closeButtons: nat)
      requires Fits(layout, v) && (!layout.panelExists ==> closeButtons == 0)
      ensures Valid() && this.layout == layout && View() == v
      ensures fresh(dropdownOpen) && fresh(toggleExpanded) && fresh(desktopHidden)
      ensures fresh(desktopLabelOpen) && fresh(mobileHidden) && fresh(mobileLabelOpen)
      ensures this.closeButtons == closeButtons && !initialized
    {
      this.layout := layout;
      dropdownOpen := new bool[|v.dropdownOpen|](i requires 0 <= i < |v.dropdownOpen| => v.dropdownOpen[i]);
      toggleExpanded := new bool[|v.toggleExpanded|](i requires 0 <= i < |v.toggleExpanded| => v.toggleExpanded[i]);
      desktopHidden := new bool[|v.desktop.hidden|](i requires 0 <= i < |v.desktop.hidden| => v.desktop.hidden[i]);
      desktopLabelOpen := new bool[|v.desktop.labelOpen|](i requires 0 <= i < |v.desktop.labelOpen| => v.desktop.labelOpen[i]);
      mobileHidden := new bool[|v.mobile.hidden|](i requires 0 <= i < |v.mobile.hidden| => v.mobile.hidden[i]);
      mobileLabelOpen := new bool[|v.mobile.labelOpen|](i requires 0 <= i < |v.mobile.labelOpen| => v.mobile.labelOpen[i]);
      panelHidden := v.panelHidden;
      hamburgerExpanded := v.hamburgerExpanded;
      this.closeButtons := closeButtons;
      initialized := false;
      clickListeners := 0;
      keyListeners := 0;
      new;
      assert dropdownOpen[..] == v.dropdownOpen;
      assert toggleExpanded[..] == v.toggleExpanded;
      assert desktopHidden[..] == v.desktop.hidden;
      assert desktopLabelOpen[..] == v.desktop.labelOpen;
      assert mobileHidden[..] == v.mobile.hidden;
      assert mobileLabelOpen[..] == v.mobile.labelOpen;
    }

    /** The start of nav-toggle.js (lines 12-23): the first run sets the guard,
        adds a close button to a panel that has none and attaches the two
        listeners; a later run changes nothing. */
    method Init()
      requires Valid()
      modifies this`initialized, this`closeButtons, this`clickListeners, this`keyListeners
      ensures Valid() && initialized
      ensures clickListeners == 1 && keyListeners == 1
      ensures old(initialized) ==> unchanged(this)
      ensures !old(initialized) ==>
        closeButtons == if layout.panelExists && old(closeButtons) == 0 then 1 else old(closeButtons)
    {
      if initialized {
        return;
      }
      initialized := true;
      if layout.panelExists && closeButtons == 0 {
        closeButtons := 1;
      }
      clickListeners := clickListeners + 1;
      keyListeners := keyListeners + 1;
    }

    method ClosePanel()
      requires Valid()
      ensures Valid()
      modifies this`panelHidden, this`hamburgerExpanded
      ensures View() == PanelClosed(layout, old(View()))
    {
      if layout.panelExists {
        panelHidden := true;
      }
      if layout.hamburgerExists {
        hamburgerExpanded := false;
      }
    }

    method OpenPanel()
      requires Valid()
      ensures Valid()
      modifies this`panelHidden, this`hamburgerExpanded
      ensures View() == PanelOpened(layout, old(View()))
    {
      if layout.panelExists {
        panelHidden := false;
      }
      if layout.hamburgerExists {
        hamburgerExpanded := true;
      }
    }

    method CloseAllDropdowns()
      requires Valid()
      ensures Valid()
      modifies dropdownOpen, toggleExpanded
      ensures View() == DropdownsClosed(old(View()))
    {
      for i := 0 to dropdownOpen.Length
        invariant forall k :: 0 <= k < i ==> !dropdownOpen[k]
        invariant toggleExpanded[..] == old(toggleExpanded[..])
      {
        dropdownOpen[i] := false;
      }
      for j := 0 to toggleExpanded.Length
        invariant forall k :: 0 <= k < j ==> !toggleExpanded[k]
        invariant forall k :: 0 <= k < dropdownOpen.Length ==> !dropdownOpen[k]
      {
        toggleExpanded[j] := false;
      }
      assert dropdownOpen[..] == Uniform(dropdownOpen.Length, false);
      assert toggleExpanded[..] == Uniform(toggleExpanded.Length, false);
    }

    /** The click handler (nav-toggle.js:60-165), its tests in the source's
        order. */
    method Click(t: Target)
      requires Valid() && TargetFits(layout, t)
      ensures Valid()
      modifies this`panelHidden, this`hamburgerExpanded, dropdownOpen, toggleExpanded
      modifies desktopHidden, desktopLabelOpen, mobileHidden, mobileLabelOpen
      ensures View() == AfterClick(layout, old(View()), t)
    {
      if t.inHamburger {
        if layout.panelExists && panelHidden {
          OpenPanel();
        } else {
          ClosePanel();
        }
        return;
      }
      if t.inCloseButton {
        ClosePanel();
        return;
      }
      if t.toggle.Some? {
        var b := t.toggle.value;
        match layout.toggleDropdown[b] {
          case None =>
          case Some(d) =>
            var wasOpen := dropdownOpen[d];
            CloseAllDropdowns();
            if !wasOpen {
              dropdownOpen[d] := true;
              toggleExpanded[b] := true;
            }
        }
        return;
      }
      if t.desktopLabel.Some? {
        ToggleSection(desktopHidden, desktopLabelOpen, layout.desktopNext, t.desktopLabel.value);
        return;
      }
      if t.mobileLabel.Some? {
        ToggleSection(mobileHidden, mobileLabelOpen, layout.mobileNext, t.mobileLabel.value);
        return;
      }
      if t.inPanel {
        return;
      }
      if t.inDropdown {
        return;
      }
      CloseAllDropdowns();
      ClosePanel();
    }

    /** The keydown handler (nav-toggle.js:168-182). */
    method KeyDown(key: string)
      requires Valid()
      ensures Valid()
      modifies this`panelHidden, this`hamburgerExpanded, dropdownOpen, toggleExpanded
      ensures View() == AfterKey(layout, old(View()), key)
    {
      if key != Escape {
        return;
      }
      if layout.panelExists && !panelHidden {
        ClosePanel();
        return;
      }
      // querySelectorAll('#morgan-nav .mn-dropdown.open').length
      if true in dropdownOpen[..] {
        CloseAllDropdowns();
      }
    }
  }

  /** A fresh page with the panel hidden: a hamburger click shows the panel,
      and Escape then hides it again while an open dropdown stays open. */
  method HamburgerThenEscape(lay: Layout, v: NavView, t: Target, d: nat) returns (shownAfterClick: bool, shownAfterEscape: bool, dropdownStill: bool)
    requires Fits(lay, v) && TargetFits(lay, t) && t.inHamburger
    requires lay.panelExists && v.panelHidden && d < |v.dropdownOpen| && v.dropdownOpen[d]
    ensures shownAfterClick && !shownAfterEscape && dropdownStill
  {
    var page := new NavPage(lay, v, 0);
    page.Click(t);
    shownAfterClick := !page.panelHidden;
    page.KeyDown(Escape);
    shownAfterEscape := !page.panelHidden;
    dropdownStill := page.dropdownOpen[d];
  }
}
