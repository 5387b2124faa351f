# Navigation scripts of a multi-page static site, modelled in Dafny

The site injects a shared navigation bar and footer into every page with two browser scripts.

- `load_nav.js`, the template loader, works out the current page from the hostname's subdomain. It marks the matching nav links active and decides what to fetch, insert, mark and load at start-up.
- `nav-toggle.js`, the interaction controller, keeps the state of the page's navigation. That state is the mobile panel with its hamburger button, the nav dropdowns with their toggle buttons, and two accordions: the desktop `.mn-dd-section` group and the mobile `.mmp-section-links` group. One delegated click handler and one keydown handler change it.

This project models both pieces of logic over an abstract page instead of a real document.

- `options.dfy` (module `Options`): the `Option` type, used for a DOM lookup that can find nothing.
- `nav_toggle.dfy` (module `NavToggle`) models the controller twice.
  - As values: a `NavView` holds every flag the handlers change. A `Layout` holds the markup they only read: whether the panel and hamburger exist, and which dropdown or section each toggle or label opens. There is one pure function per primitive and per handler. Their postconditions state the exclusivity, toggling and "nothing else changes" promises.
  - As a page object: `NavPage` keeps the flags in boolean arrays and the init guard in fields. Its methods update those in place, as the script does. Each method is proved to produce exactly the state the matching function describes.
  - A click is represented by a `Target`: the tests the handler runs on the event target (is it in the hamburger, in a close button, which toggle or label is it in, is it in the panel or in a dropdown). `Classify` picks the first test that matches, in the handler's order.
- `load_nav.dfy` (module `LoadNav`) holds four parts.
  - `Split`: `String.prototype.split` with a one-character separator.
  - `PageName`.
  - `MarkActive`: a loop over an array of links, proved equal to the pure `MarkLinks`.
  - The start-up decision: two independent chains of actions (`NavChain`, `FooterChain`, `StartupPlan`), with each fetch's outcome given as an input.

Two behaviours of the code are easy to misread; the model follows the code:

- Several links can be active at once. The code marks every link whose `data-page` equals the page name (load_nav.js:25-34), so several links can be active when several share the identifier. `MarkLinksExact` states what the code does.
- Escape checks only dropdowns with the `open` class (nav-toggle.js:177-180) before closing them. If none is open, Escape leaves every toggle's `aria-expanded` untouched, even a stale one. `AfterKey` models exactly that.

## Model

| member | source | states |
|---|---|---|
| `NavToggle.PanelClosed` | nav-toggle.js:25-35 | The panel is no longer showing. The hamburger, if present, has `aria-expanded` false. A missing panel or hamburger keeps its flag. Dropdowns and accordions are untouched. |
| `NavToggle.PanelOpened` | nav-toggle.js:37-47 | An existing panel shows. An existing hamburger has `aria-expanded` true. Everything else is untouched. |
| `NavToggle.DropdownsClosed` | nav-toggle.js:49-58 | No dropdown is open and no toggle is expanded. The group sizes are kept. Panel, hamburger and accordions are untouched. |
| `NavToggle.DropdownToggled` | nav-toggle.js:89-104 | The number of dropdowns and toggles is kept. A toggle whose parent holds no dropdown changes nothing. Otherwise: at most one dropdown is open; the toggle's dropdown is open exactly when it was closed before; every other dropdown is closed; only the clicked toggle can be expanded, and it is expanded exactly when its dropdown is open. Panel and accordions are unchanged. |
| `NavToggle.SectionToggled` | nav-toggle.js:106-150 | The number of sections and labels is kept. A label whose next sibling is not a section of its group changes nothing. Otherwise: the label's section flips between hidden and shown; every other section is hidden; only the clicked label can be open, and it is open exactly when its section shows; at most one section shows. |
| `NavToggle.Classify` | nav-toggle.js:60-164 | The case chosen is one whose test the target passes. No case earlier in the order (hamburger, close button, toggle, desktop label, mobile label, inside panel, inside dropdown, elsewhere) passes. |
| `NavToggle.CloseButtonBeatsPanel` | nav-toggle.js:80-87 | A click on the close button, which sits inside the panel, is classified as the close button, not as a click inside the panel. After it the panel is not showing. |
| `NavToggle.AfterClick` | nav-toggle.js:60-165 | No click adds or removes a dropdown, toggle, section or label. Per case of the click handler: the hamburger opens a hidden panel and closes a shown one (or a missing one), leaving dropdowns and accordions alone; the close button is exactly `closePanel`; a toggle click is exactly `DropdownToggled` and a label click is exactly `SectionToggled` on its own accordion, so only that group changes and it is left with at most one member open; clicks inside the panel or a dropdown change nothing; any other click closes every dropdown and the panel, keeps an already hidden panel hidden and leaves the accordions alone. |
| `NavToggle.AfterKey` | nav-toggle.js:168-182 | A key other than Escape changes nothing. With the panel showing, Escape is exactly `closePanel`: it hides the panel, sets an existing hamburger's `aria-expanded` to false, and leaves the dropdowns, toggles and accordions as they were. Otherwise Escape closes all dropdowns if one is open and changes nothing if none is. The invariant `Consistent` is kept. |
| `NavToggle.SectionToggledConsistent` | nav-toggle.js:107-150 | An accordion click keeps "at most one section shown, at most one label open, an open label's section shows". |
| `NavToggle.DropdownToggledConsistent` | nav-toggle.js:91-104 | A toggle click keeps "at most one dropdown open, at most one toggle expanded, an expanded toggle's dropdown is open". |
| `NavToggle.ClickKeepsConsistent` | nav-toggle.js:60-165 | Every click keeps `Consistent`: the exclusivity of each group, `aria-expanded` agreeing with dropdowns and panel, and open labels over shown sections. |
| `NavToggle.SwitchDropdown` | nav-toggle.js:91-104 | Opening dropdown A while dropdown B is open leaves exactly A open. |
| `NavToggle.HamburgerTwice` | nav-toggle.js:69-78 | From a consistent state with the panel hidden, one hamburger click shows the panel with `aria-expanded` true, and a second click restores the original state. |
| `NavToggle.EscapePanelFirst` | nav-toggle.js:169-176 | Escape with the panel showing closes the panel and leaves an open dropdown open. |
| `NavToggle.ToggleSection` | nav-toggle.js:107-150 | The in-place accordion loops give exactly the state `SectionToggled` describes. |
| `NavToggle.NavPage.Init` | nav-toggle.js:11-23 | The first run sets the guard, adds a close button to a panel that has none, and attaches one click and one keydown listener. A later run changes nothing. After any run there is exactly one listener of each kind. |
| `NavToggle.NavPage.ClosePanel` | nav-toggle.js:25-35 | The page's flags become exactly `PanelClosed` of the old flags. |
| `NavToggle.NavPage.OpenPanel` | nav-toggle.js:37-47 | The page's flags become exactly `PanelOpened` of the old flags. |
| `NavToggle.NavPage.CloseAllDropdowns` | nav-toggle.js:49-58 | The two in-place loops give exactly `DropdownsClosed` of the old flags. |
| `NavToggle.NavPage.Click` | nav-toggle.js:60-165 | The handler's chain of tests, run in place, gives exactly `AfterClick` of the old flags. |
| `NavToggle.NavPage.KeyDown` | nav-toggle.js:168-182 | The keydown handler, run in place, gives exactly `AfterKey` of the old flags. |
| `NavToggle.NavPage.constructor` | nav-toggle.js:12-16 | The page the script starts from: it holds exactly the given flags in newly allocated arrays, so the handlers may change them. The init guard is not yet set. |
| `NavToggle.HamburgerThenEscape` | nav-toggle.js:69-176 | On a freshly built page with the panel hidden and a dropdown open, a hamburger click shows the panel, and Escape then hides it and leaves the dropdown open. |
| `LoadNav.Split` | load_nav.js:17 | `split` always returns at least one part. |
| `LoadNav.SplitCount` | load_nav.js:17 | There is one more part than there are separators. |
| `LoadNav.SplitPartsFree` | load_nav.js:17 | No part contains the separator. |
| `LoadNav.SplitFirst` | load_nav.js:17-18 | The first part is the whole string when there is no separator. Otherwise it is the text before the first separator. |
| `LoadNav.SplitJoin` | load_nav.js:17 | Joining the parts with the separator gives back the string. |
| `LoadNav.PageName` | load_nav.js:16-20 | With more than two labels and a non-empty first label, the page name is that first label: non-empty, dot-free, and followed by a dot in the hostname. In every other case it is "home". |
| `LoadNav.FirstLabelUnique` | load_nav.js:18 | Only one dot-free prefix of a hostname is followed by a dot, so the first label is well defined. |
| `LoadNav.PageNameOfSubdomain` | load_nav.js:16-20 | `sub.domain.tld` with a non-empty, dot-free `sub` names page `sub`. |
| `LoadNav.PageNameOfDomain` | load_nav.js:16-20 | A two-label hostname is the home page. |
| `LoadNav.PageNameOfHost` | load_nav.js:16-20 | A one-label hostname is the home page. |
| `LoadNav.PageNameDocs` | load_nav.js:16-20 | `docs.example.com` gives "docs". |
| `LoadNav.PageNameBareSite` | load_nav.js:16-20 | `example.com` gives "home". |
| `LoadNav.PageNameLocalhost` | load_nav.js:16-20 | `localhost` gives "home". |
| `LoadNav.PageNameEmptyFirstLabel` | load_nav.js:18-20 | `.a.b` has three labels but an empty first one, so it gives "home" through the `\|\| 'home'` fallback. |
| `LoadNav.MarkLink` | load_nav.js:26-33 | A marked link keeps its identifier and every class except `active`. It has `active` exactly when its identifier is the page name. Its `aria-current` is "page" then and is removed otherwise. |
| `LoadNav.MarkLinksAt` | load_nav.js:24-34 | Marking keeps the number and order of the links and marks each one on its own. |
| `LoadNav.MarkLinksExact` | load_nav.js:24-34 | After marking, each link is active and has `aria-current` "page" exactly when its identifier equals the page name. Every other link has neither. No identifier changes. |
| `LoadNav.MarkLinksRerun` | load_nav.js:22-35 | Marking with a new page name after marking with an old one equals marking with the new one alone. Nothing survives from the earlier run. |
| `LoadNav.MarkLinksIdempotent` | load_nav.js:22-35 | Marking twice with the same page name equals marking once. |
| `LoadNav.MarkHomeExample` | load_nav.js:22-35 | Links "a", "b" and "home" on the home page: only "home" ends up active and current. |
| `LoadNav.MarkActive` | load_nav.js:22-35 | A null container is left alone. Otherwise the array of links becomes exactly `MarkLinks` of its old contents, in place. |
| `LoadNav.NavChain` | load_nav.js:53-68 | No action happens twice. On a page without a nav, the nav template is fetched first. If the response is not OK, nothing else happens. If it is OK, the chain holds only the fetch, the insertion, the two markings and the script load; the nav is inserted before the nav and the panel it brings are marked, and nav and panel are marked before the toggle script is loaded. |
| `LoadNav.FooterChain` | load_nav.js:71-83 | With a footer present, nothing happens. Otherwise the footer template is fetched first; it is inserted at the end of the body exactly when the response is OK, and only after the fetch. No action happens twice, and the chain holds nothing but that fetch and that insertion. |
| `LoadNav.StartupPlan` | load_nav.js:44-83 | No action of either chain happens twice. With an inline nav, nothing is fetched (not even the footer) and nothing is inserted; only the nav, panel and footer are marked, and the toggle script is loaded last. Otherwise the nav chain runs. The toggle script is loaded exactly when a nav is present or its fetch succeeded. The footer is fetched exactly when neither nav nor footer was present, whatever the nav fetch did, and inserted, after the fetch, exactly when that fetch succeeded; the footer chain holds nothing but that fetch and that insertion. A fetched footer is never marked. |

## Left out

- The `aria-label` texts of the hamburger, the glyph in its `span` and in the injected close button, and the close button's `aria-label` (nav-toggle.js:20-21, 31-33, 43-45). They change what is shown, not the state.
- `focus()` on the hamburger after a close-button click or Escape, and `stopPropagation()` on the handled clicks (nav-toggle.js:76, 84-85, 102, 125, 148, 174). These are browser focus and event-routing effects.
- DOM querying (`getElementById`, `querySelector(All)`, `closest`, `contains`, `nextElementSibling`, `parentElement`). It is abstracted into `Layout`, which says which elements exist and which dropdown or section each toggle or label opens, and into `Target`, which gives the outcome of the handler's tests on a click. The model takes the markup as fixed while the handlers run.
- A toggle's dropdown is found with `parent.querySelector('.mn-dropdown')`. It always lies inside `#morgan-nav`, because the toggle does. The model therefore takes it to be a member of the group that `closeAllDropdowns` resets.
- Event-listener registration is modelled only as the number of listeners attached. The handlers are modelled as methods that run whether or not a listener exists.
- `fetch`, `insertAdjacentHTML` and `loadScript` (load_nav.js:37-42, 54-83) are actions in a plan, not DOM or network effects. What a fetched template contains, and so which links a marking pass then finds, is not modelled.
- The race between the nav and footer fetches is not modelled. The plan fixes the order within each chain and no order between them.
- NavChain: a rejection of `r.text()` after an OK status is not modelled. An OK response always leads to insertion.
- `window.location.hostname` is a parameter of `PageName`.
