/** The template loader of load_nav.js: which page is current (derived from
    the hostname), how nav links are marked active, and which actions the
    start-up code takes for a given page and given fetch outcomes. */
module LoadNav {
  import opened Options

  // ---------------------------------------------------------------------
  // Hostname labels: String.prototype.split with a one-character separator
  // ---------------------------------------------------------------------

  /** The parts joined back together with `sep` between them. */
  function Join(parts: seq<string>, sep: char): string
  {
    if |parts| == 0 then ""
    else if |parts| == 1 then parts[0]
    else parts[0] + [sep] + Join(parts[1..], sep)
  }

  /** `s.split(sep)`: the maximal runs of `s` that hold no `sep`, in order;
      there is one more part than there are separators, so an empty string
      gives one empty part and adjacent separators give an empty part. */
  function Split(s: string, sep: char): (parts: seq<string>)
    ensures |parts| > 0
    decreases |s|
  {
    if s == [] then [""]
    else
      var rest := Split(s[1..], sep);
      if s[0] == sep then [""] + rest
      else [[s[0]] + rest[0]] + rest[1..]
  }

  /** There is one more part than there are separators. */
  lemma {:induction false} SplitCount(s: string, sep: char)
    ensures |Split(s, sep)| == multiset(s)[sep] + 1
    decreases |s|
  {
    if s != [] {
      SplitCount(s[1..], sep);
      assert s == [s[0]] + s[1..];
    }
  }

  /** No part holds the separator. */
  lemma {:induction false} SplitPartsFree(s: string, sep: char)
    ensures forall i :: 0 <= i < |Split(s, sep)| ==> sep !in Split(s, sep)[i]
    decreases |s|
  {
    if s != [] {
      SplitPartsFree(s[1..], sep);
    }
  }

  /** The first part is the whole string when there is no separator, and
      otherwise the text before the first separator. */
  lemma {:induction false} SplitFirst(s: string, sep: char)
    ensures |Split(s, sep)| == 1 ==> Split(s, sep)[0] == s
    ensures |Split(s, sep)| > 1 ==> Split(s, sep)[0] + [sep] <= s
    decreases |s|
  {
    if s != [] {
      SplitFirst(s[1..], sep);
    }
  }

  lemma JoinCons(head: string, rest: seq<string>, sep: char)
    requires |rest| > 0
    ensures Join([head] + rest, sep) == head + [sep] + Join(rest, sep)
  {
    assert ([head] + rest)[1..] == rest;
  }

  /** Splitting a string that starts with the separator gives an empty
      first part. */
  lemma SplitAtSep(s: string, sep: char)
    requires s != [] && s[0] == sep
    ensures Split(s, sep) == [""] + Split(s[1..], sep)
  {
  }

  /** The first character of a string that is not the separator joins the
      first part. */
  lemma SplitCons(s: string, sep: char)
    requires s != [] && s[0] != sep
    ensures Split(s, sep) == [[s[0]] + Split(s[1..], sep)[0]] + Split(s[1..], sep)[1..]
  {
  }

  /** Splitting loses nothing: joining the parts with the separator gives
      back the string. */
  lemma {:induction false} SplitJoin(s: string, sep: char)
    ensures Join(Split(s, sep), sep) == s
    decreases |s|
  {
    if s != [] {
      SplitJoin(s[1..], sep);
      var rest := Split(s[1..], sep);
      calc {
        Join(Split(s, sep), sep);
      ==  { if s[0] == sep { SplitAtSep(s, sep); JoinCons("", rest, sep); }
            else { SplitCons(s, sep); JoinFirst(s[0], rest, sep); } }
        [s[0]] + Join(rest, sep);
      ==
        [s[0]] + s[1..];
      ==
        s;
      }
    }
  }

  /** Prepending a character to the first part prepends it to the joined string. */
  lemma JoinFirst(c: char, parts: seq<string>, sep: char)
    requires |parts| > 0
    ensures Join([[c] + parts[0]] + parts[1..], sep) == [c] + Join(parts, sep)
  {
    if |parts| > 1 {
      JoinCons([c] + parts[0], parts[1..], sep);
      assert parts == [parts[0]] + parts[1..];
      JoinCons(parts[0], parts[1..], sep);
    }
  }

  /** The hostname names a subdomain: it has more than two dot-separated
      labels and the first of them is not empty. */
  predicate HasSubdomain(hostname: string)
  {
    |hostname| > 0 && hostname[0] != '.' && multiset(hostname)['.'] >= 2
  }

  /** `pageName` (load_nav.js:16-20): the first label of a hostname with more
      than two labels, unless that label is empty; "home" otherwise. */
  function PageName(hostname: string): (name: string)
    ensures HasSubdomain(hostname) ==> name != "" && '.' !in name && name + "." <= hostname
    ensures !HasSubdomain(hostname) ==> name == "home"
  {
    SplitCount(hostname, '.');
    SplitPartsFree(hostname, '.');
    SplitFirst(hostname, '.');
    var parts := Split(hostname, '.');
    var subdomain := if |parts| > 2 then parts[0] else "";
    assert subdomain != "" ==> hostname[0] == subdomain[0];
    if subdomain != "" then subdomain else "home"
  }

  /** The label before the first dot is determined by the prefix relation:
      the first label of PageName is the only dot-free prefix followed by a dot. */
  lemma FirstLabelUnique(hostname: string, a: string, b: string)
    requires '.' !in a && a + "." <= hostname
    requires '.' !in b && b + "." <= hostname
    ensures a == b
  {
    assert forall k :: 0 <= k < |a| ==> hostname[k] == a[k] && hostname[k] != '.';
    assert forall k :: 0 <= k < |b| ==> hostname[k] == b[k] && hostname[k] != '.';
    assert hostname[|a|] == (a + ".")[|a|] == '.';
    assert hostname[|b|] == (b + ".")[|b|] == '.';
    assert |a| == |b|;
    assert a == hostname[..|a|] == b;
  }

  lemma NoDots(s: string)
    requires '.' !in s
    ensures multiset(s)['.'] == 0
  {
  }

  /** A three-label hostname names the page by its first label. */
  lemma PageNameOfSubdomain(sub: string, domain: string, tld: string)
    requires '.' !in sub && '.' !in domain && '.' !in tld && sub != ""
    ensures PageName(sub + "." + domain + "." + tld) == sub
  {
    var hostname := sub + "." + domain + "." + tld;
    NoDots(sub);
    NoDots(domain);
    NoDots(tld);
    assert multiset(hostname) == multiset(sub) + multiset(".") + multiset(domain) + multiset(".") + multiset(tld);
    assert hostname[0] == sub[0];
    assert sub + "." <= hostname;
    FirstLabelUnique(hostname, PageName(hostname), sub);
  }

  /** A two-label hostname, the bare site, is the home page. */
  lemma PageNameOfDomain(domain: string, tld: string)
    requires '.' !in domain && '.' !in tld
    ensures PageName(domain + "." + tld) == "home"
  {
    NoDots(domain);
    NoDots(tld);
    assert multiset(domain + "." + tld) == multiset(domain) + multiset(".") + multiset(tld);
  }

  /** Page names of typical hostnames. */
  lemma PageNameDocs()
    ensures PageName("docs.example.com") == "docs"
  {
    assert "docs.example.com" == "docs" + "." + "example" + "." + "com";
    PageNameOfSubdomain("docs", "example", "com");
  }

  lemma PageNameBareSite()
    ensures PageName("example.com") == "home"
  {
    assert "example.com" == "example" + "." + "com";
    PageNameOfDomain("example", "com");
  }

  /** A single-label hostname, such as a local host name, is the home page. */
  lemma PageNameOfHost(host: string)
    requires '.' !in host
    ensures PageName(host) == "home"
  {
    NoDots(host);
  }

  lemma PageNameLocalhost()
    ensures PageName("localhost") == "home"
  {
    PageNameOfHost("localhost");
  }

  /** An empty first label falls back to "home" even with three labels. */
  lemma PageNameEmptyFirstLabel()
    ensures PageName(".a.b") == "home"
  {
  }

  // ---------------------------------------------------------------------
  // Active-link marking
  // ---------------------------------------------------------------------

  /** An element carrying a `data-page` attribute: its identifier, its class
      list and its `aria-current` attribute (None when absent). */
  datatype Link = Link(page: string, classes: set<string>, ariaCurrent: Option<string>)

  const ActiveClass := "active"

  /** One step of `markActive` (load_nav.js:26-33) applied to one link. */
  function MarkLink(link: Link, pageName: string): (r: Link)
    ensures r.page == link.page
    ensures ActiveClass in r.classes <==> link.page == pageName
    ensures r.classes - {ActiveClass} == link.classes - {ActiveClass}
    ensures r.ariaCurrent == if link.page == pageName then Some("page") else None
  {
    if link.page == pageName then
      link.(classes := link.classes + {ActiveClass}, ariaCurrent := Some("page"))
    else
      link.(classes := link.classes - {ActiveClass}, ariaCurrent := None)
  }

  /** Every link of a container after `markActive`, in document order. */
  function MarkLinks(links: seq<Link>, pageName: string): seq<Link>
  {
    if links == [] then [] else [MarkLink(links[0], pageName)] + MarkLinks(links[1..], pageName)
  }

  /** Marking keeps the links and their order and marks each one on its own. */
  lemma {:induction false} MarkLinksAt(links: seq<Link>, pageName: string, i: nat)
    requires i < |links|
    ensures |MarkLinks(links, pageName)| == |links|
    ensures MarkLinks(links, pageName)[i] == MarkLink(links[i], pageName)
  {
    if i > 0 {
      MarkLinksAt(links[1..], pageName, i - 1);
    } else if |links| > 1 {
      MarkLinksAt(links[1..], pageName, 0);
    }
  }

  /** After marking, a link is active and is the current page exactly when
      its identifier is the page name; no link is added, removed or re-identified. */
  lemma MarkLinksExact(links: seq<Link>, pageName: string)
    ensures |MarkLinks(links, pageName)| == |links|
    ensures forall i :: 0 <= i < |links| ==>
      MarkLinks(links, pageName)[i].page == links[i].page &&
      (ActiveClass in MarkLinks(links, pageName)[i].classes <==> links[i].page == pageName) &&
      (MarkLinks(links, pageName)[i].ariaCurrent == Some("page") <==> links[i].page == pageName) &&
      (MarkLinks(links, pageName)[i].ariaCurrent.Some? ==> links[i].page == pageName)
  {
    if links == [] {
    } else {
      MarkLinksAt(links, pageName, 0);
      forall i | 0 <= i < |links|
        ensures MarkLinks(links, pageName)[i] == MarkLink(links[i], pageName)
      {
        MarkLinksAt(links, pageName, i);
      }
    }
  }

  /** Re-running `markActive` with another page name leaves nothing from the
      earlier run: the result is as if only the last run had happened. */
  lemma {:induction false} MarkLinksRerun(links: seq<Link>, p: string, q: string)
    ensures MarkLinks(MarkLinks(links, p), q) == MarkLinks(links, q)
  {
    if links != [] {
      MarkLinksRerun(links[1..], p, q);
      var once := MarkLinks(links, p);
      assert once[0] == MarkLink(links[0], p);
      assert once[1..] == MarkLinks(links[1..], p);
      assert MarkLink(MarkLink(links[0], p), q) == MarkLink(links[0], q);
    }
  }

  /** `markActive` is idempotent. */
  lemma MarkLinksIdempotent(links: seq<Link>, pageName: string)
    ensures MarkLinks(MarkLinks(links, pageName), pageName) == MarkLinks(links, pageName)
  {
    MarkLinksRerun(links, pageName, pageName);
  }

  /** Links "a", "b" and "home" on the home page. */
  lemma MarkHomeExample()
    ensures MarkLinks([Link("a", {}, None), Link("b", {}, None), Link("home", {}, None)], "home")
         == [Link("a", {}, None), Link("b", {}, None), Link("home", {ActiveClass}, Some("page"))]
  {
    var links := [Link("a", {}, None), Link("b", {}, None), Link("home", {}, None)];
    assert MarkLinks(links[2..], "home") == [MarkLink(links[2], "home")] by {
      assert links[2..][1..] == [];
    }
    assert links[1..][1..] == links[2..];
    assert MarkLinks(links[1..], "home") == [MarkLink(links[1], "home"), MarkLink(links[2], "home")];
    assert MarkLinks(links, "home") == [MarkLink(links[0], "home"), MarkLink(links[1], "home"), MarkLink(links[2], "home")];
    assert MarkLink(links[0], "home") == links[0];
    assert MarkLink(links[1], "home") == links[1];
    assert MarkLink(links[2], "home") == Link("home", {ActiveClass}, Some("page"));
  }

  /** `markActive(container)` (load_nav.js:22-35): a null container is left
      alone; otherwise every link in it is marked in place. */
  method MarkActive(container: array?<Link>, pageName: string)
    modifies container
    ensures container != null ==> container[..] == MarkLinks(old(container[..]), pageName)
  {
    if container == null {
      return;
    }
    for i := 0 to container.Length
      invariant forall k :: 0 <= k < i ==> container[k] == MarkLink(old(container[k]), pageName)
      invariant forall k :: i <= k < container.Length ==> container[k] == old(container[k])
    {
      var link := container[i];
      if link.page == pageName {
        container[i] := link.(classes := link.classes + {ActiveClass}, ariaCurrent := Some("page"));
      } else {
        container[i] := link.(classes := link.classes - {ActiveClass}, ariaCurrent := None);
      }
    }
    ghost var was := old(container[..]);
    if container.Length == 0 {
      assert was == [];
    } else {
      MarkLinksAt(was, pageName, 0);
      forall k | 0 <= k < container.Length
        ensures container[..][k] == MarkLinks(was, pageName)[k]
      {
        MarkLinksAt(was, pageName, k);
      }
    }
  }

  // ---------------------------------------------------------------------
  // Start-up decision
  // ---------------------------------------------------------------------

  datatype Container = NavContainer | PanelContainer | FooterContainer

  /** A DOM or network action of the start-up code. */
  datatype Action =
    | FetchTemplate(file: string)   // fetch(file)
    | InsertAtStart                 // body.insertAdjacentHTML('afterbegin', html)
    | InsertAtEnd                   // body.insertAdjacentHTML('beforeend', html)
    | MarkActiveIn(c: Container)    // markActive(document.getElementById(...))
    | LoadScript(src: string)       // loadScript(src)

  const NavTemplate := "nav_template.html"
  const FooterTemplate := "footer_template.html"
  const ToggleScript := "nav-toggle.js"

  /** How a fetch settles: a response with its HTTP status, or a rejection. */
  datatype Response = Response(status: int) | NetworkError

  /** `r.ok`: the status is in the range 200-299. */
  predicate IsOk(r: Response)
  {
    r.Response? && 200 <= r.status <= 299
  }

  /** The two promise chains of start-up. They race, so only the order
      within each chain is fixed. */
  datatype Startup = Startup(navChain: seq<Action>, footerChain: seq<Action>)

  predicate Fetches(actions: seq<Action>)
  {
    exists i :: 0 <= i < |actions| && actions[i].FetchTemplate?
  }

  /** No action happens twice: one nav, one footer, one toggle script. */
  predicate NoRepeats(actions: seq<Action>)
  {
    forall i, j :: 0 <= i < j < |actions| ==> actions[i] != actions[j]
  }

  /** Ordering within a chain: both actions happen, and every `a` comes
      before every `b`. */
  predicate Before(actions: seq<Action>, a: Action, b: Action)
  {
    a in actions && b in actions &&
    forall i, j :: 0 <= i < |actions| && 0 <= j < |actions| && actions[i] == a && actions[j] == b ==> i < j
  }

  /** The nav chain (load_nav.js:54-68) on a page without a nav: fetch the
      template; only if the response is OK insert it, mark the nav and the
      panel, and then load the toggle script. */
  function NavChain(navResponse: Response): (chain: seq<Action>)
    ensures |chain| > 0 && chain[0] == FetchTemplate(NavTemplate)
    ensures NoRepeats(chain)
    ensures !IsOk(navResponse) ==> chain == [FetchTemplate(NavTemplate)]
    ensures IsOk(navResponse) ==>
      (forall i :: 0 <= i < |chain| ==>
         chain[i] in {FetchTemplate(NavTemplate), InsertAtStart, MarkActiveIn(NavContainer),
                      MarkActiveIn(PanelContainer), LoadScript(ToggleScript)}) &&
      Before(chain, InsertAtStart, MarkActiveIn(NavContainer)) &&
      Before(chain, InsertAtStart, MarkActiveIn(PanelContainer)) &&
      Before(chain, MarkActiveIn(NavContainer), LoadScript(ToggleScript)) &&
      Before(chain, MarkActiveIn(PanelContainer), LoadScript(ToggleScript))
  {
    if IsOk(navResponse) then
      [FetchTemplate(NavTemplate), InsertAtStart, MarkActiveIn(NavContainer), MarkActiveIn(PanelContainer),
       LoadScript(ToggleScript)]
    else
      [FetchTemplate(NavTemplate)]
  }

  /** The footer chain (load_nav.js:71-83): fetch the footer template only
      if no footer is present, and insert it only if the response is OK. */
  function FooterChain(footerPresent: bool, footerResponse: Response): (chain: seq<Action>)
    ensures NoRepeats(chain)
    ensures footerPresent ==> chain == []
    ensures !footerPresent ==> |chain| > 0 && chain[0] == FetchTemplate(FooterTemplate)
    ensures InsertAtEnd in chain <==> !footerPresent && IsOk(footerResponse)
    ensures InsertAtEnd in chain ==> Before(chain, FetchTemplate(FooterTemplate), InsertAtEnd)
    ensures forall i :: 0 <= i < |chain| ==> chain[i] in {FetchTemplate(FooterTemplate), InsertAtEnd}
  {
    if footerPresent then []
    else if IsOk(footerResponse) then [FetchTemplate(FooterTemplate), InsertAtEnd]
    else [FetchTemplate(FooterTemplate)]
  }

  /** The start-up decision of load_nav.js:45-83 for a page on which the nav
      and footer containers are or are not present, with the outcome of each
      fetch given. */
  function StartupPlan(navPresent: bool, footerPresent: bool, navResponse: Response, footerResponse: Response): (p: Startup)
    // no action of either chain happens twice
    ensures NoRepeats(p.navChain) && NoRepeats(p.footerChain)
    // inline nav: mark all three containers and load the toggle script, fetch and insert nothing
    ensures navPresent ==>
      !Fetches(p.navChain) && p.footerChain == [] &&
      InsertAtStart !in p.navChain && InsertAtEnd !in p.navChain &&
      (forall i :: 0 <= i < |p.navChain| ==> p.navChain[i].MarkActiveIn? || p.navChain[i] == LoadScript(ToggleScript)) &&
      MarkActiveIn(NavContainer) in p.navChain && MarkActiveIn(PanelContainer) in p.navChain &&
      MarkActiveIn(FooterContainer) in p.navChain &&
      p.navChain[|p.navChain| - 1] == LoadScript(ToggleScript)
    // otherwise the nav chain runs as NavChain describes
    ensures !navPresent ==> p.navChain == NavChain(navResponse)
    // the footer is fetched before it is inserted
    ensures InsertAtEnd in p.footerChain ==> Before(p.footerChain, FetchTemplate(FooterTemplate), InsertAtEnd)
    // the toggle script is loaded exactly when a nav is in the document
    ensures LoadScript(ToggleScript) in p.navChain <==> navPresent || IsOk(navResponse)
    // the footer fetch depends only on whether nav and footer were present
    ensures FetchTemplate(FooterTemplate) in p.footerChain <==> !navPresent && !footerPresent
    ensures InsertAtEnd in p.footerChain <==> !navPresent && !footerPresent && IsOk(footerResponse)
    ensures forall i :: 0 <= i < |p.footerChain| ==> p.footerChain[i] in {FetchTemplate(FooterTemplate), InsertAtEnd}
    // a fetched footer is never marked
    ensures MarkActiveIn(FooterContainer) in p.navChain + p.footerChain ==> navPresent
  {
    if navPresent then
      Startup([MarkActiveIn(NavContainer), MarkActiveIn(PanelContainer), MarkActiveIn(FooterContainer),
               LoadScript(ToggleScript)], [])
    else
      Startup(NavChain(navResponse), FooterChain(footerPresent, footerResponse))
  }
}
