/**
 * The mobile bottom navigation bar: the subset of the layout's navigation
 * items it shows, and which of them is highlighted as active.
 */
module NavBar {
  datatype NavItem = NavItem(href: string, text: string, icon: string)

  /** The icons the mobile bar keeps. */
  const MobileIcons: seq<string> := ["FaHome", "FaPencilAlt", "FaStar", "FaCog"]

  /** `navItems.filter(item => MobileIcons.includes(item.icon))`. */
  function MobileNavItems(items: seq<NavItem>): (r: seq<NavItem>)
    ensures |r| <= |items|
  {
    if items == [] then []
    else
      var rest := MobileNavItems(items[1..]);
      if items[0].icon in MobileIcons then [items[0]] + rest else rest
  }

  /** The bar keeps exactly the items with a mobile icon. */
  lemma {:induction false} MobileNavMembers(items: seq<NavItem>)
    ensures forall x :: x in MobileNavItems(items) <==> x in items && x.icon in MobileIcons
  {
    if items != [] {
      MobileNavMembers(items[1..]);
      assert forall x :: x in items <==> x == items[0] || x in items[1..];
    }
  }

  /** `a` is `b` with some elements removed, in the same order. */
  predicate IsSubsequence<T(==)>(a: seq<T>, b: seq<T>)
  {
    if a == [] then true
    else if b == [] then false
    else if a[0] == b[0] then IsSubsequence(a[1..], b[1..])
    else IsSubsequence(a, b[1..])
  }

  /** The bar keeps the layout's order. */
  lemma {:induction false} MobileNavKeepsOrder(items: seq<NavItem>)
    ensures IsSubsequence(MobileNavItems(items), items)
  {
    if items != [] {
      MobileNavKeepsOrder(items[1..]);
      var rest := MobileNavItems(items[1..]);
      if items[0].icon in MobileIcons {
        assert ([items[0]] + rest)[1..] == rest;
      } else if rest != [] {
        MobileNavMembers(items[1..]);
        assert rest[0] in rest;
        assert rest[0] != items[0];
      }
    }
  }

  /** Filtering the bar's items again changes nothing. */
  lemma {:induction false} MobileNavIdempotent(items: seq<NavItem>)
    ensures MobileNavItems(MobileNavItems(items)) == MobileNavItems(items)
  {
    if items != [] {
      MobileNavIdempotent(items[1..]);
      var rest := MobileNavItems(items[1..]);
      if items[0].icon in MobileIcons {
        assert ([items[0]] + rest)[1..] == rest;
      }
    }
  }

  /** `pathname === item.href`; the sidebar uses the same rule. */
  function IsActive(pathname: string, item: NavItem): (r: bool)
    ensures r <==> pathname == item.href
  {
    pathname == item.href
  }

  /** A nested page does not highlight its section: there is no prefix match. */
  lemma {:induction false} NoPrefixMatch(item: NavItem, suffix: string)
    requires suffix != []
    ensures !IsActive(item.href + suffix, item)
  {
    assert |item.href + suffix| > |item.href|;
  }

  /** No two items have the same `href`. */
  predicate DistinctHrefs(items: seq<NavItem>)
  {
    forall i, j :: 0 <= i < j < |items| ==> items[i].href != items[j].href
  }

  /** With distinct hrefs, at most one item is active on any page. */
  lemma {:induction false} AtMostOneActive(items: seq<NavItem>, pathname: string, i: nat, j: nat)
    requires DistinctHrefs(items) && i < |items| && j < |items|
    requires IsActive(pathname, items[i]) && IsActive(pathname, items[j])
    ensures i == j
  {
  }

  lemma IconFacts()
    ensures "FaHome" in MobileIcons && "FaPencilAlt" in MobileIcons
    ensures "FaStar" in MobileIcons && "FaCog" in MobileIcons
    ensures "FaCalendarAlt" !in MobileIcons && "FaChartLine" !in MobileIcons
  {
    assert MobileIcons[0] == "FaHome" && MobileIcons[1] == "FaPencilAlt";
    assert MobileIcons[2] == "FaStar" && MobileIcons[3] == "FaCog";
    assert "FaCalendarAlt"[2] == 'C' && "FaChartLine"[2] == 'C';
    assert "FaCalendarAlt"[3] == 'a' && "FaChartLine"[3] == 'h';
  }

  lemma {:induction false} KeepFirst(x: NavItem, rest: seq<NavItem>, kept: seq<NavItem>)
    requires x.icon in MobileIcons && MobileNavItems(rest) == kept
    ensures MobileNavItems([x] + rest) == [x] + kept
  {
    assert ([x] + rest)[1..] == rest;
  }

  lemma {:induction false} KeepLast(x: NavItem, kept: seq<NavItem>)
    requires x.icon in MobileIcons && kept == []
    ensures MobileNavItems([x]) == [x]
  {
    assert [x][1..] == [];
  }

  lemma {:induction false} DropFirst(x: NavItem, rest: seq<NavItem>, kept: seq<NavItem>)
    requires x.icon !in MobileIcons && MobileNavItems(rest) == kept
    ensures MobileNavItems([x] + rest) == kept
  {
    assert ([x] + rest)[1..] == rest;
  }

  /** `/${lang}/${page}`. */
  function LocalePath(lang: string, page: string): (r: string)
    ensures |r| == |lang| + |page| + 2
  {
    "/" + lang + "/" + page
  }

  /** The authenticated layout's items for locale `lang`; `t` is the translation function. */
  function LayoutNavItems(lang: string, t: string -> string): (r: seq<NavItem>)
    ensures |r| == 6
  {
    [ NavItem(LocalePath(lang, "dashboard"), t("nav.dashboard"), "FaHome"),
      NavItem(LocalePath(lang, "log"), t("nav.logActivity"), "FaPencilAlt"),
      NavItem(LocalePath(lang, "milestones"), t("nav.milestones"), "FaStar"),
      NavItem(LocalePath(lang, "routines"), t("nav.routines"), "FaCalendarAlt"),
      NavItem(LocalePath(lang, "insights"), t("nav.insights"), "FaChartLine"),
      NavItem(LocalePath(lang, "settings"), t("nav.settings"), "FaCog") ]
  }

  /** Six items of which the fourth and fifth have icons the bar drops and the others icons it keeps. */
  lemma {:induction false} MobileBarOfSix(items: seq<NavItem>)
    requires |items| == 6
    requires items[0].icon in MobileIcons && items[1].icon in MobileIcons && items[2].icon in MobileIcons
    requires items[3].icon !in MobileIcons && items[4].icon !in MobileIcons && items[5].icon in MobileIcons
    ensures MobileNavItems(items) == [items[0], items[1], items[2], items[5]]
  {
    KeepLast(items[5], []);
    assert items[5..] == [items[5]];
    DropFirst(items[4], items[5..], [items[5]]);
    assert items[4..] == [items[4]] + items[5..];
    DropFirst(items[3], items[4..], [items[5]]);
    assert items[3..] == [items[3]] + items[4..];
    KeepFirst(items[2], items[3..], [items[5]]);
    assert items[2..] == [items[2]] + items[3..];
    KeepFirst(items[1], items[2..], [items[2], items[5]]);
    assert items[1..] == [items[1]] + items[2..];
    KeepFirst(items[0], items[1..], [items[1], items[2], items[5]]);
    assert items == [items[0]] + items[1..];
  }

  /** The phone bar shows dashboard, log, milestones and settings, in that order, and their hrefs are distinct. */
  lemma LayoutMobileBar(lang: string, t: string -> string)
    ensures var items := LayoutNavItems(lang, t);
            MobileNavItems(items) == [items[0], items[1], items[2], items[5]]
    ensures DistinctHrefs(MobileNavItems(LayoutNavItems(lang, t)))
  {
    var items := LayoutNavItems(lang, t);
    IconFacts();
    MobileBarOfSix(items);
    // The four paths have different lengths.
    assert |items[0].href| == |lang| + 11 && |items[1].href| == |lang| + 5;
    assert |items[2].href| == |lang| + 12 && |items[5].href| == |lang| + 10;
  }
}
