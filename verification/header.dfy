/** The site header (`components/Header.tsx`): the path each navigation
    item links to, which links are highlighted for the current pathname,
    the mobile-menu toggle and the scroll flag. */
module Header {
  import opened Text

  // ---------------------------------------------------------------------
  // Paths.

  /** `s.replace(/\s+/g, '-')`: every maximal run of white space becomes
      one hyphen. */
  function DashWhitespace(s: string): string
    decreases |s|
  {
    if s == [] then []
    else if IsWhitespace(s[0]) then "-" + DashWhitespace(TrimStart(s))
    else [s[0]] + DashWhitespace(s[1..])
  }

  /** The `itemPath` of a navigation item. */
  function NavPath(item: string): (r: string)
    ensures |r| > 0 && r[0] == '/'
    ensures forall i :: 0 <= i < |r| ==> !IsWhitespace(r[i])
  {
    if item == "Home" then "/"
    else
      DashWhitespaceHasNoSpace(ToLower(item));
      "/" + DashWhitespace(ToLower(item))
  }

  /** The replacement leaves no white space behind. */
  lemma {:induction false} DashWhitespaceHasNoSpace(s: string)
    ensures forall i :: 0 <= i < |DashWhitespace(s)| ==> !IsWhitespace(DashWhitespace(s)[i])
    decreases |s|
  {
    if s != [] {
      var r := DashWhitespace(s);
      if IsWhitespace(s[0]) {
        var t := DashWhitespace(TrimStart(s));
        DashWhitespaceHasNoSpace(TrimStart(s));
        assert r == "-" + t;
        forall i | 0 < i < |r| ensures !IsWhitespace(r[i]) {
          assert r[i] == t[i - 1];
        }
      } else {
        var t := DashWhitespace(s[1..]);
        DashWhitespaceHasNoSpace(s[1..]);
        assert r == [s[0]] + t;
        forall i | 0 < i < |r| ensures !IsWhitespace(r[i]) {
          assert r[i] == t[i - 1];
        }
      }
    }
  }

  /** Text without white space is left as it is. */
  lemma {:induction false} DashWhitespaceOfPlain(s: string)
    requires forall i :: 0 <= i < |s| ==> !IsWhitespace(s[i])
    ensures DashWhitespace(s) == s
  {
    if s != [] {
      DashWhitespaceOfPlain(s[1..]);
      assert [s[0]] + s[1..] == s;
    }
  }

  /** A run of white space between two words becomes exactly one hyphen,
      wherever it sits: the replacement works piece by piece. */
  lemma {:induction false} DashWhitespaceAppend(a: string, b: string)
    requires a == [] || !IsWhitespace(a[|a| - 1])
    ensures DashWhitespace(a + b) == DashWhitespace(a) + DashWhitespace(b)
    decreases |a|
  {
    if a == [] {
      assert a + b == b;
    } else if IsWhitespace(a[0]) {
      DashWhitespaceAppend(TrimStart(a), b);
      DashAppendAtRun(a, b);
    } else {
      DashWhitespaceAppend(a[1..], b);
      DashAppendAtChar(a, b);
    }
  }

  /** The step of `DashWhitespaceAppend` at a leading run of white space. */
  lemma DashAppendAtRun(a: string, b: string)
    requires a != [] && IsWhitespace(a[0]) && !IsWhitespace(a[|a| - 1])
    requires DashWhitespace(TrimStart(a) + b) == DashWhitespace(TrimStart(a)) + DashWhitespace(b)
    ensures DashWhitespace(a + b) == DashWhitespace(a) + DashWhitespace(b)
  {
    var ab := a + b;
    assert ab[0] == a[0];
    TrimStartAppend(a, b);
    DashAtRun(ab);
    DashAtRun(a);
    ConsAppend('-', DashWhitespace(TrimStart(a)), DashWhitespace(b));
  }

  /** The step of `DashWhitespaceAppend` at a leading ordinary character. */
  lemma DashAppendAtChar(a: string, b: string)
    requires a != [] && !IsWhitespace(a[0])
    requires DashWhitespace(a[1..] + b) == DashWhitespace(a[1..]) + DashWhitespace(b)
    ensures DashWhitespace(a + b) == DashWhitespace(a) + DashWhitespace(b)
  {
    var ab := a + b;
    assert ab[0] == a[0];
    assert ab[1..] == a[1..] + b;
    DashAtChar(ab);
    DashAtChar(a);
    ConsAppend(a[0], DashWhitespace(a[1..]), DashWhitespace(b));
  }

  lemma DashAtRun(s: string)
    requires s != [] && IsWhitespace(s[0])
    ensures DashWhitespace(s) == "-" + DashWhitespace(TrimStart(s))
  {
  }

  lemma DashAtChar(s: string)
    requires s != [] && !IsWhitespace(s[0])
    ensures DashWhitespace(s) == [s[0]] + DashWhitespace(s[1..])
  {
  }

  lemma ConsAppend(c: char, x: string, y: string)
    ensures [c] + (x + y) == ([c] + x) + y
  {
  }

  lemma {:induction false} TrimStartAppend(a: string, b: string)
    requires a != [] && !IsWhitespace(a[|a| - 1])
    ensures TrimStart(a + b) == TrimStart(a) + b
  {
    if IsWhitespace(a[0]) {
      assert |a| > 1;
      assert (a + b)[1..] == a[1..] + b;
      TrimStartAppend(a[1..], b);
    }
  }

  lemma DashWhitespaceOfRun(ws: string, b: string)
    requires ws != [] && forall i :: 0 <= i < |ws| ==> IsWhitespace(ws[i])
    requires b == [] || !IsWhitespace(b[0])
    ensures DashWhitespace(ws + b) == "-" + DashWhitespace(b)
  {
    TrimRun(ws, b);
  }

  lemma {:induction false} TrimRun(ws: string, b: string)
    requires forall i :: 0 <= i < |ws| ==> IsWhitespace(ws[i])
    requires b == [] || !IsWhitespace(b[0])
    ensures TrimStart(ws + b) == b
  {
    if ws == [] {
      assert ws + b == b;
    } else {
      assert (ws + b)[1..] == ws[1..] + b;
      TrimRun(ws[1..], b);
    }
  }

  /** Two words separated by white space give the words joined by one
      hyphen. */
  lemma TwoWordPath(w1: string, ws: string, w2: string)
    requires forall i :: 0 <= i < |w1| ==> !IsWhitespace(w1[i])
    requires forall i :: 0 <= i < |w2| ==> !IsWhitespace(w2[i])
    requires w1 != [] && w2 != []
    requires ws != [] && forall i :: 0 <= i < |ws| ==> IsWhitespace(ws[i])
    ensures DashWhitespace(w1 + ws + w2) == w1 + "-" + w2
  {
    AppendAssoc(w1, ws, w2);
    DashWhitespaceAppend(w1, ws + w2);
    DashWhitespaceOfPlain(w1);
    RunThenWord(ws, w2);
    AppendAssoc(w1, "-", w2);
  }

  lemma RunThenWord(ws: string, w: string)
    requires w != [] && forall i :: 0 <= i < |w| ==> !IsWhitespace(w[i])
    requires ws != [] && forall i :: 0 <= i < |ws| ==> IsWhitespace(ws[i])
    ensures DashWhitespace(ws + w) == "-" + w
  {
    DashWhitespaceOfRun(ws, w);
    DashWhitespaceOfPlain(w);
  }

  /** "Get Involved" links to "/get-involved", "Home" to "/". */
  lemma NavPathExamples(item: string)
    requires item == "Get Involved"
    ensures NavPath(item) == "/get-involved"
    ensures NavPath("Home") == "/"
  {
    var lowered := ToLower(item);
    assert lowered == "get" + " " + "involved";
    TwoWordPath("get", " ", "involved");
  }

  /** A one-word item links to its lower-cased name. */
  lemma OneWordNavPath(item: string)
    requires item != "Home"
    requires forall i :: 0 <= i < |item| ==> !IsWhitespace(item[i])
    ensures NavPath(item) == "/" + ToLower(item)
  {
    var lowered := ToLower(item);
    forall i | 0 <= i < |lowered|
      ensures !IsWhitespace(lowered[i])
    {
      LowerKeepsNonWhitespace(item[i]);
    }
    DashWhitespaceOfPlain(lowered);
  }

  const NavItems: seq<string> := ["Home", "About", "Services", "Resources", "Gallery", "Blog", "Get Involved", "Contact"]

  // ---------------------------------------------------------------------
  // Highlighting.

  /** A navigation link is highlighted exactly on its own path. */
  predicate IsActive(pathname: string, item: string) {
    pathname == NavPath(item)
  }

  datatype ResourceItem = ResourceItem(name: string, href: string)

  const ResourcesItems: seq<ResourceItem> := [
    ResourceItem("Past Papers", "/resources/past-papers"),
    ResourceItem("Student Portal", "/resources/student-portal"),
    ResourceItem("Study Materials", "/resources/study-materials")
  ]

  /** The "Resources" label: red on any path under "/resources" (the
      lighter red of the second branch can never be chosen). */
  predicate ResourcesLabelHighlighted(pathname: string) {
    StartsWith(pathname, "/resources")
  }

  predicate ResourceItemHighlighted(pathname: string, item: ResourceItem) {
    pathname == item.href
  }

  /** Every resource link lives under "/resources", so a highlighted item
      always comes with a highlighted label. */
  lemma ResourceItemImpliesLabel(pathname: string, i: int)
    requires 0 <= i < |ResourcesItems|
    requires ResourceItemHighlighted(pathname, ResourcesItems[i])
    ensures ResourcesLabelHighlighted(pathname)
  {
    var items := ResourcesItems;
    assert items[i].href[..10] == "/resources";
  }

  /** A one-word item's path is one longer than the item and starts with
      the item's first letter in lower case. */
  lemma PlainNavPathShape(item: string)
    requires item != "Home" && item != []
    requires forall i :: 0 <= i < |item| ==> !IsWhitespace(item[i])
    ensures |NavPath(item)| == |item| + 1 && NavPath(item)[1] == ToLowerChar(item[0])
  {
    OneWordNavPath(item);
  }

  lemma NavItemShape(k: int)
    requires 0 <= k < |NavItems| && k != 0 && k != 6
    ensures |NavPath(NavItems[k])| == |NavItems[k]| + 1 && NavPath(NavItems[k])[1] == ToLowerChar(NavItems[k][0])
  {
    var items := NavItems;
    assert forall c :: 0 <= c < |items[k]| ==> 'A' <= items[k][c] <= 'z';
    PlainNavPathShape(items[k]);
  }

  /** Length and first letter of each navigation item, and of the path
      it links to (the path's first letter follows the slash; Home's path
      is the bare slash). */
  const ItemLengths: seq<nat> := [4, 5, 8, 9, 7, 4, 12, 7]
  const ItemInitials: seq<char> := ['H', 'A', 'S', 'R', 'G', 'B', 'G', 'C']
  const PathLengths: seq<nat> := [1, 6, 9, 10, 8, 5, 13, 8]
  const PathInitials: seq<char> := ['/', 'a', 's', 'r', 'g', 'b', 'g', 'c']

  lemma ItemKey(k: int)
    requires 0 <= k < |NavItems|
    ensures |NavItems[k]| == ItemLengths[k] && NavItems[k][0] == ItemInitials[k]
  {
  }

  lemma InitialLowered(k: int)
    requires 0 <= k < |NavItems| && k != 0 && k != 6
    ensures ToLowerChar(ItemInitials[k]) == PathInitials[k]
  {
  }

  lemma NavPathKey(k: int)
    requires 0 <= k < |NavItems|
    ensures |NavPath(NavItems[k])| == PathLengths[k]
    ensures k != 0 ==> NavPath(NavItems[k])[1] == PathInitials[k]
  {
    if k == 0 || k == 6 {
      SpacedNavPathKey(k);
    } else {
      PlainNavPathKey(k);
    }
  }

  lemma SpacedNavPathKey(k: int)
    requires k == 0 || k == 6
    ensures |NavPath(NavItems[k])| == PathLengths[k]
    ensures k != 0 ==> NavPath(NavItems[k])[1] == PathInitials[k]
  {
    var items := NavItems;
    NavPathExamples(items[6]);
  }

  lemma PlainNavPathKey(k: int)
    requires 0 <= k < |NavItems| && k != 0 && k != 6
    ensures |NavPath(NavItems[k])| == PathLengths[k]
    ensures NavPath(NavItems[k])[1] == PathInitials[k]
  {
    ItemKey(k);
    NavItemShape(k);
    InitialLowered(k);
  }

  /** The table of path lengths and initials has no repeated entry. */
  lemma PathKeysDistinct(i: int, j: int)
    requires 0 <= i < |NavItems| && 0 <= j < |NavItems|
    requires PathLengths[i] == PathLengths[j]
    requires i != 0 && j != 0 ==> PathInitials[i] == PathInitials[j]
    ensures i == j
  {
  }

  /** No two navigation items share a path, so at most one link is
      highlighted for any pathname. */
  lemma AtMostOneActive(pathname: string, i: int, j: int)
    requires 0 <= i < |NavItems| && 0 <= j < |NavItems|
    requires IsActive(pathname, NavItems[i]) && IsActive(pathname, NavItems[j])
    ensures i == j
  {
    NavPathKey(i);
    NavPathKey(j);
    PathKeysDistinct(i, j);
  }

  // ---------------------------------------------------------------------
  // Menu and scroll state.

  datatype HeaderState = HeaderState(isScrolled: bool, isOpen: bool)

  /** `toggleMenu`. */
  function ToggleMenu(st: HeaderState): (r: HeaderState)
    ensures r.isOpen != st.isOpen && r.isScrolled == st.isScrolled
  {
    st.(isOpen := !st.isOpen)
  }

  lemma ToggleTwice(st: HeaderState)
    ensures ToggleMenu(ToggleMenu(st)) == st
  {
  }

  /** `handleScroll` at vertical offset `scrollY`: the new state, and
      whether `setIsScrolled` was called. */
  function HandleScroll(st: HeaderState, scrollY: real): (r: (HeaderState, bool))
    ensures r.0.isScrolled == (scrollY > 0.0) && r.0.isOpen == st.isOpen
    ensures r.1 <==> st.isScrolled != (scrollY > 0.0)
  {
    var shouldBeScrolled := scrollY > 0.0;
    if st.isScrolled != shouldBeScrolled then (st.(isScrolled := shouldBeScrolled), true) else (st, false)
  }

  /** A second scroll event at the same offset writes nothing. */
  lemma ScrollSettles(st: HeaderState, scrollY: real)
    ensures var once := HandleScroll(st, scrollY).0;
      HandleScroll(once, scrollY) == (once, false)
  {
  }
}
