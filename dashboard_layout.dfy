/** The active-navigation rule of `src/components/Layout/DashboardLayout.tsx`:
    which sidebar entry is highlighted for the current pathname, and the
    title shown in the top bar. */
module DashboardLayout {
  import opened Wrappers
  import opened Text
  import opened Sequences

  /** A sidebar entry; its icon is left out. */
  datatype NavItem = NavItem(name: string, href: string)

  const NavigationItems: seq<NavItem> := [
    NavItem("Dashboard", "/dashboard"),
    NavItem("Courses", "/courses"),
    NavItem("Assignments", "/assignments"),
    NavItem("Quizzes", "/quizzes"),
    NavItem("Profile", "/profile")
  ]

  /** `isActivePath(path)` with `pathname` the location's path: the path
      itself, or anything below it: `path` starts `pathname` and ends
      there or at a `/`. */
  predicate IsActivePath(pathname: string, path: string)
    ensures IsActivePath(pathname, path) <==>
              StartsWith(pathname, path) && (|pathname| == |path| || pathname[|path|] == '/')
  {
    assert |pathname| > |path| ==> pathname[..|path| + 1] == pathname[..|path|] + [pathname[|path|]];
    pathname == path || StartsWith(pathname, path + "/")
  }

  /** An independent reading of the rule: the `/`-separated steps of
      `path` are the first steps of `pathname`. */
  lemma ActiveIffStepPrefix(pathname: string, path: string)
    ensures IsActivePath(pathname, path) <==> Split(path, '/') <= Split(pathname, '/')
  {
    if IsActivePath(pathname, path) {
      ActiveHasStepPrefix(pathname, path);
    }
    if Split(path, '/') <= Split(pathname, '/') {
      StepPrefixIsActive(pathname, path);
    }
  }

  lemma ActiveHasStepPrefix(pathname: string, path: string)
    requires IsActivePath(pathname, path)
    ensures Split(path, '/') <= Split(pathname, '/')
  {
    if pathname != path {
      var rest := pathname[|path| + 1..];
      assert pathname == path + ['/'] + rest;
      SplitAround(path, rest, '/');
    }
  }

  lemma StepPrefixIsActive(pathname: string, path: string)
    requires Split(path, '/') <= Split(pathname, '/')
    ensures IsActivePath(pathname, path)
  {
    var xs, zs := Split(path, '/'), Split(pathname, '/');
    JoinSplit(path, '/');
    JoinSplit(pathname, '/');
    if |zs| == |xs| {
      assert zs == xs;
    } else {
      var ys := zs[|xs|..];
      assert zs == xs + ys;
      JoinAppend(xs, ys, '/');
      assert pathname == path + "/" + Join(ys, '/');
      assert pathname[..|path| + 1] == path + "/";
    }
  }

  /** A path that only shares a prefix without a `/` is not active. */
  lemma SharedPrefixIsNotActive()
    ensures !IsActivePath("/coursesX", "/courses")
    ensures IsActivePath("/courses/42", "/courses")
  {
    assert "/coursesX"[8] == 'X';
    assert "/courses/42"[..9] == "/courses/";
  }

  /** Two paths active for the same pathname lie one below the other. */
  lemma ActiveComparable(pathname: string, p: string, q: string)
    requires IsActivePath(pathname, p) && IsActivePath(pathname, q)
    ensures IsActivePath(p, q) || IsActivePath(q, p)
  {
    if |p| <= |q| {
      assert forall k :: 0 <= k < |p| ==> q[k] == pathname[k] == p[k];
      assert |q| == |p| || q[|p|] == pathname[|p|] == '/';
      assert IsActivePath(q, p);
    } else {
      assert forall k :: 0 <= k < |q| ==> p[k] == pathname[k] == q[k];
      assert p[|q|] == pathname[|q|] == '/';
      assert IsActivePath(p, q);
    }
  }

  /** No entry's href lies below another's, and no two are equal. */
  lemma HrefsSeparated()
    ensures forall i, j :: 0 <= i < |NavigationItems| && 0 <= j < |NavigationItems| && i != j ==>
              !IsActivePath(NavigationItems[i].href, NavigationItems[j].href)
  {
    forall i, j | 0 <= i < |NavigationItems| && 0 <= j < |NavigationItems| && i != j
      ensures !IsActivePath(NavigationItems[i].href, NavigationItems[j].href)
    {
      var a, b := NavigationItems[i].href, NavigationItems[j].href;
      assert a[1] != b[1] || |a| != |b| || a[2] != b[2];
    }
  }

  /** For the fixed list, at most one entry is active. */
  lemma AtMostOneActive(pathname: string, i: nat, j: nat)
    requires i < |NavigationItems| && j < |NavigationItems|
    requires IsActivePath(pathname, NavigationItems[i].href)
    requires IsActivePath(pathname, NavigationItems[j].href)
    ensures i == j
  {
    ActiveComparable(pathname, NavigationItems[i].href, NavigationItems[j].href);
    HrefsSeparated();
  }

  /** The title in the top bar: the name of the first active entry, or
      `Dashboard` when none is active (or its name is empty). */
  function HeaderTitle(pathname: string): (r: string)
    ensures (forall i :: 0 <= i < |NavigationItems| ==> !IsActivePath(pathname, NavigationItems[i].href))
            ==> r == "Dashboard"
  {
    match FindIndex(NavigationItems, (item: NavItem) => IsActivePath(pathname, item.href))
    case None => "Dashboard"
    case Some(i) => if NavigationItems[i].name != "" then NavigationItems[i].name else "Dashboard"
  }

  /** Whichever entry is active names the title. */
  lemma TitleOfActive(pathname: string, i: nat)
    requires i < |NavigationItems| && IsActivePath(pathname, NavigationItems[i].href)
    ensures HeaderTitle(pathname) == NavigationItems[i].name
  {
    var p := (item: NavItem) => IsActivePath(pathname, item.href);
    forall j | 0 <= j < |NavigationItems| && p(NavigationItems[j])
      ensures j == i
    {
      AtMostOneActive(pathname, i, j);
    }
    FindUnique(NavigationItems, p, i);
  }
}
