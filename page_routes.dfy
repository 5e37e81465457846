/** `listRoutes`: the walk that emits one row per `page.tsx`, with the
    route built from the folder names and the markers read from the file. */
module PageRoutes {
  import opened Wrappers
  import opened Markers
  import opened Session
  import opened FileTree

  /** The twelve columns of a page row, in table order. */
  datatype PageRow = PageRow(
    functionName: string,
    route: string,
    componentType: string,
    metadata: Option<string>,
    serverAction: bool,
    dynamic: string,
    revalidate: string,
    fetchCache: string,
    parallel: bool,
    intercepting: bool,
    loading: bool,
    error: bool)

  /** The row for the page at `path` with text `text`, in the folder whose listing is `siblings`. */
  function PageRowOf(path: string, text: string, route: string, siblings: seq<Entry>): PageRow {
    PageRow(
      ExtractExportedFunction(text),
      route,
      if IsClientComponent(text) then "use client" else "",
      MetadataColumn(text),
      HasServerAction(text),
      ExtractDynamicValue(text),
      ExtractRevalidateValue(text),
      ExtractFetchCacheValue(text),
      HasParallelRoute(path),
      HasInterceptingRoute(path),
      HasSibling(siblings, LoadingFile),
      HasSibling(siblings, ErrorFile))
  }

  /** The rows a call returns and the globals after it. */
  datatype Scan = Scan(rows: seq<PageRow>, state: State)

  function Then(rows: seq<PageRow>, sc: Scan): Scan {
    Scan(rows + sc.rows, sc.state)
  }

  /** `listRoutes(dir, base)` from globals `st`. A listing that throws is
      caught and gives no rows; so does a page whose read throws, which also
      ends the loop over its folder, while the rows of the folder's earlier
      entries are kept. */
  function PageScan(st: State, dir: string, base: string, l: Listing): Scan
    decreases l, 1
  {
    match l
    case Unlistable => Scan([], st)
    case Listed(_) => PageFrom(st, dir, base, l, 0)
  }

  /** The rows of the entries of `l` from index `i` on. */
  function PageFrom(st: State, dir: string, base: string, l: Listing, i: nat): Scan
    requires l.Listed? && i <= |l.entries|
    decreases l, 0, |l.entries| - i
  {
    if i == |l.entries| then Scan([], st)
    else
      var e := l.entries[i];
      var path := PathJoin(dir, e.name);
      if e.Dir? && !Private(e.name) then
        var sub := PageScan(st, path, base + "/" + e.name, e.listing);
        Then(sub.rows, PageFrom(sub.state, dir, base, l, i + 1))
      else if e.File? && e.name == PageFile then
        var step := Open(st, path, e.content);
        if !step.ok then Scan([], step.state)
        else
          // the file name with `page.tsx` removed is empty
          Then([PageRowOf(path, step.state.content.value, base + "/", l.entries)],
               PageFrom(step.state, dir, base, l, i + 1))
      else PageFrom(st, dir, base, l, i + 1)
  }

  /** `listRoutes(dir, base)` over the globals held by `session`. */
  method ListRoutes(session: FileSession, dir: string, base: string, l: Listing) returns (table: seq<PageRow>)
    modifies session
    ensures Scan(table, session.Current()) == PageScan(old(session.Current()), dir, base, l)
    decreases l
  {
    table := [];
    if l.Unlistable? {
      return;
    }
    ghost var st0 := session.Current();
    var i := 0;
    while i < |l.entries|
      invariant 0 <= i <= |l.entries|
      invariant PageScan(st0, dir, base, l) == Then(table, PageFrom(session.Current(), dir, base, l, i))
    {
      var dirent := l.entries[i];
      var fullPath := PathJoin(dir, dirent.name);
      if dirent.Dir? && !Private(dirent.name) {
        var rows := ListRoutes(session, fullPath, base + "/" + dirent.name, dirent.listing);
        table := table + rows;
      } else if dirent.File? && dirent.name == PageFile {
        var ok := session.SetCurrentFile(fullPath, dirent.content);
        if !ok {
          return;
        }
        var row := PageRowOf(fullPath, session.currentContent.value, base + "/", l.entries);
        table := table + [row];
      }
      i := i + 1;
    }
  }

  /** Nothing beneath a private folder affects the walk: its rows and the
      globals it leaves are those of the tree with private folders emptied. */
  lemma {:induction false} PagePrune(st: State, dir: string, base: string, l: Listing)
    ensures PageScan(st, dir, base, l) == PageScan(st, dir, base, Prune(l))
    decreases l, 1
  {
    if l.Listed? { PageFromPrune(st, dir, base, l, 0); }
  }

  lemma {:induction false} PageFromPrune(st: State, dir: string, base: string, l: Listing, i: nat)
    requires l.Listed? && i <= |l.entries|
    ensures PageFrom(st, dir, base, l, i) == PageFrom(st, dir, base, Prune(l), i)
    decreases l, 0, |l.entries| - i
  {
    if i < |l.entries| {
      var e := l.entries[i];
      var path := PathJoin(dir, e.name);
      PruneShape(l, i);
      if e.Dir? && !Private(e.name) {
        PagePrune(st, path, base + "/" + e.name, e.listing);
        var sub := PageScan(st, path, base + "/" + e.name, e.listing);
        PageFromPrune(sub.state, dir, base, l, i + 1);
      } else if e.File? && e.name == PageFile {
        var step := Open(st, path, e.content);
        if step.ok {
          PruneSiblings(l, LoadingFile);
          PruneSiblings(l, ErrorFile);
          PageFromPrune(step.state, dir, base, l, i + 1);
        }
      } else {
        PageFromPrune(st, dir, base, l, i + 1);
      }
    }
  }

  /** Every `page.tsx` below a public folder can be read. */
  ghost predicate PagesReadable(l: Listing)
    decreases l
  {
    l.Listed? ==> forall k :: 0 <= k < |l.entries| ==>
      (l.entries[k].Dir? && !Private(l.entries[k].name) ==> PagesReadable(l.entries[k].listing))
      && (l.entries[k].File? && l.entries[k].name == PageFile ==> l.entries[k].content.Some?)
  }

  /** The columns of `row` that the page's location decides: route, path flags and sibling flags. */
  predicate Located(row: PageRow, path: string, route: string, siblings: seq<Entry>) {
    row.route == route
    && row.parallel == HasParallelRoute(path) && row.intercepting == HasInterceptingRoute(path)
    && row.loading == HasSibling(siblings, LoadingFile) && row.error == HasSibling(siblings, ErrorFile)
  }

  /** The columns of `row` that the page's text decides. */
  predicate FromText(row: PageRow, text: string) {
    row.functionName == ExtractExportedFunction(text)
    && row.componentType == (if IsClientComponent(text) then "use client" else "")
    && row.metadata == MetadataColumn(text) && row.serverAction == HasServerAction(text)
    && row.dynamic == ExtractDynamicValue(text) && row.revalidate == ExtractRevalidateValue(text)
    && row.fetchCache == ExtractFetchCacheValue(text)
  }

  lemma PageRowOfParts(path: string, text: string, route: string, siblings: seq<Entry>)
    ensures Located(PageRowOf(path, text, route, siblings), path, route, siblings)
    ensures FromText(PageRowOf(path, text, route, siblings), text)
  {
  }

  /** The row at a page site: path, route and sibling flags come from the
      site, the text-derived columns from one text. */
  ghost predicate RowAt(row: PageRow, dir: string, base: string, s: Site) {
    Located(row, dir + Segments(s.trail) + "/" + PageFile, base + Segments(s.trail) + "/", s.siblings)
    && exists text :: FromText(row, text)
  }

  ghost predicate RowsAt(rows: seq<PageRow>, dir: string, base: string, sites: seq<Site>) {
    |rows| == |sites| && forall k :: 0 <= k < |rows| ==> RowAt(rows[k], dir, base, sites[k])
  }

  lemma RowsAtAppend(r1: seq<PageRow>, r2: seq<PageRow>, dir: string, base: string, s1: seq<Site>, s2: seq<Site>)
    requires RowsAt(r1, dir, base, s1) && RowsAt(r2, dir, base, s2)
    ensures RowsAt(r1 + r2, dir, base, s1 + s2)
  {
    forall k | 0 <= k < |r1 + r2| ensures RowAt((r1 + r2)[k], dir, base, (s1 + s2)[k]) {
      if k < |r1| { assert (r1 + r2)[k] == r1[k] && (s1 + s2)[k] == s1[k]; }
      else { assert (r1 + r2)[k] == r2[k - |r1|] && (s1 + s2)[k] == s2[k - |r1|]; }
    }
  }

  lemma RowsAtUnder(rows: seq<PageRow>, dir: string, base: string, name: string, sites: seq<Site>)
    requires RowsAt(rows, PathJoin(dir, name), base + "/" + name, sites)
    ensures RowsAt(rows, dir, base, Under(name, sites))
  {
    forall k | 0 <= k < |rows| ensures RowAt(rows[k], dir, base, Under(name, sites)[k]) {
      var s := sites[k];
      SegmentsUnder(dir, name, s.trail);
      SegmentsUnder(base, name, s.trail);
    }
  }

  /** When every page can be read, the walk emits one row per page site, in
      site order, each with that site's route, path flags and sibling flags. */
  lemma {:induction false} PageSites(st: State, dir: string, base: string, l: Listing)
    requires PagesReadable(l)
    ensures RowsAt(PageScan(st, dir, base, l).rows, dir, base, Sites(l, PageFile))
    decreases l, 1
  {
    if l.Listed? { PageFromSites(st, dir, base, l, 0); }
  }

  lemma {:induction false} PageFromSites(st: State, dir: string, base: string, l: Listing, i: nat)
    requires l.Listed? && i <= |l.entries| && PagesReadable(l)
    ensures RowsAt(PageFrom(st, dir, base, l, i).rows, dir, base, SitesFrom(l, PageFile, i))
    decreases l, 0, |l.entries| - i
  {
    if i < |l.entries| {
      var e := l.entries[i];
      if e.Dir? && !Private(e.name) {
        PageFromSitesDir(st, dir, base, l, i);
      } else if e.File? && e.name == PageFile {
        PageFromSitesPage(st, dir, base, l, i);
      } else {
        PageFromSites(st, dir, base, l, i + 1);
        assert EntrySites(l, PageFile, i) == [];
        assert SitesFrom(l, PageFile, i) == SitesFrom(l, PageFile, i + 1);
      }
    }
  }

  lemma {:induction false} PageFromSitesDir(st: State, dir: string, base: string, l: Listing, i: nat)
    requires l.Listed? && i < |l.entries| && PagesReadable(l)
    requires l.entries[i].Dir? && !Private(l.entries[i].name)
    ensures RowsAt(PageFrom(st, dir, base, l, i).rows, dir, base, SitesFrom(l, PageFile, i))
    decreases l, 0, |l.entries| - i, 0
  {
    var e := l.entries[i];
    var path := PathJoin(dir, e.name);
    var sub := PageScan(st, path, base + "/" + e.name, e.listing);
    var rest := PageFrom(sub.state, dir, base, l, i + 1);
    PageSites(st, path, base + "/" + e.name, e.listing);
    RowsAtUnder(sub.rows, dir, base, e.name, Sites(e.listing, PageFile));
    PageFromSites(sub.state, dir, base, l, i + 1);
    RowsAtAppend(sub.rows, rest.rows, dir, base, EntrySites(l, PageFile, i), SitesFrom(l, PageFile, i + 1));
  }

  lemma {:induction false} PageFromSitesPage(st: State, dir: string, base: string, l: Listing, i: nat)
    requires l.Listed? && i < |l.entries| && PagesReadable(l)
    requires l.entries[i].File? && l.entries[i].name == PageFile
    ensures RowsAt(PageFrom(st, dir, base, l, i).rows, dir, base, SitesFrom(l, PageFile, i))
    decreases l, 0, |l.entries| - i, 0
  {
    var step := Open(st, PathJoin(dir, PageFile), l.entries[i].content);
    var row := PageRowOf(PathJoin(dir, PageFile), step.state.content.value, base + "/", l.entries);
    var rest := PageFrom(step.state, dir, base, l, i + 1);
    assert l.entries[i].content.Some?;
    PageFromPage(st, dir, base, l, i);
    PageRowAtRoot(dir, base, l, step.state.content.value);
    assert EntrySites(l, PageFile, i) == [Site([], l.entries)];
    PageFromSites(step.state, dir, base, l, i + 1);
    RowsAtAppend([row], rest.rows, dir, base, EntrySites(l, PageFile, i), SitesFrom(l, PageFile, i + 1));
  }

  /** A page at index `i` contributes its row and the rest of the listing
      when its read succeeds; otherwise the loop over the folder ends. */
  lemma PageFromPage(st: State, dir: string, base: string, l: Listing, i: nat)
    requires l.Listed? && i < |l.entries|
    requires l.entries[i].File? && l.entries[i].name == PageFile
    ensures var step := Open(st, PathJoin(dir, PageFile), l.entries[i].content);
      PageFrom(st, dir, base, l, i)
        == if step.ok then Then([PageRowOf(PathJoin(dir, PageFile), step.state.content.value, base + "/", l.entries)],
                                PageFrom(step.state, dir, base, l, i + 1))
           else Scan([], step.state)
  {
  }

  /** The row of a page in the listing `l` itself is the row at the site with an empty trail. */
  lemma PageRowAtRoot(dir: string, base: string, l: Listing, text: string)
    requires l.Listed?
    ensures RowAt(PageRowOf(PathJoin(dir, PageFile), text, base + "/", l.entries), dir, base, Site([], l.entries))
  {
    PageRowOfParts(PathJoin(dir, PageFile), text, base + "/", l.entries);
    RowAtRoot(PageRowOf(PathJoin(dir, PageFile), text, base + "/", l.entries), dir, base, l.entries, text);
  }

  lemma RowAtRoot(row: PageRow, dir: string, base: string, siblings: seq<Entry>, text: string)
    requires Located(row, PathJoin(dir, PageFile), base + "/", siblings) && FromText(row, text)
    ensures RowAt(row, dir, base, Site([], siblings))
  {
    assert Segments([]) == [];
    assert dir + [] == dir && base + [] == base;
  }

  /** `row` is the row at one of the sites. */
  ghost predicate RowIn(row: PageRow, dir: string, base: string, sites: seq<Site>) {
    exists j :: 0 <= j < |sites| && RowAt(row, dir, base, sites[j])
  }

  /** Every row is the row at one of the sites: the walk may skip sites,
      but never emits a row anywhere else. */
  ghost predicate RowsIn(rows: seq<PageRow>, dir: string, base: string, sites: seq<Site>) {
    forall k :: 0 <= k < |rows| ==> RowIn(rows[k], dir, base, sites)
  }

  lemma RowInAt(row: PageRow, dir: string, base: string, sites: seq<Site>, j: nat, s: Site)
    requires j < |sites| && sites[j] == s && RowAt(row, dir, base, s)
    ensures RowIn(row, dir, base, sites)
  {
  }

  lemma RowsInAppend(r1: seq<PageRow>, r2: seq<PageRow>, dir: string, base: string, s1: seq<Site>, s2: seq<Site>)
    requires RowsIn(r1, dir, base, s1) && RowsIn(r2, dir, base, s2)
    ensures RowsIn(r1 + r2, dir, base, s1 + s2)
  {
    forall k | 0 <= k < |r1 + r2| ensures RowIn((r1 + r2)[k], dir, base, s1 + s2) {
      if k < |r1| {
        assert (r1 + r2)[k] == r1[k];
        RowInLeft(r1[k], dir, base, s1, s2);
      } else {
        assert (r1 + r2)[k] == r2[k - |r1|];
        RowInRight(r2[k - |r1|], dir, base, s1, s2);
      }
    }
  }

  lemma RowInLeft(row: PageRow, dir: string, base: string, s1: seq<Site>, s2: seq<Site>)
    requires RowIn(row, dir, base, s1)
    ensures RowIn(row, dir, base, s1 + s2)
  {
    var j :| 0 <= j < |s1| && RowAt(row, dir, base, s1[j]);
    var s := s1[j];
    assert (s1 + s2)[j] == s;
    RowInAt(row, dir, base, s1 + s2, j, s);
  }

  lemma RowInRight(row: PageRow, dir: string, base: string, s1: seq<Site>, s2: seq<Site>)
    requires RowIn(row, dir, base, s2)
    ensures RowIn(row, dir, base, s1 + s2)
  {
    var j :| 0 <= j < |s2| && RowAt(row, dir, base, s2[j]);
    var s := s2[j];
    assert (s1 + s2)[j + |s1|] == s;
    RowInAt(row, dir, base, s1 + s2, j + |s1|, s);
  }

  lemma RowsInUnder(rows: seq<PageRow>, dir: string, base: string, name: string, sites: seq<Site>)
    requires RowsIn(rows, PathJoin(dir, name), base + "/" + name, sites)
    ensures RowsIn(rows, dir, base, Under(name, sites))
  {
    forall k | 0 <= k < |rows| ensures RowIn(rows[k], dir, base, Under(name, sites)) {
      assert RowIn(rows[k], PathJoin(dir, name), base + "/" + name, sites);
      var j :| 0 <= j < |sites| && RowAt(rows[k], PathJoin(dir, name), base + "/" + name, sites[j]);
      SegmentsUnder(dir, name, sites[j].trail);
      SegmentsUnder(base, name, sites[j].trail);
      RowInAt(rows[k], dir, base, Under(name, sites), j, Under(name, sites)[j]);
    }
  }

  /** In every tree, readable or not, each row the walk emits is the row at a page site. */
  lemma {:induction false} PageRowsIn(st: State, dir: string, base: string, l: Listing)
    ensures RowsIn(PageScan(st, dir, base, l).rows, dir, base, Sites(l, PageFile))
    decreases l, 1
  {
    if l.Listed? { PageFromRowsIn(st, dir, base, l, 0); }
  }

  lemma {:induction false} PageFromRowsIn(st: State, dir: string, base: string, l: Listing, i: nat)
    requires l.Listed? && i <= |l.entries|
    ensures RowsIn(PageFrom(st, dir, base, l, i).rows, dir, base, SitesFrom(l, PageFile, i))
    decreases l, 0, |l.entries| - i
  {
    if i < |l.entries| {
      var e := l.entries[i];
      if e.Dir? && !Private(e.name) {
        PageFromRowsInDir(st, dir, base, l, i);
      } else if e.File? && e.name == PageFile {
        PageFromRowsInPage(st, dir, base, l, i);
      } else {
        PageFromRowsIn(st, dir, base, l, i + 1);
        assert EntrySites(l, PageFile, i) == [];
        assert SitesFrom(l, PageFile, i) == SitesFrom(l, PageFile, i + 1);
      }
    }
  }

  lemma {:induction false} PageFromRowsInDir(st: State, dir: string, base: string, l: Listing, i: nat)
    requires l.Listed? && i < |l.entries|
    requires l.entries[i].Dir? && !Private(l.entries[i].name)
    ensures RowsIn(PageFrom(st, dir, base, l, i).rows, dir, base, SitesFrom(l, PageFile, i))
    decreases l, 0, |l.entries| - i, 0
  {
    var e := l.entries[i];
    var path := PathJoin(dir, e.name);
    var sub := PageScan(st, path, base + "/" + e.name, e.listing);
    var rest := PageFrom(sub.state, dir, base, l, i + 1);
    PageRowsIn(st, path, base + "/" + e.name, e.listing);
    RowsInUnder(sub.rows, dir, base, e.name, Sites(e.listing, PageFile));
    PageFromRowsIn(sub.state, dir, base, l, i + 1);
    RowsInAppend(sub.rows, rest.rows, dir, base, EntrySites(l, PageFile, i), SitesFrom(l, PageFile, i + 1));
  }

  lemma {:induction false} PageFromRowsInPage(st: State, dir: string, base: string, l: Listing, i: nat)
    requires l.Listed? && i < |l.entries|
    requires l.entries[i].File? && l.entries[i].name == PageFile
    ensures RowsIn(PageFrom(st, dir, base, l, i).rows, dir, base, SitesFrom(l, PageFile, i))
    decreases l, 0, |l.entries| - i, 0
  {
    var step := Open(st, PathJoin(dir, PageFile), l.entries[i].content);
    PageFromPage(st, dir, base, l, i);
    if step.ok {
      PageFromRowsIn(step.state, dir, base, l, i + 1);
      PageRowAndRest(step.state, dir, base, l, i, step.state.content.value);
    }
  }

  lemma PageRowAndRest(st': State, dir: string, base: string, l: Listing, i: nat, text: string)
    requires l.Listed? && i < |l.entries|
    requires l.entries[i].File? && l.entries[i].name == PageFile
    requires RowsIn(PageFrom(st', dir, base, l, i + 1).rows, dir, base, SitesFrom(l, PageFile, i + 1))
    ensures RowsIn([PageRowOf(PathJoin(dir, PageFile), text, base + "/", l.entries)] + PageFrom(st', dir, base, l, i + 1).rows,
                   dir, base, SitesFrom(l, PageFile, i))
  {
    var row := PageRowOf(PathJoin(dir, PageFile), text, base + "/", l.entries);
    PageRowAtRoot(dir, base, l, text);
    assert EntrySites(l, PageFile, i) == [Site([], l.entries)];
    assert SitesFrom(l, PageFile, i) == EntrySites(l, PageFile, i) + SitesFrom(l, PageFile, i + 1);
    RowInAt(row, dir, base, EntrySites(l, PageFile, i), 0, Site([], l.entries));
    RowsInAppend([row], PageFrom(st', dir, base, l, i + 1).rows, dir, base, EntrySites(l, PageFile, i), SitesFrom(l, PageFile, i + 1));
  }

  /** The page routes, in every tree: each row's route is the base, then
      `/<name>` for each folder from the root down to a folder holding a
      `page.tsx` (groups, dynamic segments and slots kept as they are, none
      private), then `/`; a page at the root has route `/` when the base is
      empty. The row's path and sibling flags are those of that folder. */
  lemma PageRoutesShape(st: State, dir: string, base: string, l: Listing, k: nat)
    requires k < |PageScan(st, dir, base, l).rows|
    ensures exists s :: (s in Sites(l, PageFile)
      && RowAt(PageScan(st, dir, base, l).rows[k], dir, base, s)
      && PageScan(st, dir, base, l).rows[k].route == base + Segments(s.trail) + "/"
      && Reaches(l, s.trail, PageFile, s.siblings)
      && (forall j :: 0 <= j < |s.trail| ==> !Private(s.trail[j])))
  {
    PageRowsIn(st, dir, base, l);
    var sites := Sites(l, PageFile);
    assert RowIn(PageScan(st, dir, base, l).rows[k], dir, base, sites);
    var j :| 0 <= j < |sites| && RowAt(PageScan(st, dir, base, l).rows[k], dir, base, sites[j]);
    SitesReach(l, PageFile, sites[j]);
    ReachesPublic(l, sites[j].trail, PageFile, sites[j].siblings);
  }

  /** The tree of a folder `app` holding an unreadable `page.tsx` and then a
      folder `b` with a readable one. */
  const LostSiblingTree: Listing :=
    Listed([File(PageFile, None), Dir("b", Listed([File(PageFile, Some("x"))]))])

  /** As written, the throw of the first read ends the loop over `app`, so
      the page of `b`, listed after it, is lost: two page sites, no row. */
  lemma LostSiblingFolder()
    ensures |Sites(LostSiblingTree, PageFile)| == 2
    ensures PageScan(Initial, "app", "", LostSiblingTree).rows == []
  {
    var l := LostSiblingTree;
    var sub := l.entries[1].listing;
    assert SitesFrom(sub, PageFile, 1) == [];
    assert EntrySites(sub, PageFile, 0) == [Site([], sub.entries)];
    assert |Sites(sub, PageFile)| == 1;
    assert !Private("b") by { assert "b"[0..1][0] == 'b' && "_"[0] == '_'; }
    assert EntrySites(l, PageFile, 1) == Under("b", Sites(sub, PageFile));
    assert SitesFrom(l, PageFile, 2) == [];
    assert |SitesFrom(l, PageFile, 1)| == 1;
    assert |SitesFrom(l, PageFile, 0)| == 2;
    assert !Open(Initial, PathJoin("app", PageFile), None).ok;
  }

  /** `listRoutes` as evidently intended: a page whose read throws gives no
      row, and the loop goes on with the folder's next entry. */
  function PageScanSkipping(st: State, dir: string, base: string, l: Listing): Scan
    decreases l, 1
  {
    match l
    case Unlistable => Scan([], st)
    case Listed(_) => PageFromSkipping(st, dir, base, l, 0)
  }

  function PageFromSkipping(st: State, dir: string, base: string, l: Listing, i: nat): Scan
    requires l.Listed? && i <= |l.entries|
    decreases l, 0, |l.entries| - i
  {
    if i == |l.entries| then Scan([], st)
    else
      var e := l.entries[i];
      var path := PathJoin(dir, e.name);
      if e.Dir? && !Private(e.name) then
        var sub := PageScanSkipping(st, path, base + "/" + e.name, e.listing);
        Then(sub.rows, PageFromSkipping(sub.state, dir, base, l, i + 1))
      else if e.File? && e.name == PageFile then
        var step := Open(st, path, e.content);
        if !step.ok then PageFromSkipping(step.state, dir, base, l, i + 1)
        else
          Then([PageRowOf(path, step.state.content.value, base + "/", l.entries)],
               PageFromSkipping(step.state, dir, base, l, i + 1))
      else PageFromSkipping(st, dir, base, l, i + 1)
  }

  /** On a tree read from the file system, with a cache that agrees with it,
      the corrected walk emits one row per readable page site, in walk order,
      and its cache still agrees with the files. */
  lemma {:induction false} SkippingSites(st: State, dir: string, base: string, l: Listing, files: map<string, string>)
    requires Faithful(st, files) && Snapshot(files, dir, l)
    ensures RowsAt(PageScanSkipping(st, dir, base, l).rows, dir, base, ReadSites(l, PageFile))
    ensures Faithful(PageScanSkipping(st, dir, base, l).state, files)
    decreases l, 1
  {
    if l.Listed? { SkipFromSites(st, dir, base, l, 0, files); }
  }

  lemma {:induction false} SkipFromSites(st: State, dir: string, base: string, l: Listing, i: nat, files: map<string, string>)
    requires l.Listed? && i <= |l.entries|
    requires Faithful(st, files) && Snapshot(files, dir, l)
    ensures RowsAt(PageFromSkipping(st, dir, base, l, i).rows, dir, base, ReadSitesFrom(l, PageFile, i))
    ensures Faithful(PageFromSkipping(st, dir, base, l, i).state, files)
    decreases l, 0, |l.entries| - i
  {
    if i < |l.entries| {
      var e := l.entries[i];
      if e.Dir? && !Private(e.name) {
        SkipFromSitesDir(st, dir, base, l, i, files);
      } else if e.File? && e.name == PageFile {
        SkipFromSitesPage(st, dir, base, l, i, files);
      } else {
        SkipFromSites(st, dir, base, l, i + 1, files);
        assert EntryReadSites(l, PageFile, i) == [];
        assert ReadSitesFrom(l, PageFile, i) == ReadSitesFrom(l, PageFile, i + 1);
      }
    }
  }

  lemma {:induction false} SkipFromSitesDir(st: State, dir: string, base: string, l: Listing, i: nat, files: map<string, string>)
    requires l.Listed? && i < |l.entries|
    requires l.entries[i].Dir? && !Private(l.entries[i].name)
    requires Faithful(st, files) && Snapshot(files, dir, l)
    ensures RowsAt(PageFromSkipping(st, dir, base, l, i).rows, dir, base, ReadSitesFrom(l, PageFile, i))
    ensures Faithful(PageFromSkipping(st, dir, base, l, i).state, files)
    decreases l, 0, |l.entries| - i, 0
  {
    var e := l.entries[i];
    var path := PathJoin(dir, e.name);
    assert Snapshot(files, path, e.listing);
    var sub := PageScanSkipping(st, path, base + "/" + e.name, e.listing);
    var rest := PageFromSkipping(sub.state, dir, base, l, i + 1);
    SkippingSites(st, path, base + "/" + e.name, e.listing, files);
    RowsAtUnder(sub.rows, dir, base, e.name, ReadSites(e.listing, PageFile));
    SkipFromSites(sub.state, dir, base, l, i + 1, files);
    RowsAtAppend(sub.rows, rest.rows, dir, base, EntryReadSites(l, PageFile, i), ReadSitesFrom(l, PageFile, i + 1));
  }

  lemma {:induction false} SkipFromSitesPage(st: State, dir: string, base: string, l: Listing, i: nat, files: map<string, string>)
    requires l.Listed? && i < |l.entries|
    requires l.entries[i].File? && l.entries[i].name == PageFile
    requires Faithful(st, files) && Snapshot(files, dir, l)
    ensures RowsAt(PageFromSkipping(st, dir, base, l, i).rows, dir, base, ReadSitesFrom(l, PageFile, i))
    ensures Faithful(PageFromSkipping(st, dir, base, l, i).state, files)
    decreases l, 0, |l.entries| - i, 1
  {
    var path := PathJoin(dir, PageFile);
    assert l.entries[i].content == ReadFrom(files, path);
    OpenFaithful(st, files, path);
    if Open(st, path, l.entries[i].content).ok {
      SkipPageRead(st, dir, base, l, i, files);
    } else {
      SkipPageLost(st, dir, base, l, i, files);
    }
  }

  /** A readable page: its row, then the rest of the folder. */
  lemma {:induction false} SkipPageRead(st: State, dir: string, base: string, l: Listing, i: nat, files: map<string, string>)
    requires l.Listed? && i < |l.entries|
    requires l.entries[i].File? && l.entries[i].name == PageFile && l.entries[i].content.Some?
    requires Open(st, PathJoin(dir, PageFile), l.entries[i].content).ok
    requires Faithful(Open(st, PathJoin(dir, PageFile), l.entries[i].content).state, files) && Snapshot(files, dir, l)
    ensures RowsAt(PageFromSkipping(st, dir, base, l, i).rows, dir, base, ReadSitesFrom(l, PageFile, i))
    ensures Faithful(PageFromSkipping(st, dir, base, l, i).state, files)
    decreases l, 0, |l.entries| - i, 0
  {
    var step := Open(st, PathJoin(dir, PageFile), l.entries[i].content);
    SkipFromPage(st, dir, base, l, i);
    SkipFromSites(step.state, dir, base, l, i + 1, files);
    SkipRowAndRest(step.state, dir, base, l, i, step.state.content.value);
  }

  /** An unreadable page: no row, and the rest of the folder. */
  lemma {:induction false} SkipPageLost(st: State, dir: string, base: string, l: Listing, i: nat, files: map<string, string>)
    requires l.Listed? && i < |l.entries|
    requires l.entries[i].File? && l.entries[i].name == PageFile && l.entries[i].content.None?
    requires !Open(st, PathJoin(dir, PageFile), l.entries[i].content).ok
    requires Faithful(Open(st, PathJoin(dir, PageFile), l.entries[i].content).state, files) && Snapshot(files, dir, l)
    ensures RowsAt(PageFromSkipping(st, dir, base, l, i).rows, dir, base, ReadSitesFrom(l, PageFile, i))
    ensures Faithful(PageFromSkipping(st, dir, base, l, i).state, files)
    decreases l, 0, |l.entries| - i, 0
  {
    var step := Open(st, PathJoin(dir, PageFile), l.entries[i].content);
    SkipFromPage(st, dir, base, l, i);
    SkipFromSites(step.state, dir, base, l, i + 1, files);
    assert EntryReadSites(l, PageFile, i) == [];
    assert ReadSitesFrom(l, PageFile, i) == ReadSitesFrom(l, PageFile, i + 1);
  }

  lemma SkipRowAndRest(st': State, dir: string, base: string, l: Listing, i: nat, text: string)
    requires l.Listed? && i < |l.entries|
    requires l.entries[i].File? && l.entries[i].name == PageFile && l.entries[i].content.Some?
    requires RowsAt(PageFromSkipping(st', dir, base, l, i + 1).rows, dir, base, ReadSitesFrom(l, PageFile, i + 1))
    ensures RowsAt([PageRowOf(PathJoin(dir, PageFile), text, base + "/", l.entries)] + PageFromSkipping(st', dir, base, l, i + 1).rows,
                   dir, base, ReadSitesFrom(l, PageFile, i))
  {
    PageRowAtRoot(dir, base, l, text);
    assert EntryReadSites(l, PageFile, i) == [Site([], l.entries)];
    RowsAtAppend([PageRowOf(PathJoin(dir, PageFile), text, base + "/", l.entries)], PageFromSkipping(st', dir, base, l, i + 1).rows,
                 dir, base, EntryReadSites(l, PageFile, i), ReadSitesFrom(l, PageFile, i + 1));
  }

  /** A page at index `i` of the corrected walk: its row, when it reads,
      then the rest of the listing either way. */
  lemma SkipFromPage(st: State, dir: string, base: string, l: Listing, i: nat)
    requires l.Listed? && i < |l.entries|
    requires l.entries[i].File? && l.entries[i].name == PageFile
    ensures var step := Open(st, PathJoin(dir, PageFile), l.entries[i].content);
      PageFromSkipping(st, dir, base, l, i)
        == if step.ok then Then([PageRowOf(PathJoin(dir, PageFile), step.state.content.value, base + "/", l.entries)],
                                PageFromSkipping(step.state, dir, base, l, i + 1))
           else PageFromSkipping(step.state, dir, base, l, i + 1)
  {
  }

  /** Where every page can be read, the corrected walk and the walk as
      written agree, in rows and in the globals they leave. */
  lemma {:induction false} SkippingAgrees(st: State, dir: string, base: string, l: Listing)
    requires PagesReadable(l)
    ensures PageScanSkipping(st, dir, base, l) == PageScan(st, dir, base, l)
    decreases l, 1
  {
    if l.Listed? { SkipFromAgrees(st, dir, base, l, 0); }
  }

  lemma {:induction false} SkipFromAgrees(st: State, dir: string, base: string, l: Listing, i: nat)
    requires l.Listed? && i <= |l.entries| && PagesReadable(l)
    ensures PageFromSkipping(st, dir, base, l, i) == PageFrom(st, dir, base, l, i)
    decreases l, 0, |l.entries| - i
  {
    if i < |l.entries| {
      var e := l.entries[i];
      var path := PathJoin(dir, e.name);
      if e.Dir? && !Private(e.name) {
        SkippingAgrees(st, path, base + "/" + e.name, e.listing);
        SkipFromAgrees(PageScan(st, path, base + "/" + e.name, e.listing).state, dir, base, l, i + 1);
      } else if e.File? && e.name == PageFile {
        assert e.content.Some?;
        SkipFromAgrees(Open(st, path, e.content).state, dir, base, l, i + 1);
      } else {
        SkipFromAgrees(st, dir, base, l, i + 1);
      }
    }
  }

  /** The corrected walk keeps the page of `b` on the tree that loses it as
      written: one row, with route `/b/`. */
  lemma SkippingKeepsSibling()
    ensures |PageScanSkipping(Initial, "app", "", LostSiblingTree).rows| == 1
    ensures PageScanSkipping(Initial, "app", "", LostSiblingTree).rows[0].route == "/b/"
  {
    var files := map[PathJoin(PathJoin("app", "b"), PageFile) := "x"];
    var l := LostSiblingTree;
    var sub := l.entries[1].listing;
    assert PathJoin("app", PageFile) != PathJoin(PathJoin("app", "b"), PageFile);
    assert Snapshot(files, PathJoin("app", "b"), sub);
    assert Snapshot(files, "app", l);
    SkippingSites(Initial, "app", "", l, files);
    assert ReadSitesFrom(sub, PageFile, 1) == [];
    assert EntryReadSites(sub, PageFile, 0) == [Site([], sub.entries)];
    assert ReadSites(sub, PageFile) == [Site([], sub.entries)];
    assert !Private("b") by { assert "b"[0..1][0] == 'b' && "_"[0] == '_'; }
    assert EntryReadSites(l, PageFile, 1) == Under("b", ReadSites(sub, PageFile));
    assert EntryReadSites(l, PageFile, 0) == [];
    assert ["b"] + Site([], sub.entries).trail == ["b"];
    assert Under("b", ReadSites(sub, PageFile)) == [Site(["b"], sub.entries)];
    assert ReadSitesFrom(l, PageFile, 2) == [];
    assert ReadSitesFrom(l, PageFile, 1) == [Site(["b"], sub.entries)];
    assert ReadSites(l, PageFile) == [Site(["b"], sub.entries)];
    assert Segments(["b"]) == "/b";
  }
}
