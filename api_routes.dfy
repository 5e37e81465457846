/** `listApiRoutes`: the walk that emits, for each `route.ts`, one row per
    HTTP method the file handles. It has no `try`: a listing or a read that
    throws ends the whole walk. */
module ApiRoutes {
  import opened Wrappers
  import opened Markers
  import opened HttpMethods
  import opened Session
  import opened FileTree

  /** The three columns of an API row. */
  datatype ApiRow = ApiRow(verb: string, functionName: string, route: string)

  /** The rows of one `route.ts` with text `text` at `route`: one per entry of
      `extractHttpMethods`, in its order, all sharing the file's default-export
      name and the route. */
  function FileRows(text: string, route: string): seq<ApiRow>
  {
    RowsFor(HttpMethodsOf(text), ExtractExportedFunction(text), route)
  }

  /** One row per method, in order, with the given name and route. */
  function RowsFor(methods: seq<string>, name: string, route: string): (rows: seq<ApiRow>)
    ensures |rows| == |methods|
    ensures forall k :: 0 <= k < |rows| ==> rows[k] == ApiRow(methods[k], name, route)
  {
    seq(|methods|, k requires 0 <= k < |methods| => ApiRow(methods[k], name, route))
  }

  /** `methods.forEach(method => table.push([method, functionName, route]))`. */
  method PushRows(table: seq<ApiRow>, methods: seq<string>, functionName: string, route: string) returns (result: seq<ApiRow>)
    ensures result == table + RowsFor(methods, functionName, route)
  {
    result := table;
    var j := 0;
    while j < |methods|
      invariant 0 <= j <= |methods|
      invariant result == table + RowsFor(methods, functionName, route)[..j]
    {
      result := result + [ApiRow(methods[j], functionName, route)];
      j := j + 1;
      assert RowsFor(methods, functionName, route)[..j]
        == RowsFor(methods, functionName, route)[..j - 1] + [ApiRow(methods[j - 1], functionName, route)];
    }
    assert RowsFor(methods, functionName, route)[..j] == RowsFor(methods, functionName, route);
  }

  /** A route file yields as many rows as `extractHttpMethods` has entries,
      at least one, each with its entry, and all with the file's name and route. */
  lemma FileRowsShape(text: string, route: string)
    ensures |FileRows(text, route)| == |HttpMethodsOf(text)| >= 1
    ensures forall k :: 0 <= k < |FileRows(text, route)| ==>
      FileRows(text, route)[k] == ApiRow(HttpMethodsOf(text)[k], ExtractExportedFunction(text), route)
  {
  }

  /** What a call gives: its rows and the globals after it, or the globals
      at the throw that ended it. */
  datatype Outcome = Completed(rows: seq<ApiRow>, state: State) | Aborted(state: State)

  function Prepend(rows: seq<ApiRow>, o: Outcome): Outcome {
    match o
    case Completed(rest, st) => Completed(rows + rest, st)
    case Aborted(st) => Aborted(st)
  }

  /** `listApiRoutes(dir, base)` from globals `st`. */
  function ApiScan(st: State, dir: string, base: string, l: Listing): Outcome
    decreases l, 1
  {
    match l
    case Unlistable => Aborted(st)
    case Listed(_) => ApiFrom(st, dir, base, l, 0)
  }

  /** The rows of the entries of `l` from index `i` on. */
  function ApiFrom(st: State, dir: string, base: string, l: Listing, i: nat): Outcome
    requires l.Listed? && i <= |l.entries|
    decreases l, 0, |l.entries| - i
  {
    if i == |l.entries| then Completed([], st)
    else
      var e := l.entries[i];
      var path := PathJoin(dir, e.name);
      if e.Dir? && !Private(e.name) then
        match ApiScan(st, path, base + "/" + e.name, e.listing)
        case Aborted(st') => Aborted(st')
        case Completed(rows, st') => Prepend(rows, ApiFrom(st', dir, base, l, i + 1))
      else if e.File? && e.name == RouteFile then
        var step := Open(st, path, e.content);
        if !step.ok then Aborted(step.state)
        else Prepend(FileRows(step.state.content.value, base + "/route"), ApiFrom(step.state, dir, base, l, i + 1))
      else ApiFrom(st, dir, base, l, i + 1)
  }

  /** `listApiRoutes(dir, base)` over the globals held by `session`; `ok` is
      `false` where the call throws. */
  method ListApiRoutes(session: FileSession, dir: string, base: string, l: Listing) returns (table: seq<ApiRow>, ok: bool)
    modifies session
    ensures ok ==> ApiScan(old(session.Current()), dir, base, l) == Completed(table, session.Current())
    ensures !ok ==> ApiScan(old(session.Current()), dir, base, l) == Aborted(session.Current())
    decreases l
  {
    table := [];
    if l.Unlistable? {
      return table, false;
    }
    ghost var st0 := session.Current();
    var i := 0;
    while i < |l.entries|
      invariant 0 <= i <= |l.entries|
      invariant ApiScan(st0, dir, base, l) == Prepend(table, ApiFrom(session.Current(), dir, base, l, i))
    {
      var dirent := l.entries[i];
      var fullPath := PathJoin(dir, dirent.name);
      ghost var before := session.Current();
      if dirent.Dir? && !Private(dirent.name) {
        ApiFromDir(before, dir, base, l, i);
        var rows, subOk := ListApiRoutes(session, fullPath, base + "/" + dirent.name, dirent.listing);
        if !subOk {
          return table, false;
        }
        PrependPrepend(table, rows, ApiFrom(session.Current(), dir, base, l, i + 1));
        table := table + rows;
      } else if dirent.File? && dirent.name == RouteFile {
        ApiFromFile(before, dir, base, l, i);
        var read := session.SetCurrentFile(fullPath, dirent.content);
        if !read {
          return table, false;
        }
        var text := session.currentContent.value;
        var route := base + "/route";
        var methods := ExtractHttpMethods(text);
        var functionName := ExtractExportedFunction(text);
        PrependPrepend(table, FileRows(text, route), ApiFrom(session.Current(), dir, base, l, i + 1));
        table := PushRows(table, methods, functionName, route);
      } else {
        ApiFromOther(before, dir, base, l, i);
      }
      i := i + 1;
    }
    ok := true;
  }

  /** One step of the walk, for each kind of entry. */
  lemma ApiFromDir(st: State, dir: string, base: string, l: Listing, i: nat)
    requires l.Listed? && i < |l.entries| && l.entries[i].Dir? && !Private(l.entries[i].name)
    ensures var sub := ApiScan(st, PathJoin(dir, l.entries[i].name), base + "/" + l.entries[i].name, l.entries[i].listing);
      ApiFrom(st, dir, base, l, i)
      == if sub.Aborted? then Aborted(sub.state) else Prepend(sub.rows, ApiFrom(sub.state, dir, base, l, i + 1))
  {
  }

  lemma ApiFromFile(st: State, dir: string, base: string, l: Listing, i: nat)
    requires l.Listed? && i < |l.entries| && l.entries[i].File? && l.entries[i].name == RouteFile
    ensures var step := Open(st, PathJoin(dir, l.entries[i].name), l.entries[i].content);
      ApiFrom(st, dir, base, l, i)
      == if !step.ok then Aborted(step.state)
         else Prepend(FileRows(step.state.content.value, base + "/route"), ApiFrom(step.state, dir, base, l, i + 1))
  {
  }

  lemma ApiFromOther(st: State, dir: string, base: string, l: Listing, i: nat)
    requires l.Listed? && i < |l.entries|
    requires !(l.entries[i].Dir? && !Private(l.entries[i].name)) && !(l.entries[i].File? && l.entries[i].name == RouteFile)
    ensures ApiFrom(st, dir, base, l, i) == ApiFrom(st, dir, base, l, i + 1)
  {
  }

  lemma PrependPrepend(a: seq<ApiRow>, b: seq<ApiRow>, o: Outcome)
    ensures Prepend(a, Prepend(b, o)) == Prepend(a + b, o)
  {
    if o.Completed? { assert a + (b + o.rows) == (a + b) + o.rows; }
  }

  /** Nothing beneath a private folder affects the walk. */
  lemma {:induction false} ApiPrune(st: State, dir: string, base: string, l: Listing)
    ensures ApiScan(st, dir, base, l) == ApiScan(st, dir, base, Prune(l))
    decreases l, 1
  {
    if l.Listed? { ApiFromPrune(st, dir, base, l, 0); }
  }

  lemma {:induction false} ApiFromPrune(st: State, dir: string, base: string, l: Listing, i: nat)
    requires l.Listed? && i <= |l.entries|
    ensures ApiFrom(st, dir, base, l, i) == ApiFrom(st, dir, base, Prune(l), i)
    decreases l, 0, |l.entries| - i
  {
    if i < |l.entries| {
      var e := l.entries[i];
      var path := PathJoin(dir, e.name);
      PruneShape(l, i);
      if e.Dir? && !Private(e.name) {
        ApiPrune(st, path, base + "/" + e.name, e.listing);
        var sub := ApiScan(st, path, base + "/" + e.name, e.listing);
        if sub.Completed? { ApiFromPrune(sub.state, dir, base, l, i + 1); }
      } else if e.File? && e.name == RouteFile {
        var step := Open(st, path, e.content);
        if step.ok { ApiFromPrune(step.state, dir, base, l, i + 1); }
      } else {
        ApiFromPrune(st, dir, base, l, i + 1);
      }
    }
  }

  /** Every public folder can be listed. */
  ghost predicate Listable(l: Listing)
    decreases l
  {
    l.Listed? && forall k :: 0 <= k < |l.entries| ==>
      (l.entries[k].Dir? && !Private(l.entries[k].name) ==> Listable(l.entries[k].listing))
  }

  /** Every public folder can be listed and every `route.ts` under one can be read. */
  ghost predicate ApiReadable(l: Listing)
    decreases l
  {
    l.Listed? && forall k :: 0 <= k < |l.entries| ==>
      (l.entries[k].Dir? && !Private(l.entries[k].name) ==> ApiReadable(l.entries[k].listing))
      && (l.entries[k].File? && l.entries[k].name == RouteFile ==> l.entries[k].content.Some?)
  }

  /** A walk that completes has listed every public folder: a folder that
      cannot be listed anywhere below the root ends the walk. */
  lemma {:induction false} CompletedListable(st: State, dir: string, base: string, l: Listing)
    requires ApiScan(st, dir, base, l).Completed?
    ensures Listable(l)
    decreases l, 1
  {
    forall k | 0 <= k < |l.entries| && l.entries[k].Dir? && !Private(l.entries[k].name)
      ensures Listable(l.entries[k].listing)
    {
      var st', dir', base' := ApiFromReaches(st, dir, base, l, 0, k);
      CompletedListable(st', dir', base', l.entries[k].listing);
    }
  }

  /** The walk of entry `k` runs and completes whenever the walk from `i` completes. */
  lemma {:induction false} ApiFromReaches(st: State, dir: string, base: string, l: Listing, i: nat, k: nat)
    returns (st': State, dir': string, base': string)
    requires l.Listed? && i <= k < |l.entries| && ApiFrom(st, dir, base, l, i).Completed?
    requires l.entries[k].Dir? && !Private(l.entries[k].name)
    ensures ApiScan(st', dir', base', l.entries[k].listing).Completed?
    decreases k - i
  {
    var e := l.entries[i];
    var path := PathJoin(dir, e.name);
    if i == k {
      st', dir', base' := st, path, base + "/" + e.name;
    } else if e.Dir? && !Private(e.name) {
      var sub := ApiScan(st, path, base + "/" + e.name, e.listing);
      st', dir', base' := ApiFromReaches(sub.state, dir, base, l, i + 1, k);
    } else if e.File? && e.name == RouteFile {
      st', dir', base' := ApiFromReaches(Open(st, path, e.content).state, dir, base, l, i + 1, k);
    } else {
      st', dir', base' := ApiFromReaches(st, dir, base, l, i + 1, k);
    }
  }

  /** A tree whose public folders list and whose route files read is walked to the end. */
  lemma {:induction false} ReadableCompletes(st: State, dir: string, base: string, l: Listing)
    requires ApiReadable(l)
    ensures ApiScan(st, dir, base, l).Completed?
    decreases l, 1
  {
    ApiFromCompletes(st, dir, base, l, 0);
  }

  lemma {:induction false} ApiFromCompletes(st: State, dir: string, base: string, l: Listing, i: nat)
    requires l.Listed? && i <= |l.entries| && ApiReadable(l)
    ensures ApiFrom(st, dir, base, l, i).Completed?
    decreases l, 0, |l.entries| - i
  {
    if i < |l.entries| {
      var e := l.entries[i];
      var path := PathJoin(dir, e.name);
      if e.Dir? && !Private(e.name) {
        ReadableCompletes(st, path, base + "/" + e.name, e.listing);
        var sub := ApiScan(st, path, base + "/" + e.name, e.listing);
        ApiFromCompletes(sub.state, dir, base, l, i + 1);
      } else if e.File? && e.name == RouteFile {
        ApiFromCompletes(Open(st, path, e.content).state, dir, base, l, i + 1);
      } else {
        ApiFromCompletes(st, dir, base, l, i + 1);
      }
    }
  }

  /** The route of each site: the folder names below the base, then `/route`. */
  function SiteRoutes(base: string, sites: seq<Site>): (r: seq<string>)
    ensures |r| == |sites|
    ensures forall k :: 0 <= k < |r| ==> r[k] == base + Segments(sites[k].trail) + "/route"
  {
    seq(|sites|, k requires 0 <= k < |sites| => base + Segments(sites[k].trail) + "/route")
  }

  /** The rows of a sequence of route files, file after file. */
  function Concat(chunks: seq<seq<ApiRow>>): seq<ApiRow>
  {
    if chunks == [] then [] else chunks[0] + Concat(chunks[1..])
  }

  lemma {:induction false} ConcatAppend(c1: seq<seq<ApiRow>>, c2: seq<seq<ApiRow>>)
    ensures Concat(c1 + c2) == Concat(c1) + Concat(c2)
    decreases |c1|
  {
    if c1 != [] {
      assert (c1 + c2)[0] == c1[0];
      assert (c1 + c2)[1..] == c1[1..] + c2;
      ConcatAppend(c1[1..], c2);
      assert Concat(c1 + c2) == c1[0] + (Concat(c1[1..]) + Concat(c2));
    } else {
      assert c1 + c2 == c2;
    }
  }

  /** The rows of each route file, given its text and its route. */
  function Chunks(texts: seq<string>, routes: seq<string>): (r: seq<seq<ApiRow>>)
    requires |texts| == |routes|
    ensures |r| == |texts|
  {
    seq(|texts|, k requires 0 <= k < |texts| => FileRows(texts[k], routes[k]))
  }

  lemma ChunksAppend(t1: seq<string>, r1: seq<string>, t2: seq<string>, r2: seq<string>)
    requires |t1| == |r1| && |t2| == |r2|
    ensures Chunks(t1 + t2, r1 + r2) == Chunks(t1, r1) + Chunks(t2, r2)
  {
    var left := Chunks(t1 + t2, r1 + r2);
    var right := Chunks(t1, r1) + Chunks(t2, r2);
    forall k | 0 <= k < |left| ensures left[k] == right[k] {
      if k < |t1| { assert (t1 + t2)[k] == t1[k] && (r1 + r2)[k] == r1[k]; }
      else { assert (t1 + t2)[k] == t2[k - |t1|] && (r1 + r2)[k] == r2[k - |t1|]; }
    }
  }

  /** The rows of the route files of `texts` at `routes`, file after file. */
  function Flatten(texts: seq<string>, routes: seq<string>): seq<ApiRow>
    requires |texts| == |routes|
  {
    Concat(Chunks(texts, routes))
  }

  lemma FlattenAppend(t1: seq<string>, r1: seq<string>, t2: seq<string>, r2: seq<string>)
    requires |t1| == |r1| && |t2| == |r2|
    ensures Flatten(t1 + t2, r1 + r2) == Flatten(t1, r1) + Flatten(t2, r2)
  {
    ChunksAppend(t1, r1, t2, r2);
    ConcatAppend(Chunks(t1, r1), Chunks(t2, r2));
  }

  /** A walk that completes emits, for each route-file site in walk order,
      the rows of one text at that site's route. When the cache agrees with
      the files `files` and the tree is a snapshot of them, that text is the
      file's own: what `files` holds at the site's path. */
  lemma ApiSites(st: State, dir: string, base: string, l: Listing, files: map<string, string>)
    requires ApiScan(st, dir, base, l).Completed?
    ensures exists texts :: (|texts| == |Sites(l, RouteFile)|
      && ApiScan(st, dir, base, l).rows == Flatten(texts, SiteRoutes(base, Sites(l, RouteFile)))
      && (Faithful(st, files) && Snapshot(files, dir, l) ==> TextsAt(texts, files, dir, Sites(l, RouteFile))))
  {
    var texts := ApiScanTexts(st, dir, base, l, files);
  }

  /** Text `k` is what `files` holds at the path of route-file site `k`. */
  ghost predicate TextsAt(texts: seq<string>, files: map<string, string>, dir: string, sites: seq<Site>) {
    |texts| == |sites| && forall k :: 0 <= k < |texts| ==>
      SitePath(dir, sites[k], RouteFile) in files && texts[k] == files[SitePath(dir, sites[k], RouteFile)]
  }

  lemma TextsAtAppend(t1: seq<string>, t2: seq<string>, files: map<string, string>, dir: string, s1: seq<Site>, s2: seq<Site>)
    requires TextsAt(t1, files, dir, s1) && TextsAt(t2, files, dir, s2)
    ensures TextsAt(t1 + t2, files, dir, s1 + s2)
  {
    forall k | 0 <= k < |t1 + t2|
      ensures SitePath(dir, (s1 + s2)[k], RouteFile) in files && (t1 + t2)[k] == files[SitePath(dir, (s1 + s2)[k], RouteFile)]
    {
      if k < |t1| { assert (t1 + t2)[k] == t1[k] && (s1 + s2)[k] == s1[k]; }
      else { assert (t1 + t2)[k] == t2[k - |t1|] && (s1 + s2)[k] == s2[k - |t1|]; }
    }
  }

  lemma TextsAtUnder(texts: seq<string>, files: map<string, string>, dir: string, name: string, sites: seq<Site>)
    requires TextsAt(texts, files, PathJoin(dir, name), sites)
    ensures TextsAt(texts, files, dir, Under(name, sites))
  {
    forall k | 0 <= k < |texts|
      ensures SitePath(dir, Under(name, sites)[k], RouteFile) in files && texts[k] == files[SitePath(dir, Under(name, sites)[k], RouteFile)]
    {
      SitePathUnder(dir, name, sites[k], RouteFile);
    }
  }

  lemma {:induction false} ApiScanTexts(st: State, dir: string, base: string, l: Listing, files: map<string, string>) returns (texts: seq<string>)
    requires ApiScan(st, dir, base, l).Completed?
    ensures |texts| == |Sites(l, RouteFile)|
    ensures ApiScan(st, dir, base, l).rows == Flatten(texts, SiteRoutes(base, Sites(l, RouteFile)))
    ensures Faithful(st, files) && Snapshot(files, dir, l) ==>
      TextsAt(texts, files, dir, Sites(l, RouteFile)) && Faithful(ApiScan(st, dir, base, l).state, files)
    decreases l, 1
  {
    texts := ApiFromTexts(st, dir, base, l, 0, files);
  }

  lemma {:induction false} ApiFromTexts(st: State, dir: string, base: string, l: Listing, i: nat, files: map<string, string>) returns (texts: seq<string>)
    requires l.Listed? && i <= |l.entries| && ApiFrom(st, dir, base, l, i).Completed?
    ensures |texts| == |SitesFrom(l, RouteFile, i)|
    ensures ApiFrom(st, dir, base, l, i).rows == Flatten(texts, SiteRoutes(base, SitesFrom(l, RouteFile, i)))
    ensures Faithful(st, files) && Snapshot(files, dir, l) ==>
      TextsAt(texts, files, dir, SitesFrom(l, RouteFile, i)) && Faithful(ApiFrom(st, dir, base, l, i).state, files)
    decreases l, 0, |l.entries| - i
  {
    if i == |l.entries| {
      texts := [];
    } else {
      var e := l.entries[i];
      if e.Dir? && !Private(e.name) {
        texts := ApiFromTextsDir(st, dir, base, l, i, files);
      } else if e.File? && e.name == RouteFile {
        texts := ApiFromTextsFile(st, dir, base, l, i, files);
      } else {
        texts := ApiFromTexts(st, dir, base, l, i + 1, files);
        ApiFromOther(st, dir, base, l, i);
        assert EntrySites(l, RouteFile, i) == [];
        assert SitesFrom(l, RouteFile, i) == SitesFrom(l, RouteFile, i + 1);
      }
    }
  }

  lemma {:induction false} ApiFromTextsDir(st: State, dir: string, base: string, l: Listing, i: nat, files: map<string, string>) returns (texts: seq<string>)
    requires l.Listed? && i < |l.entries| && ApiFrom(st, dir, base, l, i).Completed?
    requires l.entries[i].Dir? && !Private(l.entries[i].name)
    ensures |texts| == |SitesFrom(l, RouteFile, i)|
    ensures ApiFrom(st, dir, base, l, i).rows == Flatten(texts, SiteRoutes(base, SitesFrom(l, RouteFile, i)))
    ensures Faithful(st, files) && Snapshot(files, dir, l) ==>
      TextsAt(texts, files, dir, SitesFrom(l, RouteFile, i)) && Faithful(ApiFrom(st, dir, base, l, i).state, files)
    decreases l, 0, |l.entries| - i, 0
  {
    var e := l.entries[i];
    var base' := base + "/" + e.name;
    var sub := ApiScan(st, PathJoin(dir, e.name), base', e.listing);
    ApiFromDir(st, dir, base, l, i);
    var t1 := ApiScanTexts(st, PathJoin(dir, e.name), base', e.listing, files);
    var t2 := ApiFromTexts(sub.state, dir, base, l, i + 1, files);
    texts := t1 + t2;
    DirSiteRoutes(l, base, i);
    FlattenAppend(t1, SiteRoutes(base', Sites(e.listing, RouteFile)), t2, SiteRoutes(base, SitesFrom(l, RouteFile, i + 1)));
    if Faithful(st, files) && Snapshot(files, dir, l) {
      assert Snapshot(files, PathJoin(dir, e.name), e.listing);
      TextsAtUnder(t1, files, dir, e.name, Sites(e.listing, RouteFile));
      TextsAtAppend(t1, t2, files, dir, Under(e.name, Sites(e.listing, RouteFile)), SitesFrom(l, RouteFile, i + 1));
    }
  }

  /** A folder at index `i` contributes its own sites' routes, below its name, first. */
  lemma DirSiteRoutes(l: Listing, base: string, i: nat)
    requires l.Listed? && i < |l.entries| && l.entries[i].Dir? && !Private(l.entries[i].name)
    ensures SitesFrom(l, RouteFile, i) == Under(l.entries[i].name, Sites(l.entries[i].listing, RouteFile)) + SitesFrom(l, RouteFile, i + 1)
    ensures |SitesFrom(l, RouteFile, i)| == |Sites(l.entries[i].listing, RouteFile)| + |SitesFrom(l, RouteFile, i + 1)|
    ensures SiteRoutes(base, SitesFrom(l, RouteFile, i))
      == SiteRoutes(base + "/" + l.entries[i].name, Sites(l.entries[i].listing, RouteFile)) + SiteRoutes(base, SitesFrom(l, RouteFile, i + 1))
  {
    var e := l.entries[i];
    var inner := Sites(e.listing, RouteFile);
    var u := Under(e.name, inner);
    assert SitesFrom(l, RouteFile, i) == u + SitesFrom(l, RouteFile, i + 1);
    SiteRoutesAppend(base, u, SitesFrom(l, RouteFile, i + 1));
    var r1 := SiteRoutes(base, u);
    forall k | 0 <= k < |inner| ensures r1[k] == SiteRoutes(base + "/" + e.name, inner)[k] {
      SegmentsUnder(base, e.name, inner[k].trail);
    }
  }

  lemma SiteRoutesAppend(base: string, a: seq<Site>, b: seq<Site>)
    ensures SiteRoutes(base, a + b) == SiteRoutes(base, a) + SiteRoutes(base, b)
  {
    var left := SiteRoutes(base, a + b);
    var right := SiteRoutes(base, a) + SiteRoutes(base, b);
    forall k | 0 <= k < |left| ensures left[k] == right[k] {
      if k < |a| { assert (a + b)[k] == a[k]; } else { assert (a + b)[k] == b[k - |a|]; }
    }
  }

  lemma {:induction false} ApiFromTextsFile(st: State, dir: string, base: string, l: Listing, i: nat, files: map<string, string>) returns (texts: seq<string>)
    requires l.Listed? && i < |l.entries| && ApiFrom(st, dir, base, l, i).Completed?
    requires l.entries[i].File? && l.entries[i].name == RouteFile
    ensures |texts| == |SitesFrom(l, RouteFile, i)|
    ensures ApiFrom(st, dir, base, l, i).rows == Flatten(texts, SiteRoutes(base, SitesFrom(l, RouteFile, i)))
    ensures Faithful(st, files) && Snapshot(files, dir, l) ==>
      TextsAt(texts, files, dir, SitesFrom(l, RouteFile, i)) && Faithful(ApiFrom(st, dir, base, l, i).state, files)
    decreases l, 0, |l.entries| - i, 0
  {
    var e := l.entries[i];
    var path := PathJoin(dir, e.name);
    var step := Open(st, path, e.content);
    ApiFromFile(st, dir, base, l, i);
    var text := step.state.content.value;
    var t2 := ApiFromTexts(step.state, dir, base, l, i + 1, files);
    texts := [text] + t2;
    FileSiteRoute(l, base, i);
    FlattenOne(text, base + "/route", t2, SiteRoutes(base, SitesFrom(l, RouteFile, i + 1)));
    if Faithful(st, files) && Snapshot(files, dir, l) {
      assert e.content == ReadFrom(files, path);
      OpenFaithful(st, files, path);
      FileText(text, files, dir, l.entries);
      TextsAtAppend([text], t2, files, dir, [Site([], l.entries)], SitesFrom(l, RouteFile, i + 1));
    }
  }

  lemma FileText(text: string, files: map<string, string>, dir: string, siblings: seq<Entry>)
    requires PathJoin(dir, RouteFile) in files && text == files[PathJoin(dir, RouteFile)]
    ensures TextsAt([text], files, dir, [Site([], siblings)])
  {
    SitePathRoot(dir, siblings, RouteFile);
  }

  /** A route file at index `i` contributes the first route, `base + "/route"`. */
  lemma FileSiteRoute(l: Listing, base: string, i: nat)
    requires l.Listed? && i < |l.entries|
    requires l.entries[i].File? && l.entries[i].name == RouteFile
    ensures SitesFrom(l, RouteFile, i) == [Site([], l.entries)] + SitesFrom(l, RouteFile, i + 1)
    ensures SiteRoutes(base, SitesFrom(l, RouteFile, i)) == [base + "/route"] + SiteRoutes(base, SitesFrom(l, RouteFile, i + 1))
  {
    assert EntrySites(l, RouteFile, i) == [Site([], l.entries)];
    var r1 := SiteRoutes(base, [Site([], l.entries)]);
    assert Segments([]) == [];
    assert base + [] == base;
    assert r1 == [base + "/route"];
    assert SitesFrom(l, RouteFile, i) == [Site([], l.entries)] + SitesFrom(l, RouteFile, i + 1);
  }

  lemma FlattenOne(text: string, route: string, t2: seq<string>, r2: seq<string>)
    requires |t2| == |r2|
    ensures Flatten([text] + t2, [route] + r2) == FileRows(text, route) + Flatten(t2, r2)
  {
    ChunksCons(text, route, t2, r2);
    ConcatCons(FileRows(text, route), Chunks(t2, r2));
  }

  lemma ChunksCons(text: string, route: string, t2: seq<string>, r2: seq<string>)
    requires |t2| == |r2|
    ensures Chunks([text] + t2, [route] + r2) == [FileRows(text, route)] + Chunks(t2, r2)
  {
    ChunksAppend([text], [route], t2, r2);
  }

  lemma ConcatCons(c: seq<ApiRow>, cs: seq<seq<ApiRow>>)
    ensures Concat([c] + cs) == c + Concat(cs)
  {
    assert ([c] + cs)[1..] == cs;
  }
}
