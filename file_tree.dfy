/** The `app` directory as the walks see it through `fs.readdirSync(dir,
    { withFileTypes: true })`, `fs.readFileSync` and `fs.existsSync`: a tree of
    entries in directory-listing order, with the failures those calls can
    raise. */
module FileTree {
  import opened Wrappers
  import opened Text
  import opened Session

  /** A directory entry. `content` is `None` where reading the file throws;
      `Special` is any entry that is neither a file nor a directory (a
      symbolic link, a socket), `resolves` telling whether `existsSync` sees
      something at its path. */
  datatype Entry =
    | File(name: string, content: Option<string>)
    | Dir(name: string, listing: Listing)
    | Special(name: string, resolves: bool)

  /** What `readdirSync` gives for a directory: its entries, or a throw. */
  datatype Listing = Listed(entries: seq<Entry>) | Unlistable

  /** The file names the walks and the sibling checks look for. */
  const PageFile: string := "page.tsx"
  const RouteFile: string := "route.ts"
  const LoadingFile: string := "loading.tsx"
  const ErrorFile: string := "error.tsx"

  /** `dirent.name.startsWith('_')`: a private folder, skipped by both walks. */
  predicate Private(name: string) {
    StartsWith(name, "_")
  }

  /** `path.join(dir, name)` for a simple entry name. */
  function PathJoin(dir: string, name: string): string {
    dir + "/" + name
  }

  /** `fs.existsSync` for the entry. */
  predicate Present(e: Entry) {
    !e.Special? || e.resolves
  }

  /** `fs.existsSync(path.join(dir, name))`, where `entries` is the listing of `dir`. */
  predicate HasSibling(entries: seq<Entry>, name: string) {
    exists k :: 0 <= k < |entries| && entries[k].name == name && Present(entries[k])
  }

  /** The tree with everything under a private folder removed. */
  function Prune(l: Listing): (r: Listing)
    ensures l.Listed? <==> r.Listed?
    ensures l.Listed? ==> |r.entries| == |l.entries|
    decreases l, 1
  {
    match l
    case Unlistable => Unlistable
    case Listed(es) => Listed(PruneFrom(l, 0))
  }

  function PruneFrom(l: Listing, i: nat): (r: seq<Entry>)
    requires l.Listed? && i <= |l.entries|
    ensures |r| == |l.entries| - i
    decreases l, 0, |l.entries| - i
  {
    if i == |l.entries| then []
    else [PruneEntry(l, i)] + PruneFrom(l, i + 1)
  }

  function PruneEntry(l: Listing, i: nat): Entry
    requires l.Listed? && i < |l.entries|
    decreases l, 0, 0
  {
    var e := l.entries[i];
    if e.Dir? then Dir(e.name, if Private(e.name) then Listed([]) else Prune(e.listing)) else e
  }

  /** Pruning keeps every entry's name, kind and presence, so the siblings a page sees. */
  lemma {:induction false} PruneFromEntry(l: Listing, i: nat, k: nat)
    requires l.Listed? && i <= k < |l.entries|
    ensures PruneFrom(l, i)[k - i] == PruneEntry(l, k)
    decreases k - i
  {
    if i < k { PruneFromEntry(l, i + 1, k); }
  }

  lemma PruneShape(l: Listing, k: nat)
    requires l.Listed? && k < |l.entries|
    ensures Prune(l).entries[k] == PruneEntry(l, k)
    ensures Prune(l).entries[k].name == l.entries[k].name
    ensures Prune(l).entries[k].Dir? == l.entries[k].Dir?
    ensures Prune(l).entries[k].File? == l.entries[k].File?
    ensures Present(Prune(l).entries[k]) == Present(l.entries[k])
    ensures !l.entries[k].Dir? ==> Prune(l).entries[k] == l.entries[k]
    ensures l.entries[k].Dir? && !Private(l.entries[k].name) ==> Prune(l).entries[k].listing == Prune(l.entries[k].listing)
  {
    PruneFromEntry(l, 0, k);
  }

  lemma PruneSiblings(l: Listing, name: string)
    requires l.Listed?
    ensures HasSibling(Prune(l).entries, name) == HasSibling(l.entries, name)
  {
    forall k | 0 <= k < |l.entries| ensures Prune(l).entries[k].name == l.entries[k].name && Present(Prune(l).entries[k]) == Present(l.entries[k]) {
      PruneShape(l, k);
    }
  }

  /** A place where a walk emits rows: the directory names from the root
      down to a directory holding the file, and that directory's listing. */
  datatype Site = Site(trail: seq<string>, siblings: seq<Entry>)

  /** The path (or route) suffix of a trail: `/` before each name. */
  function Segments(trail: seq<string>): string {
    if trail == [] then [] else "/" + trail[0] + Segments(trail[1..])
  }

  lemma SegmentsCons(n: string, trail: seq<string>)
    ensures Segments([n] + trail) == "/" + n + Segments(trail)
  {
    assert ([n] + trail)[1..] == trail;
  }

  /** A path (or route) built one folder at a time is the path of the whole trail. */
  lemma SegmentsUnder(x: string, name: string, trail: seq<string>)
    ensures x + "/" + name + Segments(trail) == x + Segments([name] + trail)
  {
    SegmentsCons(name, trail);
    var t := Segments(trail);
    assert x + "/" + name == x + ("/" + name);
    assert x + ("/" + name) + t == x + ("/" + name + t);
  }

  /** The path of the file named `file` at a site below `dir`. */
  function SitePath(dir: string, s: Site, file: string): string {
    dir + Segments(s.trail) + "/" + file
  }

  lemma SitePathUnder(dir: string, name: string, s: Site, file: string)
    ensures SitePath(PathJoin(dir, name), s, file) == SitePath(dir, Site([name] + s.trail, s.siblings), file)
  {
    SegmentsUnder(dir, name, s.trail);
  }

  lemma SitePathRoot(dir: string, siblings: seq<Entry>, file: string)
    ensures SitePath(dir, Site([], siblings), file) == PathJoin(dir, file)
  {
    assert Segments([]) == [];
    assert dir + [] == dir;
  }

  /** `files` is what the file system holds under `dir`: every file of the
      tree reads exactly when its path is in `files`, and then gives that text. */
  ghost predicate Snapshot(files: map<string, string>, dir: string, l: Listing)
    decreases l
  {
    l.Listed? ==> forall k :: 0 <= k < |l.entries| ==>
      (l.entries[k].File? ==> l.entries[k].content == ReadFrom(files, PathJoin(dir, l.entries[k].name)))
      && (l.entries[k].Dir? ==> Snapshot(files, PathJoin(dir, l.entries[k].name), l.entries[k].listing))
  }

  /** The sites of the file named `file`, in the order a walk visits them:
      entries in listing order, a non-private folder's sites in place of the
      folder, and nothing below a folder that cannot be listed. */
  function Sites(l: Listing, file: string): seq<Site>
    decreases l, 1
  {
    match l
    case Unlistable => []
    case Listed(es) => SitesFrom(l, file, 0)
  }

  function SitesFrom(l: Listing, file: string, i: nat): seq<Site>
    requires l.Listed? && i <= |l.entries|
    decreases l, 0, |l.entries| - i
  {
    if i == |l.entries| then []
    else EntrySites(l, file, i) + SitesFrom(l, file, i + 1)
  }

  function EntrySites(l: Listing, file: string, i: nat): seq<Site>
    requires l.Listed? && i < |l.entries|
    decreases l, 0, 0
  {
    var e := l.entries[i];
    if e.Dir? && !Private(e.name) then Under(e.name, Sites(e.listing, file))
    else if e.File? && e.name == file then [Site([], l.entries)]
    else []
  }

  /** The sites of `file` whose read does not throw: as `Sites`, leaving out
      every copy of the file whose content cannot be read. */
  function ReadSites(l: Listing, file: string): seq<Site>
    decreases l, 1
  {
    match l
    case Unlistable => []
    case Listed(es) => ReadSitesFrom(l, file, 0)
  }

  function ReadSitesFrom(l: Listing, file: string, i: nat): seq<Site>
    requires l.Listed? && i <= |l.entries|
    decreases l, 0, |l.entries| - i
  {
    if i == |l.entries| then []
    else EntryReadSites(l, file, i) + ReadSitesFrom(l, file, i + 1)
  }

  function EntryReadSites(l: Listing, file: string, i: nat): seq<Site>
    requires l.Listed? && i < |l.entries|
    decreases l, 0, 0
  {
    var e := l.entries[i];
    if e.Dir? && !Private(e.name) then Under(e.name, ReadSites(e.listing, file))
    else if e.File? && e.name == file && e.content.Some? then [Site([], l.entries)]
    else []
  }

  /** The sites of a folder, seen from its parent. */
  function Under(name: string, sites: seq<Site>): (r: seq<Site>)
    ensures |r| == |sites|
    ensures forall k :: 0 <= k < |r| ==> r[k] == Site([name] + sites[k].trail, sites[k].siblings)
  {
    seq(|sites|, k requires 0 <= k < |sites| => Site([name] + sites[k].trail, sites[k].siblings))
  }

  /** Following `trail` from `l` through folders that are not private and
      can be listed reaches a listing `siblings` that holds the file. */
  ghost predicate Reaches(l: Listing, trail: seq<string>, file: string, siblings: seq<Entry>)
    decreases |trail|
  {
    l.Listed? &&
    if trail == [] then
      siblings == l.entries && exists k :: 0 <= k < |l.entries| && l.entries[k].File? && l.entries[k].name == file
    else
      !Private(trail[0])
      && (exists k :: 0 <= k < |l.entries| && l.entries[k].Dir? && l.entries[k].name == trail[0]
            && Reaches(l.entries[k].listing, trail[1..], file, siblings))
  }

  /** Every site is reachable. */
  lemma {:induction false} SitesReach(l: Listing, file: string, s: Site)
    requires s in Sites(l, file)
    ensures Reaches(l, s.trail, file, s.siblings)
    decreases l, 1
  {
    assert l.Listed?;
    SitesFromHas(l, file, 0, s);
    var i :| 0 <= i < |l.entries| && s in EntrySites(l, file, i);
    var e := l.entries[i];
    if e.Dir? && !Private(e.name) {
      var sub := Sites(e.listing, file);
      var u := Under(e.name, sub);
      var k :| 0 <= k < |u| && u[k] == s;
      SitesReach(e.listing, file, sub[k]);
      assert s.trail[0] == e.name;
      assert s.trail[1..] == sub[k].trail;
    } else {
      assert s == Site([], l.entries);
    }
  }

  lemma {:induction false} SitesFromHas(l: Listing, file: string, i: nat, s: Site)
    requires l.Listed? && i <= |l.entries| && s in SitesFrom(l, file, i)
    ensures exists j :: i <= j < |l.entries| && s in EntrySites(l, file, j)
    decreases |l.entries| - i
  {
    if s !in EntrySites(l, file, i) { SitesFromHas(l, file, i + 1, s); }
  }

  /** Every reachable place is a site. */
  lemma {:induction false} ReachSites(l: Listing, trail: seq<string>, file: string, siblings: seq<Entry>)
    requires Reaches(l, trail, file, siblings)
    ensures Site(trail, siblings) in Sites(l, file)
    decreases |trail|
  {
    if trail == [] {
      var k :| 0 <= k < |l.entries| && l.entries[k].File? && l.entries[k].name == file;
      SitesFromIn(l, file, 0, k, Site(trail, siblings));
    } else {
      var k :| 0 <= k < |l.entries| && l.entries[k].Dir? && l.entries[k].name == trail[0]
        && Reaches(l.entries[k].listing, trail[1..], file, siblings);
      ReachSites(l.entries[k].listing, trail[1..], file, siblings);
      var sub := Sites(l.entries[k].listing, file);
      var j :| 0 <= j < |sub| && sub[j] == Site(trail[1..], siblings);
      assert [trail[0]] + trail[1..] == trail;
      assert EntrySites(l, file, k)[j] == Site(trail, siblings);
      SitesFromIn(l, file, 0, k, Site(trail, siblings));
    }
  }

  lemma {:induction false} SitesFromIn(l: Listing, file: string, i: nat, k: nat, s: Site)
    requires l.Listed? && i <= k < |l.entries| && s in EntrySites(l, file, k)
    ensures s in SitesFrom(l, file, i)
    decreases k - i
  {
    if i < k { SitesFromIn(l, file, i + 1, k, s); }
  }

  /** The sites are exactly the reachable places holding the file. */
  lemma SitesExactly(l: Listing, file: string, trail: seq<string>, siblings: seq<Entry>)
    ensures Site(trail, siblings) in Sites(l, file) <==> Reaches(l, trail, file, siblings)
  {
    if Site(trail, siblings) in Sites(l, file) { SitesReach(l, file, Site(trail, siblings)); }
    if Reaches(l, trail, file, siblings) { ReachSites(l, trail, file, siblings); }
  }

  /** No site lies under a private folder: every name on its trail is public. */
  lemma {:induction false} ReachesPublic(l: Listing, trail: seq<string>, file: string, siblings: seq<Entry>)
    requires Reaches(l, trail, file, siblings)
    ensures forall k :: 0 <= k < |trail| ==> !Private(trail[k])
    decreases |trail|
  {
    if trail != [] {
      var k :| 0 <= k < |l.entries| && l.entries[k].Dir? && l.entries[k].name == trail[0]
        && Reaches(l.entries[k].listing, trail[1..], file, siblings);
      ReachesPublic(l.entries[k].listing, trail[1..], file, siblings);
      forall j | 0 <= j < |trail| ensures !Private(trail[j]) {
        if j > 0 { assert trail[j] == trail[1..][j - 1]; }
      }
    }
  }
}
