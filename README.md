# next-list route discovery, modelled in Dafny

next-list is a command-line tool for a Next.js project laid out with an
`app` directory. It walks the directory tree and prints two tables:

- **Pages.** One row per `page.tsx`. The row holds the route built from the
  folder names and the markers found in the file. The markers are: the
  default-export name, `use client`, metadata exports, `use server`, the
  `dynamic`/`revalidate`/`fetchCache` configuration exports, parallel (`@`)
  and intercepting (`(.)`, `(..)`, `(...)`) segments, and `loading.tsx` and
  `error.tsx` siblings.
- **API routes.** One row per HTTP method a `route.ts` handles.

The tool keeps the file it is reading in global variables, with a content
cache in front of the file reads.

This project models that core:

- **The directory tree.** The tree is a value of `Listing`s and `Entry`s. An
  entry's content is `None` where the read throws, and a listing is
  `Unlistable` where `readdirSync` throws.
- **The globals.** They are a `State` value, with a `FileSession` class whose
  methods update the fields in place.
- **The regular expressions.** Each one is a hand-written matcher, proved to
  agree with a declarative definition of what it matches.
- **The walks.** Each is an imperative method with a loop. The method is
  proved against a specification function that threads the globals through
  the walk, and properties of the walks are proved about those functions.

Modules:

- `Wrappers`: `Option`.
- `Text`: JavaScript string operations. These are `\s`, `\d`, `\w`,
  `includes`, `startsWith`, `split`, `join` and `trim`.
- `Patterns`: the regular expressions, as matchers and as declarations.
- `Markers`: the marker functions of a page.
- `HttpMethods`: `extractHttpMethods`.
- `Session`: the globals and their cache.
- `FileTree`: the tree, the pruning of private folders and the sites where a
  walk emits rows.
- `PageRoutes`: `listRoutes`.
- `ApiRoutes`: `listApiRoutes`.

Behaviours of the code a reader may not expect:

- **Metadata priority.** `export const metadata` is the first entry of the
  list `hasMetadata` scans, so `export const metadata` wins even when a
  `generateMetadata` export also occurs.
- **Default-export name.** For `export default function Home` the name
  column is `function`, not `Home`. The optional group of the first pattern
  only covers `async function `, so `\w+` matches the keyword.
- **Unreachable code.** Two metadata entries (`export const metadata:` and
  `export const generateMetadata:`) can never be the first found. The
  fallback pattern `/export default (\w+)/` never matches where the first
  pattern fails. Both are proved below.
- **A page that cannot be read ends its folder.** The `try` of `listRoutes`
  wraps the whole loop over a folder, so a throwing read of `page.tsx` drops
  every later entry of that folder, sibling folders included. See
  "## Findings".

## Model

| member | source | states |
|---|---|---|
| Patterns.MatchIffDecl | index.js:101-111 | each hand-written matcher returns exactly the group that the regular expression's declarative definition gives at that position, and nothing where that definition does not apply |
| Patterns.MatchSound | index.js:101-206 | whatever a matcher returns satisfies the declarative definition of its pattern, for all five patterns (the three configuration patterns at 101-111, the destructuring alias at 189 and the default export at 206) |
| Patterns.MatchComplete | index.js:101-206 | every place that fits a pattern's definition is found by its matcher, with the same group, for the same five patterns (101-111, 189, 206) |
| Markers.CaptureLeftmost | index.js:101-102 | `String.prototype.match` finds a match exactly when the described shape occurs somewhere; the capture is the group of the leftmost occurrence, and `''` exactly when there is none |
| Markers.ConfigCaptures | index.js:100-113 | `dynamic`, `revalidate` and `fetchCache` are `''` exactly when their declaration is absent; otherwise each is the group of the leftmost declaration, quote-free for the quoted ones and all digits for `revalidate` |
| Markers.ExportedFunctionSpec | index.js:205-208 | the default-export name is `''` exactly when no `export default ` is followed by a word character; otherwise it is the word group of the leftmost one |
| Markers.FallbackUnused | index.js:206 | the second pattern matches nothing when the first pattern matches nothing |
| Markers.PlainDefaultFunction | index.js:206-207 | for a leftmost `export default function Name`, the reported name is `function` |
| Markers.AsyncDefaultFunction | index.js:206-207 | for a leftmost `export default async function Name`, the reported name is `Name` |
| Markers.FirstPresent | index.js:92 | `find` returns the first entry whose text occurs; no earlier entry occurs, and `None` means no entry occurs |
| Markers.MetadataPriority | index.js:80-94 | closed form of the priority list: static when `export const metadata` occurs; otherwise generated when any `generateMetadata` form occurs; otherwise static for `let`/`var metadata`; otherwise null |
| Markers.ColonEntriesUnreachable | index.js:88-89 | the two entries ending in `:` are never the first found |
| Markers.MetadataColumn | index.js:80-94 | the metadata column is null exactly when no entry occurs; otherwise it is `✓ metadata` for a static entry and `○ generateMetadata` for a generated one |
| Markers.HasServerAction | index.js:96-98 | `hasServerAction`: the text contains `use server` |
| Markers.IsClientComponent | index.js:286-288 | `isClientComponent`: the text contains `use client` |
| Markers.DirectivesAnywhere | index.js:96-98 | the directive flags look at the whole file: `use server` or `use client` in either part of a text sets the flag of the whole, not only at its top (the same `includes` at 286-288) |
| Markers.ParallelRouteSpec | index.js:115-117 | a page is parallel exactly when its path contains `@` |
| Markers.InterceptingRouteSpec | index.js:119-121 | a page is intercepting exactly when its path contains one to three dots in parentheses |
| HttpMethods.Found | index.js:196-200 | the verbs collected are exactly the listed verbs whose `export async function` declaration occurs, in list order |
| HttpMethods.HttpMethodsOf | index.js:184-203 | the methods list is never empty |
| HttpMethods.ExtractHttpMethods | index.js:184-203 | the loop over the verbs returns the methods list of the file text |
| HttpMethods.AliasPrecedence | index.js:189-193 | when the destructured `handlers` alias occurs, the result is the single entry of its leftmost group, split at commas, trimmed and joined by ` \| `, whatever verbs are declared |
| HttpMethods.VerbScan | index.js:196-202 | without the alias, a verb is reported exactly when its declaration occurs, in the fixed order and so without repeats; with none present the result is exactly `GET` |
| Text.Split | index.js:191 | `split(',')` gives at least one piece, no piece holds a comma, and joining the pieces with commas gives back the text |
| Text.SplitJoin | index.js:191-192 | splitting a join of comma-free pieces gives back the pieces |
| Text.Trim | index.js:191 | `trim` gives the middle of the text between a whitespace prefix and a whitespace suffix, with no whitespace at either end |
| Session.Open | index.js:61-67 | after `setCurrentFile(p)` the current path is `p`; a cached path is answered from the cache without a read; otherwise the read text is cached; a failed read changes only the path |
| Session.OpenFaithful | index.js:61-67 | a cache that agrees with the files keeps agreeing, and the current content is the file's text |
| Session.OpenAgain | index.js:63-66 | a second `setCurrentFile` of the same path cannot fail and changes nothing |
| Session.OpenKeeps | index.js:66 | setting a file never evicts a cached path and never changes its text |
| Session.FileSession.SetCurrentFile | index.js:61-67 | the fields after the call are the state and outcome of `Open` on the fields before it |
| Session.FileSession.Cleanup | index.js:69-71 | the cache is emptied and the current path and content are kept |
| FileTree.SitesExactly | index.js:136-140 | the sites of a file are exactly the listings reachable through public, listable folders that hold the file |
| FileTree.ReachesPublic | index.js:138 | no folder on the trail to a site is private |
| FileTree.HasSibling | index.js:123-131 | `existsSync(path.join(dirname(currentFilePath), name))`: some entry of the page's own listing has that name and exists (a file, a folder, or a special entry that resolves) |
| FileTree.PruneSiblings | index.js:123-131 | emptying private folders keeps every entry's name and presence, so the `loading.tsx`/`error.tsx` flags are unchanged |
| PageRoutes.ListRoutes | index.js:133-162 | the page walk over the session returns the rows, and leaves the globals, that the specification of `listRoutes` gives |
| PageRoutes.PagePrune | index.js:138 | nothing beneath a `_` folder affects the page walk's rows or the globals it leaves |
| PageRoutes.PageSites | index.js:139-155 | when every page can be read, there is one row per page site in walk order; each row has that site's route, path flags and sibling flags, and text columns from one file text |
| PageRoutes.PageRowsIn | index.js:133-162 | in every tree, readable or not, each emitted row is the row at some page site: its route, path flags and sibling flags are that site's |
| PageRoutes.PageRoutesShape | index.js:139-143 | in every tree, each emitted row's route is the base, then `/name` for each folder from the root down to a folder holding a `page.tsx` (groups and slots kept, none private), then `/`; that trail is reachable through listable public folders |
| PageRoutes.LostSiblingFolder | index.js:135-160 | as written: on a folder whose `page.tsx` cannot be read, followed by a folder `b` with a readable page, there are two page sites and no row |
| PageRoutes.SkippingSites | index.js:135-160 | corrected walk, on a tree that agrees with the file system and a cache that does too: one row per readable page site, in walk order, with that site's route, path flags and sibling flags; the cache still agrees afterwards |
| PageRoutes.SkippingAgrees | index.js:135-160 | where every page reads, the corrected walk gives the same rows and globals as the walk as written |
| PageRoutes.SkippingKeepsSibling | index.js:135-160 | on the tree that loses `b` as written, the corrected walk gives one row, with route `/b/` |
| ApiRoutes.RowsFor | index.js:176-178 | one row per method, in order, each with the shared name and route |
| ApiRoutes.PushRows | index.js:176-178 | the push loop appends exactly those rows to the table |
| ApiRoutes.FileRowsShape | index.js:170-178 | a `route.ts` gives as many rows as its methods list, at least one, each with its method, the file's default-export name and `base/route` |
| ApiRoutes.ListApiRoutes | index.js:164-182 | the API walk over the session returns the rows of the specification of `listApiRoutes`, or reports the throw that aborts it, with the globals it leaves |
| ApiRoutes.ApiPrune | index.js:168 | nothing beneath a `_` folder affects the API walk |
| ApiRoutes.CompletedListable | index.js:166-169 | a walk that completes has listed every public folder, since a listing failure anywhere aborts it |
| ApiRoutes.ReadableCompletes | index.js:164-182 | when every public folder lists and every `route.ts` reads, the walk completes |
| ApiRoutes.ApiSites | index.js:169-178 | a completed walk emits, for each route-file site in walk order, the rows of one file text at `base + folders + /route`; when the cache and the tree agree with the file system, that text is the content of the site's own `route.ts` |

## Left out

- Colours: the `String.prototype` colour getters and the escape codes. Text is modelled without them.
- Table rendering: `renderTable` and `formatMethod` lay out output only.
- Finding the `app` or `src/app` directory: the walks take the root's listing and path as parameters.
- Signal and exit handlers: they only call `cleanup`, which is modelled.
- Argument dispatch, `console.clear`, `console.log` and the `console.error` in the page walk's catch: these are output only. The catch itself is modelled.
- `path.join` and `path.dirname` normalisation: entry names are taken as plain names. `path.join(dir, name)` is `dir + "/" + name`, and the folder of a page is the listing it was found in.
- File-system calls: `readdirSync`, `readFileSync` and `existsSync` read one snapshot of the tree. The tree does not change while it is walked.
- `Dirent.isDirectory` and `isFile`: an entry that is neither (a symbolic link, say) is skipped by the walks. For `existsSync` it is present or not as the tree says.
- Strings are sequences of code points, not UTF-16 units.
- Regular expressions: only the five patterns this code uses are modelled, each by its own matcher. There is no general regular-expression engine.
- The order of the two walks in one run: each walk is modelled from any starting globals.
- PageRoutes.PageSites: only says that the text columns of a row come from some text, not which file's text. The exact text is fixed by `PageRoutes.ListRoutes` through the specification function.

## Findings

| source | as written | input that shows it | evidently intended | confidence | as-written member | corrected member |
|---|---|---|---|---|---|---|
| index.js:135-160 | one `try` wraps the whole `forEach` over a folder, so a `readFileSync` throw on a `page.tsx` ends the loop and every later entry of that folder, sibling folders included, is never visited | folder `app` listing `[page.tsx (unreadable), b/ holding a readable page.tsx]`: two page sites, no row | an unreadable page is reported and skipped, and the walk goes on with the rest of its folder, so `/b/` is still listed | medium; not executed | PageRoutes.LostSiblingFolder | PageRoutes.SkippingSites |

`PageRoutes.ListRoutes` models the code as written; `PageRoutes.PageScanSkipping`
is the corrected walk, equal to it wherever every page reads
(`PageRoutes.SkippingAgrees`).
