/** The per-file markers of a page row, each a pure function of the current
    file's text or path: the leftmost-match search of `String.prototype.match`,
    the three route-segment configuration captures, the default-export name,
    the metadata priority list and the substring flags. */
module Markers {
  import opened Wrappers
  import opened Text
  import opened Patterns

  /** The leftmost index from `i` at which `p` matches, as `match` tries
      each start index in turn. */
  function Search(p: Pattern, s: string, i: nat): (r: Option<nat>)
    requires i <= |s|
    ensures r.Some? ==> i <= r.value <= |s| && MatchAt(p, s, r.value).Some?
    ensures r.Some? ==> forall j :: i <= j < r.value ==> MatchAt(p, s, j).None?
    ensures r.None? ==> forall j :: i <= j <= |s| ==> MatchAt(p, s, j).None?
    decreases |s| - i
  {
    if MatchAt(p, s, i).Some? then Some(i)
    else if i == |s| then None
    else Search(p, s, i + 1)
  }

  /** The group of the leftmost match of `p` in `s`, or `None` when `match` returns `null`. */
  function FirstMatch(p: Pattern, s: string): Option<Group>
  {
    match Search(p, s, 0)
    case None => None
    case Some(i) => MatchAt(p, s, i)
  }

  /** The group `g` at `i` is the leftmost match: no earlier index has the described shape. */
  ghost predicate LeftmostDecl(p: Pattern, s: string, i: int, g: Group) {
    Decl(p, s, i, g) && forall j, h :: j < i ==> !Decl(p, s, j, h)
  }

  /** The characters of the group of the leftmost match, or `''` when there is none. */
  function Capture(p: Pattern, s: string): string
  {
    match Search(p, s, 0)
    case None => []
    case Some(i) => (MatchSound(p, s, i); var g := MatchAt(p, s, i).value; s[g.start..g.end])
  }

  /** What `match` finds, said declaratively: there is a match exactly when the
      text has the described shape somewhere, and then the first such place is
      the one captured. Every group is nonempty, so the capture is `''`
      exactly when there is no match. */
  lemma {:induction false} CaptureLeftmost(p: Pattern, s: string)
    ensures FirstMatch(p, s).None? <==> forall i, g :: !Decl(p, s, i, g)
    ensures Capture(p, s) == [] <==> forall i, g :: !Decl(p, s, i, g)
    ensures FirstMatch(p, s).Some? ==>
      exists i :: LeftmostDecl(p, s, i, FirstMatch(p, s).value)
        && Capture(p, s) == s[FirstMatch(p, s).value.start..FirstMatch(p, s).value.end]
  {
    match Search(p, s, 0)
    case None =>
      forall i, g ensures !Decl(p, s, i, g) {
        if Decl(p, s, i, g) {
          assert 0 <= i <= |s| by { DeclInText(p, s, i, g); }
          MatchComplete(p, s, i, g);
        }
      }
    case Some(i) =>
      var g := MatchAt(p, s, i).value;
      MatchSound(p, s, i);
      forall j, h | j < i ensures !Decl(p, s, j, h) {
        if Decl(p, s, j, h) {
          DeclInText(p, s, j, h);
          MatchComplete(p, s, j, h);
        }
      }
      assert LeftmostDecl(p, s, i, g);
  }

  /** A described match starts inside the text and its group is a nonempty piece of it. */
  lemma DeclInText(p: Pattern, s: string, i: int, g: Group)
    requires Decl(p, s, i, g)
    ensures 0 <= i <= |s| && g.start < g.end <= |s|
  {
    match p
    case QuotedConfig(name) => var kw, k :| QuotedDeclVia(s, i, name, kw, k, g);
    case NumericConfig(name) => var kw, k :| NumericDeclVia(s, i, name, kw, k, g);
    case HandlerAlias =>
    case DefaultExport =>
    case DefaultExportWord =>
  }

  /** `extractDynamicValue` (pattern on `dynamic`). */
  function ExtractDynamicValue(text: string): string
  {
    Capture(QuotedConfig("dynamic"), text)
  }

  /** `extractRevalidateValue` (digits after `revalidate =`). */
  function ExtractRevalidateValue(text: string): string
  {
    Capture(NumericConfig("revalidate"), text)
  }

  /** `extractFetchCacheValue` (pattern on `fetchCache`). */
  function ExtractFetchCacheValue(text: string): string
  {
    Capture(QuotedConfig("fetchCache"), text)
  }

  /** The configuration captures: each is `''` exactly when its declaration
      does not occur, and otherwise the group of its leftmost occurrence, which
      holds no quote for `dynamic` and `fetchCache` and only digits for
      `revalidate`. */
  lemma ConfigCaptures(text: string)
    ensures ExtractDynamicValue(text) == [] <==> forall i, g :: !Decl(QuotedConfig("dynamic"), text, i, g)
    ensures ExtractDynamicValue(text) != [] ==> exists i, g :: LeftmostDecl(QuotedConfig("dynamic"), text, i, g) && ExtractDynamicValue(text) == text[g.start..g.end]
    ensures ExtractFetchCacheValue(text) == [] <==> forall i, g :: !Decl(QuotedConfig("fetchCache"), text, i, g)
    ensures ExtractFetchCacheValue(text) != [] ==> exists i, g :: LeftmostDecl(QuotedConfig("fetchCache"), text, i, g) && ExtractFetchCacheValue(text) == text[g.start..g.end]
    ensures ExtractRevalidateValue(text) == [] <==> forall i, g :: !Decl(NumericConfig("revalidate"), text, i, g)
    ensures ExtractRevalidateValue(text) != [] ==> exists i, g :: LeftmostDecl(NumericConfig("revalidate"), text, i, g) && ExtractRevalidateValue(text) == text[g.start..g.end]
    ensures AllIn(NotQuote, ExtractDynamicValue(text))
    ensures AllIn(NotQuote, ExtractFetchCacheValue(text))
    ensures AllIn(Digit, ExtractRevalidateValue(text))
  {
    QuotedCapture(text, "dynamic");
    QuotedCapture(text, "fetchCache");
    CaptureLeftmost(NumericConfig("revalidate"), text);
    var v := ExtractRevalidateValue(text);
    if v != [] {
      var g := FirstMatch(NumericConfig("revalidate"), text).value;
      var i :| LeftmostDecl(NumericConfig("revalidate"), text, i, g);
      var kw, k :| NumericDeclVia(text, i, "revalidate", kw, k, g);
    }
  }

  lemma QuotedCapture(text: string, name: string)
    ensures Capture(QuotedConfig(name), text) == [] <==> forall i, g :: !Decl(QuotedConfig(name), text, i, g)
    ensures Capture(QuotedConfig(name), text) != [] ==> exists i, g :: LeftmostDecl(QuotedConfig(name), text, i, g) && Capture(QuotedConfig(name), text) == text[g.start..g.end]
    ensures AllIn(NotQuote, Capture(QuotedConfig(name), text))
  {
    CaptureLeftmost(QuotedConfig(name), text);
    var d := Capture(QuotedConfig(name), text);
    if d != [] {
      var g := FirstMatch(QuotedConfig(name), text).value;
      var i :| LeftmostDecl(QuotedConfig(name), text, i, g);
      var kw, k :| QuotedDeclVia(text, i, name, kw, k, g);
    }
  }

  /** `extractExportedFunction`: group 2 of the first pattern when it matches
      (it is never empty, so `match[2] || match[1]` picks it), otherwise group 1
      of the fallback pattern, otherwise `''`. */
  function ExtractExportedFunction(text: string): string
  {
    if FirstMatch(DefaultExport, text).Some? then Capture(DefaultExport, text)
    else Capture(DefaultExportWord, text)
  }

  /** The name is `''` exactly when no `export default ` is followed by a
      word character, and otherwise the word group of the leftmost such place. */
  lemma ExportedFunctionSpec(text: string)
    ensures ExtractExportedFunction(text) == [] <==> forall i, g :: !Decl(DefaultExport, text, i, g)
    ensures ExtractExportedFunction(text) != [] ==> exists i, g :: LeftmostDecl(DefaultExport, text, i, g) && ExtractExportedFunction(text) == text[g.start..g.end]
  {
    CaptureLeftmost(DefaultExport, text);
    FallbackUnused(text);
  }

  /** The fallback `/export default (\w+)/` never matches where the first
      pattern does not: wherever it matches, the first pattern matches too. */
  lemma FallbackUnused(text: string)
    ensures FirstMatch(DefaultExport, text).None? ==> Capture(DefaultExportWord, text) == []
  {
    if Search(DefaultExport, text, 0).None? {
      forall j | 0 <= j <= |text| ensures MatchAt(DefaultExportWord, text, j).None? {
        assert MatchAt(DefaultExport, text, j).None?;
      }
    }
  }

  /** `export default function Home` names the keyword: the first pattern has no
      alternative without `async`, so its word group captures `function`. */
  lemma PlainDefaultFunction(text: string, i: nat)
    requires OccursAt(text, "export default function ", i)
    requires forall j, g :: j < i ==> !Decl(DefaultExport, text, j, g)
    ensures ExtractExportedFunction(text) == "function"
  {
    var g := Group(i + 15, i + 23);
    PlainDefaultMatch(text, i);
    MatchSound(DefaultExport, text, i);
    ExportedFunctionSpec(text);
    var r := ExtractExportedFunction(text);
    var i', g' :| LeftmostDecl(DefaultExport, text, i', g') && r == text[g'.start..g'.end];
    assert i' == i;
    MatchComplete(DefaultExport, text, i, g');
  }

  lemma PlainDefaultMatch(text: string, i: nat)
    requires OccursAt(text, "export default function ", i)
    ensures MatchAt(DefaultExport, text, i) == Some(Group(i + 15, i + 23))
    ensures text[i + 15..i + 23] == "function"
  {
    var w := text[i..i + 24];
    assert w == "export default function ";
    assert text[i..i + 15] == w[..15];
    assert text[i + 15..i + 23] == w[15..23];
    assert text[i + 15] == w[15];
    assert text[i + 23] == w[23];
    assert !AsyncNamedAt(text, i);
    SpanExact(text, i + 15, i + 23, Word);
  }

  /** `export default async function Name` names `Name`. */
  lemma AsyncDefaultFunction(text: string, i: nat)
    requires AsyncNamedAt(text, i)
    requires forall j, g :: j < i ==> !Decl(DefaultExport, text, j, g)
    ensures ExtractExportedFunction(text) == text[i + 30..Span(text, i + 30, Word)]
  {
    var g := Group(i + 30, Span(text, i + 30, Word));
    SpanRun(text, i + 30, Word);
    assert text[i..i + 15] == "export default " by { assert text[i..i + 30][..15] == text[i..i + 15]; }
    assert Decl(DefaultExport, text, i, g);
    ExportedFunctionSpec(text);
    var r := ExtractExportedFunction(text);
    var i', g' :| LeftmostDecl(DefaultExport, text, i', g') && r == text[g'.start..g'.end];
    assert i' == i;
    MatchComplete(DefaultExport, text, i, g);
    MatchComplete(DefaultExport, text, i, g');
  }

  /** The two values `hasMetadata` can report. */
  datatype MetadataKind = StaticMetadata | GeneratedMetadata

  /** The label the lister shows for each kind (without its colour). */
  function MetadataLabel(k: MetadataKind): string {
    match k
    case StaticMetadata => "✓ metadata"
    case GeneratedMetadata => "○ generateMetadata"
  }

  datatype MetadataPattern = MetadataPattern(text: string, kind: MetadataKind)

  /** The priority list of `hasMetadata`, in order. */
  const MetadataPatterns: seq<MetadataPattern> := [
    MetadataPattern("export const metadata", StaticMetadata),
    MetadataPattern("export async function generateMetadata", GeneratedMetadata),
    MetadataPattern("export function generateMetadata", GeneratedMetadata),
    MetadataPattern("export const generateMetadata", GeneratedMetadata),
    MetadataPattern("export let metadata", StaticMetadata),
    MetadataPattern("export var metadata", StaticMetadata),
    MetadataPattern("export const metadata:", StaticMetadata),
    MetadataPattern("export const generateMetadata:", GeneratedMetadata)
  ]

  /** The first entry from `k` on whose text occurs in `s`, as `Array.prototype.find` scans. */
  function FirstPresent(s: string, k: nat): (r: Option<nat>)
    requires k <= |MetadataPatterns|
    ensures r.Some? ==> k <= r.value < |MetadataPatterns| && Contains(s, MetadataPatterns[r.value].text)
    ensures r.Some? ==> forall j :: k <= j < r.value ==> !Contains(s, MetadataPatterns[j].text)
    ensures r.None? ==> forall j :: k <= j < |MetadataPatterns| ==> !Contains(s, MetadataPatterns[j].text)
    decreases |MetadataPatterns| - k
  {
    if k == |MetadataPatterns| then None
    else if Contains(s, MetadataPatterns[k].text) then Some(k)
    else FirstPresent(s, k + 1)
  }

  /** `hasMetadata`: the kind of the first listed pattern the text contains, or `null`. */
  function HasMetadata(text: string): Option<MetadataKind>
  {
    match FirstPresent(text, 0)
    case None => None
    case Some(k) => Some(MetadataPatterns[k].kind)
  }

  /** The metadata column of a page row: the `returnVal` label of the entry
      `hasMetadata` finds, or `null`. The two labels are distinct, so the
      column tells the kinds apart. */
  function MetadataColumn(text: string): (r: Option<string>)
    ensures r.None? <==> HasMetadata(text).None?
    ensures r == Some("✓ metadata") <==> HasMetadata(text) == Some(StaticMetadata)
    ensures r == Some("○ generateMetadata") <==> HasMetadata(text) == Some(GeneratedMetadata)
  {
    match HasMetadata(text)
    case None => None
    case Some(k) => Some(MetadataLabel(k))
  }

  /** The last two entries can never be the first found: each extends an
      earlier entry, which is then present too. */
  lemma ColonEntriesUnreachable(text: string)
    ensures FirstPresent(text, 0) != Some(6) && FirstPresent(text, 0) != Some(7)
  {
    if Contains(text, MetadataPatterns[6].text) {
      assert OccursAt(MetadataPatterns[6].text, MetadataPatterns[0].text, 0) by {
        assert MetadataPatterns[6].text[0..21] == MetadataPatterns[0].text;
      }
      ContainsInner(text, MetadataPatterns[6].text, MetadataPatterns[0].text, 0);
    }
    if Contains(text, MetadataPatterns[7].text) {
      assert OccursAt(MetadataPatterns[7].text, MetadataPatterns[3].text, 0) by {
        assert MetadataPatterns[7].text[0..29] == MetadataPatterns[3].text;
      }
      ContainsInner(text, MetadataPatterns[7].text, MetadataPatterns[3].text, 0);
    }
  }

  /** The priority list in closed form: `export const metadata` wins over every
      form of `generateMetadata`, which in turn wins over `let`/`var metadata`;
      with none of the six texts present the result is `null`. */
  lemma {:induction false} MetadataPriority(text: string)
    ensures HasMetadata(text) == Some(GeneratedMetadata) <==>
      !Contains(text, "export const metadata")
      && (Contains(text, "export async function generateMetadata")
          || Contains(text, "export function generateMetadata")
          || Contains(text, "export const generateMetadata"))
    ensures HasMetadata(text) == Some(StaticMetadata) <==>
      Contains(text, "export const metadata")
      || (!Contains(text, "export async function generateMetadata")
          && !Contains(text, "export function generateMetadata")
          && !Contains(text, "export const generateMetadata")
          && (Contains(text, "export let metadata") || Contains(text, "export var metadata")))
    ensures HasMetadata(text).None? <==>
      !Contains(text, "export const metadata")
      && !Contains(text, "export async function generateMetadata")
      && !Contains(text, "export function generateMetadata")
      && !Contains(text, "export const generateMetadata")
      && !Contains(text, "export let metadata")
      && !Contains(text, "export var metadata")
  {
    ColonEntriesUnreachable(text);
    var r := FirstPresent(text, 0);
    assert forall j :: 0 <= j < 6 ==> (Contains(text, MetadataPatterns[j].text) ==> r.Some? && r.value <= j);
  }

  /** `hasServerAction`. */
  function HasServerAction(text: string): bool {
    Contains(text, "use server")
  }

  /** `isClientComponent`. */
  function IsClientComponent(text: string): bool {
    Contains(text, "use client")
  }

  /** `includes` looks at the whole file: a directive anywhere in either
      part of a text, not only at its top, sets the flag of the whole. */
  lemma DirectivesAnywhere(a: string, b: string)
    ensures HasServerAction(a) || HasServerAction(b) ==> HasServerAction(a + b)
    ensures IsClientComponent(a) || IsClientComponent(b) ==> IsClientComponent(a + b)
  {
    ContainsAppend(a, b, "use server");
    ContainsAppend(a, b, "use client");
  }

  /** `hasParallelRoute`: the path holds an `@` (a slot directory, or any other `@`). */
  function HasParallelRoute(path: string): bool
  {
    Contains(path, "@")
  }

  lemma ParallelRouteSpec(path: string)
    ensures HasParallelRoute(path) <==> '@' in path
  {
    ContainsChar(path, '@');
  }

  lemma ContainsChar(s: string, c: char)
    ensures Contains(s, [c]) <==> c in s
  {
    if c in s {
      var i :| 0 <= i < |s| && s[i] == c;
      assert s[i..i + 1] == [c];
      assert OccursAt(s, [c], i);
    }
    if Contains(s, [c]) {
      var i :| 0 <= i <= |s| && OccursAt(s, [c], i);
      assert s[i] == s[i..i + 1][0];
    }
  }

  /** A parenthesised run of one to three dots starts at `i`. */
  predicate DotsAt(path: string, i: int, n: int) {
    1 <= n <= 3 && 0 <= i && i + n + 2 <= |path| && path[i] == '('
    && (forall k :: i < k <= i + n ==> path[k] == '.') && path[i + n + 1] == ')'
  }

  function Dots(n: nat): string
    requires 1 <= n <= 3
  {
    if n == 1 then "(.)" else if n == 2 then "(..)" else "(...)"
  }

  lemma DotsAtOccurs(path: string, i: int, n: int)
    requires 1 <= n <= 3
    ensures DotsAt(path, i, n) <==> OccursAt(path, Dots(n), i)
  {
    if OccursAt(path, Dots(n), i) {
      forall k | i <= k <= i + n + 1 ensures path[k] == Dots(n)[k - i] {
        assert path[k] == path[i..i + |Dots(n)|][k - i];
      }
    }
    if DotsAt(path, i, n) {
      assert path[i..i + |Dots(n)|] == Dots(n);
    }
  }

  /** `hasInterceptingRoute`: some segment marker `(.)`, `(..)` or `(...)` occurs in the path. */
  function HasInterceptingRoute(path: string): bool
  {
    Contains(path, "(.)") || Contains(path, "(..)") || Contains(path, "(...)")
  }

  lemma InterceptingRouteSpec(path: string)
    ensures HasInterceptingRoute(path) <==> exists i, n :: DotsAt(path, i, n)
  {
    if Contains(path, "(.)") || Contains(path, "(..)") || Contains(path, "(...)") {
      var n := if Contains(path, "(.)") then 1 else if Contains(path, "(..)") then 2 else 3;
      var i :| 0 <= i <= |path| && OccursAt(path, Dots(n), i);
      DotsAtOccurs(path, i, n);
    }
    if exists i, n :: DotsAt(path, i, n) {
      var i, n :| DotsAt(path, i, n);
      DotsAtOccurs(path, i, n);
      assert OccursAt(path, Dots(n), i);
    }
  }
}
