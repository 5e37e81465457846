/** `extractHttpMethods`: the HTTP methods an API route file handles, either
    one entry naming the handlers destructured from `handlers`, or the verbs
    exported as `export async function <VERB>`, in a fixed order, defaulting
    to `GET`. */
module HttpMethods {
  import opened Text
  import opened Patterns
  import opened Markers

  /** The verbs the scan looks for, in the order it reports them. */
  const Verbs: seq<string> := ["GET", "POST", "PUT", "DELETE", "PATCH", "OPTIONS", "HEAD"]

  /** The position of a verb in `Verbs`; 7 for anything else. */
  function Rank(v: string): nat {
    if v == "GET" then 0 else if v == "POST" then 1 else if v == "PUT" then 2
    else if v == "DELETE" then 3 else if v == "PATCH" then 4 else if v == "OPTIONS" then 5
    else if v == "HEAD" then 6 else 7
  }

  lemma RankOfVerb(k: int)
    requires 0 <= k < |Verbs|
    ensures Rank(Verbs[k]) == k
  {
  }

  /** The declaration the scan looks for. */
  function Handler(v: string): string {
    "export async function " + v
  }

  /** `.map(m => m.trim())`. */
  function TrimAll(parts: seq<string>): (r: seq<string>)
    ensures |r| == |parts|
    ensures forall k :: 0 <= k < |r| ==> r[k] == Trim(parts[k])
  {
    seq(|parts|, k requires 0 <= k < |parts| => Trim(parts[k]))
  }

  /** The single entry reported for `export const { … } = handlers`: the
      destructured names, trimmed, joined by `" | "`. */
  function AliasEntry(names: string): string {
    Join(TrimAll(Split(names, ',')), " | ")
  }

  /** The verbs of `Verbs[k..]` whose handler declaration occurs in the text, in order. */
  function Found(text: string, k: nat): (r: seq<string>)
    requires k <= |Verbs|
    ensures forall a :: 0 <= a < |r| ==> k <= Rank(r[a]) < |Verbs| && Verbs[Rank(r[a])] == r[a]
    ensures forall a :: 0 <= a < |r| ==> Contains(text, Handler(r[a]))
    ensures forall a, b :: 0 <= a < b < |r| ==> Rank(r[a]) < Rank(r[b])
    ensures forall j :: k <= j < |Verbs| && Contains(text, Handler(Verbs[j])) ==> Verbs[j] in r
    decreases |Verbs| - k
  {
    if k == |Verbs| then []
    else
      RankOfVerb(k);
      var rest := Found(text, k + 1);
      if Contains(text, Handler(Verbs[k])) then [Verbs[k]] + rest else rest
  }

  /** What `extractHttpMethods` returns for the file text. */
  function HttpMethodsOf(text: string): (r: seq<string>)
    ensures |r| >= 1
  {
    if FirstMatch(HandlerAlias, text).Some? then [AliasEntry(Capture(HandlerAlias, text))]
    else
      var found := Found(text, 0);
      if |found| > 0 then found else ["GET"]
  }

  /** `extractHttpMethods`, with its loop over the verbs. */
  method ExtractHttpMethods(text: string) returns (methods: seq<string>)
    ensures methods == HttpMethodsOf(text)
  {
    var handlersMatch := FirstMatch(HandlerAlias, text);
    if handlersMatch.Some? {
      var destructured := TrimAll(Split(Capture(HandlerAlias, text), ','));
      return [Join(destructured, " | ")];
    }
    methods := [];
    var k := 0;
    while k < |Verbs|
      invariant 0 <= k <= |Verbs|
      invariant methods + Found(text, k) == Found(text, 0)
    {
      if Contains(text, Handler(Verbs[k])) {
        methods := methods + [Verbs[k]];
      }
      k := k + 1;
    }
    if |methods| == 0 {
      methods := ["GET"];
    }
  }

  /** The destructuring alias takes precedence: when it occurs, the result
      is the one entry built from its leftmost occurrence, and no verb is
      looked for. */
  lemma AliasPrecedence(text: string, i: int, g: Group)
    requires LeftmostDecl(HandlerAlias, text, i, g)
    ensures HttpMethodsOf(text) == [Join(TrimAll(Split(text[g.start..g.end], ',')), " | ")]
  {
    CaptureLeftmost(HandlerAlias, text);
    var g' := FirstMatch(HandlerAlias, text).value;
    var i' :| LeftmostDecl(HandlerAlias, text, i', g');
    assert i' == i;
    MatchComplete(HandlerAlias, text, i, g);
    MatchComplete(HandlerAlias, text, i, g');
  }

  /** Without the alias the result is the verbs whose declaration occurs, in
      the order of `Verbs` and so without repeats, or exactly `["GET"]` when
      none occurs. */
  lemma VerbScan(text: string)
    requires forall i, g :: !Decl(HandlerAlias, text, i, g)
    ensures var r := HttpMethodsOf(text);
      if exists j :: 0 <= j < |Verbs| && Contains(text, Handler(Verbs[j])) then
        (forall v :: v in r <==> v in Verbs && Contains(text, Handler(v)))
        && (forall a, b :: 0 <= a < b < |r| ==> Rank(r[a]) < Rank(r[b]))
      else r == ["GET"]
  {
    CaptureLeftmost(HandlerAlias, text);
    assert HttpMethodsOf(text) == if |Found(text, 0)| > 0 then Found(text, 0) else ["GET"];
    FoundMembers(text);
    FoundEmpty(text);
  }

  lemma FoundMembers(text: string)
    ensures forall v :: v in Found(text, 0) <==> v in Verbs && Contains(text, Handler(v))
  {
    var found := Found(text, 0);
    forall v | v in Verbs && Contains(text, Handler(v)) ensures v in found {
      var k :| 0 <= k < |Verbs| && Verbs[k] == v;
    }
    forall v | v in found ensures v in Verbs && Contains(text, Handler(v)) {
      var a :| 0 <= a < |found| && found[a] == v;
    }
  }

  lemma FoundEmpty(text: string)
    ensures |Found(text, 0)| > 0 <==> exists j :: 0 <= j < |Verbs| && Contains(text, Handler(Verbs[j]))
  {
    var found := Found(text, 0);
    if exists j :: 0 <= j < |Verbs| && Contains(text, Handler(Verbs[j])) {
      var j :| 0 <= j < |Verbs| && Contains(text, Handler(Verbs[j]));
      assert Verbs[j] in found;
    }
    if |found| > 0 {
      assert Verbs[Rank(found[0])] == found[0];
    }
  }
}
