/** The capturing regular expressions of `index.js`, each restated as a
    matcher at one index of the file text (`MatchAt`) and as a declarative
    definition of the text it accepts (`Decl`), with the proof that the two
    agree, and the leftmost-match search `String.prototype.match` performs. */
module Patterns {
  import opened Wrappers
  import opened Text

  /** The regular expressions whose first capture the lister reads. */
  datatype Pattern =
    /** `/export (?:const|let|var) NAME\s*=\s*['"]([^'"]+)['"]/`, group 1 */
    | QuotedConfig(name: string)
    /** `/export (?:const|let|var) NAME\s*=\s*(\d+)/`, group 1 */
    | NumericConfig(name: string)
    /** `/export const \{([^}]+)\}\s*=\s*handlers/`, group 1 */
    | HandlerAlias
    /** `/export default (async function )?(\w+)/`, group 2 */
    | DefaultExport
    /** `/export default (\w+)/`, group 1 */
    | DefaultExportWord

  /** The declaration keywords of `(?:const|let|var)`, in alternation order. */
  const Keywords: seq<string> := ["const", "let", "var"]

  function Head(kw: string, name: string): string {
    "export " + kw + " " + name
  }

  /** The keyword of the `export <kw> <name>` that starts at `i`, if any. */
  function KeywordAt(s: string, i: nat, name: string): Option<string>
  {
    if OccursAt(s, Head("const", name), i) then Some("const")
    else if OccursAt(s, Head("let", name), i) then Some("let")
    else if OccursAt(s, Head("var", name), i) then Some("var")
    else None
  }

  /** `\s*=\s*` stands between `j` and `m`, its `=` at `k`. */
  predicate AssignAt(s: string, j: int, k: int, m: int) {
    0 <= j <= k < m <= |s| && AllIn(Space, s[j..k]) && s[k] == '=' && AllIn(Space, s[k + 1..m])
  }

  /** The index after `\s*=\s*` matched greedily from `j`, if `=` is there. */
  function AssignEnd(s: string, j: nat): (m: Option<nat>)
    requires j <= |s|
    ensures m.Some? ==> j < m.value <= |s|
  {
    var k := Span(s, j, Space);
    if k < |s| && s[k] == '=' then Some(Span(s, k + 1, Space)) else None
  }

  lemma KeywordAtSound(s: string, i: nat, name: string)
    requires KeywordAt(s, i, name).Some?
    ensures KeywordAt(s, i, name).value in Keywords
    ensures OccursAt(s, Head(KeywordAt(s, i, name).value, name), i)
  {
  }

  lemma AssignEndSound(s: string, j: nat)
    requires j <= |s| && AssignEnd(s, j).Some?
    ensures AssignAt(s, j, Span(s, j, Space), AssignEnd(s, j).value)
    ensures RunEnds(s, AssignEnd(s, j).value, Space)
  {
    var k := Span(s, j, Space);
    SpanRun(s, j, Space);
    SpanRun(s, k + 1, Space);
  }

  /** The characters a match captures: `s[start..end]`. */
  datatype Group = Group(start: nat, end: nat)

  /** The regular expression `p` tried at index `i` of `s`, with the group
      the lister reads. Each repetition is greedy, and none of them can give
      back characters to let the rest match, because what follows each of
      them lies outside its class; so no backtracking is needed. */
  function MatchAt(p: Pattern, s: string, i: nat): Option<Group>
  {
    match p
    case QuotedConfig(name) => MatchQuoted(s, i, name)
    case NumericConfig(name) => MatchNumeric(s, i, name)
    case HandlerAlias => MatchAlias(s, i)
    case DefaultExport => MatchDefault(s, i)
    case DefaultExportWord => MatchDefaultWord(s, i)
  }

  function MatchQuoted(s: string, i: nat, name: string): Option<Group>
  {
    match KeywordAt(s, i, name)
    case None => None
    case Some(kw) =>
      match AssignEnd(s, i + |Head(kw, name)|)
      case None => None
      case Some(m) =>
        if m < |s| && IsQuote(s[m]) then
          var e := Span(s, m + 1, NotQuote);
          if m + 1 < e < |s| then Some(Group(m + 1, e)) else None
        else None
  }

  function MatchNumeric(s: string, i: nat, name: string): Option<Group>
  {
    match KeywordAt(s, i, name)
    case None => None
    case Some(kw) =>
      match AssignEnd(s, i + |Head(kw, name)|)
      case None => None
      case Some(m) =>
        var e := Span(s, m, Digit);
        if m < e then Some(Group(m, e)) else None
  }

  function MatchAlias(s: string, i: nat): Option<Group>
  {
    if OccursAt(s, "export const {", i) then
      var e := Span(s, i + 14, NotCloseBrace);
      if i + 14 < e < |s| then
        match AssignEnd(s, e + 1)
        case None => None
        case Some(m) => if OccursAt(s, "handlers", m) then Some(Group(i + 14, e)) else None
      else None
    else None
  }

  function MatchDefault(s: string, i: nat): Option<Group>
  {
    if OccursAt(s, "export default ", i) then
      if AsyncNamedAt(s, i) then Some(Group(i + 30, Span(s, i + 30, Word)))
      else if i + 15 < |s| && IsWordChar(s[i + 15]) then Some(Group(i + 15, Span(s, i + 15, Word)))
      else None
    else None
  }

  function MatchDefaultWord(s: string, i: nat): Option<Group>
  {
    if OccursAt(s, "export default ", i) && i + 15 < |s| && IsWordChar(s[i + 15]) then
      Some(Group(i + 15, Span(s, i + 15, Word)))
    else None
  }

  /** At `i` stands `export default async function ` followed by a word character,
      so the optional group of `DefaultExport` takes part in the match. */
  predicate AsyncNamedAt(s: string, i: int) {
    OccursAt(s, "export default async function ", i) && i + 30 < |s| && IsWordChar(s[i + 30])
  }

  /** The run of class `cls` that ends at `k` cannot be extended. */
  predicate RunEnds(s: string, k: int, cls: CharClass) {
    0 <= k <= |s| && (k == |s| || !In(cls, s[k]))
  }

  /** The nonempty run `s[g.start..g.end]` of class `cls`, followed by no further `cls` character. */
  predicate MaximalRun(s: string, g: Group, cls: CharClass) {
    g.start < g.end <= |s| && AllIn(cls, s[g.start..g.end]) && RunEnds(s, g.end, cls)
  }

  /** `export <kw> <name>`, then `\s*=\s*` with its `=` at `k`, then a quote,
      the group, and a quote. */
  predicate QuotedDeclVia(s: string, i: int, name: string, kw: string, k: int, g: Group) {
    kw in Keywords && OccursAt(s, Head(kw, name), i)
    && AssignAt(s, i + |Head(kw, name)|, k, g.start - 1)
    && MaximalRun(s, g, NotQuote) && IsQuote(s[g.start - 1]) && g.end < |s|
  }

  /** `export <kw> <name>`, then `\s*=\s*` with its `=` at `k`, then the group of digits. */
  predicate NumericDeclVia(s: string, i: int, name: string, kw: string, k: int, g: Group) {
    kw in Keywords && OccursAt(s, Head(kw, name), i)
    && AssignAt(s, i + |Head(kw, name)|, k, g.start) && MaximalRun(s, g, Digit)
  }

  /** After the closing brace at `g.end`: `\s*=\s*` from `g.end + 1` to `m`, then `handlers`. */
  predicate AliasTailVia(s: string, g: Group, k: int, m: int) {
    AssignAt(s, g.end + 1, k, m) && OccursAt(s, "handlers", m)
  }

  /** What the text at `i` must be for pattern `p` to match there with group
      `g`, said character by character, without reference to the matcher. */
  ghost predicate Decl(p: Pattern, s: string, i: int, g: Group) {
    match p
    case QuotedConfig(name) => exists kw, k :: QuotedDeclVia(s, i, name, kw, k, g)
    case NumericConfig(name) => exists kw, k :: NumericDeclVia(s, i, name, kw, k, g)
    case HandlerAlias =>
      OccursAt(s, "export const {", i) && g.start == i + 14 && MaximalRun(s, g, NotCloseBrace)
      && g.end < |s| && s[g.end] == '}' && exists k, m :: AliasTailVia(s, g, k, m)
    case DefaultExport =>
      OccursAt(s, "export default ", i) && MaximalRun(s, g, Word)
      && g.start == (if AsyncNamedAt(s, i) then i + 30 else i + 15)
    case DefaultExportWord =>
      OccursAt(s, "export default ", i) && g.start == i + 15 && MaximalRun(s, g, Word)
  }

  lemma KeywordAtComplete(s: string, i: nat, name: string, kw: string)
    requires kw in Keywords && OccursAt(s, Head(kw, name), i)
    ensures KeywordAt(s, i, name) == Some(kw)
  {
    assert s[i + 7] == s[i..i + |Head(kw, name)|][7] == kw[0];
  }

  lemma AssignEndComplete(s: string, j: nat, k: int, m: int)
    requires AssignAt(s, j, k, m) && RunEnds(s, m, Space)
    ensures AssignEnd(s, j) == Some(m) && Span(s, j, Space) == k
  {
    SpanExact(s, j, k, Space);
    SpanExact(s, k + 1, m, Space);
  }

  lemma QuotedSound(s: string, i: nat, name: string)
    requires MatchQuoted(s, i, name).Some?
    ensures Decl(QuotedConfig(name), s, i, MatchQuoted(s, i, name).value)
  {
    KeywordAtSound(s, i, name);
    var kw := KeywordAt(s, i, name).value;
    var k := Span(s, i + |Head(kw, name)|, Space);
    AssignEndSound(s, i + |Head(kw, name)|);
    var g := MatchQuoted(s, i, name).value;
    SpanRun(s, g.start, NotQuote);
    assert QuotedDeclVia(s, i, name, kw, k, MatchQuoted(s, i, name).value);
  }

  lemma QuotedComplete(s: string, i: nat, name: string, g: Group)
    requires Decl(QuotedConfig(name), s, i, g)
    ensures MatchQuoted(s, i, name) == Some(g)
  {
    var kw, k :| QuotedDeclVia(s, i, name, kw, k, g);
    assert IsQuote(s[g.start - 1]);
    assert RunEnds(s, g.start - 1, Space);
    KeywordAtComplete(s, i, name, kw);
    AssignEndComplete(s, i + |Head(kw, name)|, k, g.start - 1);
    SpanExact(s, g.start, g.end, NotQuote);
    MatchQuotedWhen(s, i, name, kw, g.start - 1);
  }

  lemma MatchQuotedWhen(s: string, i: nat, name: string, kw: string, m: nat)
    requires KeywordAt(s, i, name) == Some(kw)
    requires AssignEnd(s, i + |Head(kw, name)|) == Some(m)
    requires m < |s| && IsQuote(s[m])
    requires m + 1 < Span(s, m + 1, NotQuote) < |s|
    ensures MatchQuoted(s, i, name) == Some(Group(m + 1, Span(s, m + 1, NotQuote)))
  {
  }

  lemma NumericSound(s: string, i: nat, name: string)
    requires MatchNumeric(s, i, name).Some?
    ensures Decl(NumericConfig(name), s, i, MatchNumeric(s, i, name).value)
  {
    KeywordAtSound(s, i, name);
    var kw := KeywordAt(s, i, name).value;
    var k := Span(s, i + |Head(kw, name)|, Space);
    AssignEndSound(s, i + |Head(kw, name)|);
    var g := MatchNumeric(s, i, name).value;
    SpanRun(s, g.start, Digit);
    assert NumericDeclVia(s, i, name, kw, k, MatchNumeric(s, i, name).value);
  }

  lemma NumericComplete(s: string, i: nat, name: string, g: Group)
    requires Decl(NumericConfig(name), s, i, g)
    ensures MatchNumeric(s, i, name) == Some(g)
  {
    var kw, k :| NumericDeclVia(s, i, name, kw, k, g);
    assert s[g.start..g.end][0] == s[g.start];
    assert RunEnds(s, g.start, Space);
    KeywordAtComplete(s, i, name, kw);
    AssignEndComplete(s, i + |Head(kw, name)|, k, g.start);
    SpanExact(s, g.start, g.end, Digit);
    MatchNumericWhen(s, i, name, kw, g.start);
  }

  lemma MatchNumericWhen(s: string, i: nat, name: string, kw: string, m: nat)
    requires KeywordAt(s, i, name) == Some(kw)
    requires AssignEnd(s, i + |Head(kw, name)|) == Some(m)
    requires m < Span(s, m, Digit)
    ensures MatchNumeric(s, i, name) == Some(Group(m, Span(s, m, Digit)))
  {
  }

  lemma AliasSound(s: string, i: nat)
    requires MatchAlias(s, i).Some?
    ensures Decl(HandlerAlias, s, i, MatchAlias(s, i).value)
  {
    var g := MatchAlias(s, i).value;
    var m := AssignEnd(s, g.end + 1).value;
    AssignEndSound(s, g.end + 1);
    SpanRun(s, g.start, NotCloseBrace);
    assert AliasTailVia(s, g, Span(s, g.end + 1, Space), m);
  }

  lemma AliasComplete(s: string, i: nat, g: Group)
    requires Decl(HandlerAlias, s, i, g)
    ensures MatchAlias(s, i) == Some(g)
  {
    var k, m :| AliasTailVia(s, g, k, m);
    assert MaximalRun(s, g, NotCloseBrace);
    SpanExact(s, g.start, g.end, NotCloseBrace);
    assert s[m..m + 8] == "handlers";
    assert s[m] == s[m..m + 8][0];
    assert RunEnds(s, m, Space);
    AssignEndComplete(s, g.end + 1, k, m);
    MatchAliasWhen(s, i, m);
  }

  lemma MatchAliasWhen(s: string, i: nat, m: nat)
    requires OccursAt(s, "export const {", i)
    requires i + 14 < Span(s, i + 14, NotCloseBrace) < |s|
    requires AssignEnd(s, Span(s, i + 14, NotCloseBrace) + 1) == Some(m)
    requires OccursAt(s, "handlers", m)
    ensures MatchAlias(s, i) == Some(Group(i + 14, Span(s, i + 14, NotCloseBrace)))
  {
  }

  lemma MatchSound(p: Pattern, s: string, i: nat)
    requires MatchAt(p, s, i).Some?
    ensures Decl(p, s, i, MatchAt(p, s, i).value)
  {
    match p
    case QuotedConfig(name) => QuotedSound(s, i, name);
    case NumericConfig(name) => NumericSound(s, i, name);
    case HandlerAlias => AliasSound(s, i);
    case DefaultExport => SpanRun(s, MatchAt(p, s, i).value.start, Word);
    case DefaultExportWord => SpanRun(s, i + 15, Word);
  }

  lemma MatchComplete(p: Pattern, s: string, i: nat, g: Group)
    requires Decl(p, s, i, g)
    ensures MatchAt(p, s, i) == Some(g)
  {
    match p
    case QuotedConfig(name) => QuotedComplete(s, i, name, g);
    case NumericConfig(name) => NumericComplete(s, i, name, g);
    case HandlerAlias => AliasComplete(s, i, g);
    case DefaultExport => SpanExact(s, g.start, g.end, Word);
    case DefaultExportWord => SpanExact(s, g.start, g.end, Word);
  }

  /** The matcher and the declarative definition agree: `p` matches at `i`
      with group `g` exactly when the text there has the described shape. */
  lemma MatchIffDecl(p: Pattern, s: string, i: nat, g: Group)
    ensures MatchAt(p, s, i) == Some(g) <==> Decl(p, s, i, g)
  {
    if MatchAt(p, s, i) == Some(g) { MatchSound(p, s, i); }
    if Decl(p, s, i, g) { MatchComplete(p, s, i, g); }
  }
}
