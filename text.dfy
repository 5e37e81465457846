/** The JavaScript string operations the route lister relies on, over
    `string` = `seq<char>`: `includes`, `startsWith`, `split(',')`, `trim()`,
    `join(sep)`, and the character classes `\s`, `\d` and `\w` of its regular
    expressions. */
module Text {

  /** JavaScript's `\s`, which is also the set `String.prototype.trim` removes:
      the ECMAScript WhiteSpace and LineTerminator code points. */
  predicate IsSpace(c: char) {
    var n := c as int;
    (9 <= n <= 13) || n == 0x20 || n == 0xA0 || n == 0x1680 || (0x2000 <= n <= 0x200A)
    || n == 0x2028 || n == 0x2029 || n == 0x202F || n == 0x205F || n == 0x3000 || n == 0xFEFF
  }

  /** `\d`: an ASCII decimal digit. */
  predicate IsDigit(c: char) {
    '0' <= c <= '9'
  }

  /** `\w`: an ASCII letter, digit or underscore. */
  predicate IsWordChar(c: char) {
    ('a' <= c <= 'z') || ('A' <= c <= 'Z') || IsDigit(c) || c == '_'
  }

  /** `['"]`: either quote character. */
  predicate IsQuote(c: char) {
    c == '\'' || c == '"'
  }

  /** The character classes the regular expressions of the lister repeat with `*` or `+`. */
  datatype CharClass = Space | Digit | Word | NotQuote | NotCloseBrace

  predicate In(cls: CharClass, c: char) {
    match cls
    case Space => IsSpace(c)
    case Digit => IsDigit(c)
    case Word => IsWordChar(c)
    case NotQuote => !IsQuote(c)
    case NotCloseBrace => c != '}'
  }

  predicate AllIn(cls: CharClass, w: string) {
    forall k :: 0 <= k < |w| ==> In(cls, w[k])
  }

  /** `p` occurs in `s` starting at index `i`. */
  predicate OccursAt(s: string, p: string, i: int) {
    0 <= i && i + |p| <= |s| && s[i..i + |p|] == p
  }

  /** `s.includes(p)`. */
  predicate Contains(s: string, p: string) {
    exists i | 0 <= i <= |s| :: OccursAt(s, p, i)
  }

  /** `s.startsWith(p)`. */
  predicate StartsWith(s: string, p: string) {
    OccursAt(s, p, 0)
  }

  /** A concatenated pattern occurs exactly when its two parts occur back to back. */
  lemma OccursAtAppend(s: string, p: string, q: string, i: int)
    ensures OccursAt(s, p + q, i) <==> OccursAt(s, p, i) && OccursAt(s, q, i + |p|)
  {
    if OccursAt(s, p, i) && OccursAt(s, q, i + |p|) {
      assert s[i..i + |p + q|] == s[i..i + |p|] + s[i + |p|..i + |p| + |q|];
    }
    if OccursAt(s, p + q, i) {
      assert s[i..i + |p|] == (p + q)[..|p|];
      assert s[i + |p|..i + |p| + |q|] == (p + q)[|p|..];
    }
  }

  /** A pattern that contains `q` occurs in `s` only if `q` does. */
  lemma ContainsInner(s: string, p: string, q: string, j: int)
    requires OccursAt(p, q, j) && Contains(s, p)
    ensures Contains(s, q)
  {
    var i :| 0 <= i <= |s| && OccursAt(s, p, i);
    assert s[i..i + |p|] == p;
    assert forall k :: 0 <= k < |q| ==> s[i + j + k] == s[i..i + |p|][j + k] == q[k];
    assert s[i + j..i + j + |q|] == q;
    assert OccursAt(s, q, i + j);
  }

  /** What occurs in either part of a text occurs in the whole. */
  lemma ContainsAppend(a: string, b: string, q: string)
    ensures Contains(a, q) || Contains(b, q) ==> Contains(a + b, q)
  {
    if Contains(a, q) {
      assert (a + b)[0..|a|] == a;
      assert OccursAt(a + b, a, 0);
      var i :| 0 <= i <= |a| && OccursAt(a, q, i);
      ContainsInner(a + b, a, q, i);
    }
    if Contains(b, q) {
      assert (a + b)[|a|..|a| + |b|] == b;
      assert OccursAt(a + b, b, |a|);
      var i :| 0 <= i <= |b| && OccursAt(b, q, i);
      ContainsInner(a + b, b, q, i);
    }
  }

  /** The end of the longest run of `cls` characters of `s` starting at `j`. */
  function Span(s: string, j: nat, cls: CharClass): (e: nat)
    requires j <= |s|
    ensures j <= e <= |s|
    ensures e == |s| || !In(cls, s[e])
    decreases |s| - j
  {
    if j < |s| && In(cls, s[j]) then Span(s, j + 1, cls) else j
  }

  /** Every character the run covers belongs to the class. */
  lemma {:induction false} SpanRun(s: string, j: nat, cls: CharClass)
    requires j <= |s|
    ensures AllIn(cls, s[j..Span(s, j, cls)])
    decreases |s| - j
  {
    if j < |s| && In(cls, s[j]) {
      SpanRun(s, j + 1, cls);
      assert s[j..Span(s, j, cls)] == [s[j]] + s[j + 1..Span(s, j + 1, cls)];
    }
  }

  /** A run that ends where the class stops is the longest one: the greedy
      repetitions of the regular expressions capture exactly such a run. */
  lemma {:induction false} SpanExact(s: string, j: nat, k: nat, cls: CharClass)
    requires j <= k <= |s|
    requires AllIn(cls, s[j..k])
    requires k == |s| || !In(cls, s[k])
    ensures Span(s, j, cls) == k
    decreases k - j
  {
    if j < k {
      assert s[j] == s[j..k][0];
      assert s[j + 1..k] == s[j..k][1..];
      SpanExact(s, j + 1, k, cls);
    }
  }

  /** `s.split(sep)` for a one-character separator: the pieces between the
      separators, including empty pieces at either end. */
  function Split(s: string, sep: char): (parts: seq<string>)
    ensures |parts| >= 1
    ensures forall k :: 0 <= k < |parts| ==> sep !in parts[k]
    ensures Join(parts, [sep]) == s
  {
    if s == [] then [[]]
    else
      var rest := Split(s[1..], sep);
      if s[0] == sep then [[]] + rest
      else (JoinConsFirst(s[0], rest, [sep]); [[s[0]] + rest[0]] + rest[1..])
  }

  /** `parts.join(sep)`. */
  function Join(parts: seq<string>, sep: string): string
  {
    if |parts| == 0 then []
    else if |parts| == 1 then parts[0]
    else parts[0] + sep + Join(parts[1..], sep)
  }

  lemma JoinConsFirst(c: char, parts: seq<string>, sep: string)
    requires |parts| >= 1
    ensures Join([[c] + parts[0]] + parts[1..], sep) == [c] + Join(parts, sep)
  {
    var q := [[c] + parts[0]] + parts[1..];
    assert q[1..] == parts[1..];
  }

  /** The other half of the round trip: pieces free of the separator are
      recovered by splitting their join. */
  lemma {:induction false} SplitJoin(parts: seq<string>, sep: char)
    requires |parts| >= 1
    requires forall k :: 0 <= k < |parts| ==> sep !in parts[k]
    ensures Split(Join(parts, [sep]), sep) == parts
    decreases |parts|, |parts[0]|
  {
    if |parts[0]| > 0 {
      var c := parts[0][0];
      var tail := [parts[0][1..]] + parts[1..];
      assert parts[0] == [c] + parts[0][1..];
      assert tail[1..] == parts[1..];
      assert forall k :: 0 <= k < |tail| ==> sep !in tail[k] by {
        forall k | 0 <= k < |tail| ensures sep !in tail[k] {
          if k == 0 { assert forall x :: x in parts[0][1..] ==> x in parts[0]; } else { assert tail[k] == parts[k]; }
        }
      }
      SplitJoin(tail, sep);
      JoinConsFirst(c, tail, [sep]);
      assert [[c] + tail[0]] + tail[1..] == parts;
      var s := Join(parts, [sep]);
      assert s[1..] == Join(tail, [sep]);
      assert s[0] == c && c != sep;
    } else if |parts| > 1 {
      var s := Join(parts, [sep]);
      assert s == [sep] + Join(parts[1..], [sep]);
      assert s[1..] == Join(parts[1..], [sep]);
      SplitJoin(parts[1..], sep);
      assert [[]] + parts[1..] == parts;
    }
  }

  /** The start of the longest run of white space ending at `e`, not below `lo`. */
  function SpanBack(s: string, lo: nat, e: nat): (b: nat)
    requires lo <= e <= |s|
    ensures lo <= b <= e
    ensures AllIn(Space, s[b..e])
    ensures b == lo || !IsSpace(s[b - 1])
    decreases e
  {
    if e > lo && IsSpace(s[e - 1]) then
      var b := SpanBack(s, lo, e - 1);
      assert s[b..e] == s[b..e - 1] + [s[e - 1]];
      b
    else e
  }

  /** `r` is the piece of `s` at index `a`, and only white space lies around it. */
  predicate TrimmedAt(s: string, r: string, a: int) {
    0 <= a && a + |r| <= |s| && r == s[a..a + |r|] && AllIn(Space, s[..a]) && AllIn(Space, s[a + |r|..])
  }

  /** `s.trim()`: `s` without its leading and trailing white space. What is
      left is a contiguous piece of `s`, with only white space cut on either
      side, and no white space at either end. */
  function Trim(s: string): (r: string)
    ensures exists a :: TrimmedAt(s, r, a)
    ensures r == [] || (!IsSpace(r[0]) && !IsSpace(r[|r| - 1]))
  {
    var a := Span(s, 0, Space);
    var b := SpanBack(s, a, |s|);
    SpanRun(s, 0, Space);
    assert TrimmedAt(s, s[a..b], a) by {
      assert s[..a] == s[0..a];
      assert s[a + |s[a..b]|..] == s[b..|s|];
    }
    s[a..b]
  }
}
