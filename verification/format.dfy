/** Scanning of an nginx `log_format` string. The compiler first escapes the
    literal prefix before the first `$`, then runs the global pattern
    `\$([a-z_]+)(.)?([^\$]+)?` over the resulting working string: each match
    is a directive with a name, an optional single boundary character and an
    optional run of trailing literal text. Text no match covers is left in
    the working string as it is; it is kept here as Plain tokens, so the
    token list is a lossless reading of the working string. */
module Format {
  import opened Wrappers
  import JsString
  import Escape

  /** `[a-z_]`, the characters of a directive name. */
  predicate IsNameChar(c: char) {
    ('a' <= c <= 'z') || c == '_'
  }

  /** The characters JavaScript's `.` does not match. */
  predicate IsLineTerminator(c: char) {
    c == '\n' || c == '\r' || c == '\U{2028}' || c == '\U{2029}'
  }

  datatype Token =
    | Plain(text: string)
    | Directive(name: string, boundary: Option<char>, lit: string)

  /** The working-string text a token was scanned from. */
  function Source(t: Token): string {
    match t
    case Plain(text) => text
    case Directive(name, boundary, lit) =>
      "$" + name + (if boundary.Some? then [boundary.value] else "") + lit
  }

  function SourceAll(ts: seq<Token>): string {
    if |ts| == 0 then "" else Source(ts[0]) + SourceAll(ts[1..])
  }

  /** The length of the longest prefix of `s` made of name characters. */
  function NameLen(s: string): (n: nat)
    ensures n <= |s|
    ensures forall i :: 0 <= i < n ==> IsNameChar(s[i])
    ensures n < |s| ==> !IsNameChar(s[n])
  {
    if |s| == 0 || !IsNameChar(s[0]) then 0 else 1 + NameLen(s[1..])
  }

  /** The directive pattern tried at the start of `s`, which begins with `$`:
      the greedy name, then any one character except a line terminator as
      the boundary, then the longest run of non-`$` text as the literal.
      None when no name character follows the `$`. */
  function MatchDirective(s: string): (r: Option<Token>)
    requires |s| > 0 && s[0] == '$'
    ensures r.Some? ==> r.value.Directive?
    ensures r.None? <==> |s| == 1 || !IsNameChar(s[1])
  {
    var n := NameLen(s[1..]);
    if n == 0 then None
    else
      var j := 1 + n;
      var b := if j < |s| && !IsLineTerminator(s[j]) then Some(s[j]) else None;
      var k := if b.Some? then j + 1 else j;
      var l := JsString.FirstIndex(s[k..], '$');
      Some(Directive(s[1..j], b, s[k..k + l]))
  }

  /** A directive match is well formed, is a prefix of `s`, and ends where
      `s` ends or at a `$`; one with neither boundary nor literal ends `s`. */
  lemma MatchDirectiveScanned(s: string)
    requires |s| > 0 && s[0] == '$' && MatchDirective(s).Some?
    ensures var t := MatchDirective(s).value;
      && WellScanned(t)
      && |Source(t)| <= |s| && s[..|Source(t)|] == Source(t)
      && (|Source(t)| == |s| || s[|Source(t)|] == '$')
      && (Bare(t) ==> |Source(t)| == |s|)
  {
    MatchDirectiveWell(s);
    MatchDirectiveEnds(s);
  }

  lemma MatchDirectiveWell(s: string)
    requires |s| > 0 && s[0] == '$' && MatchDirective(s).Some?
    ensures WellScanned(MatchDirective(s).value)
  {
    var t := MatchDirective(s).value;
    var n := NameLen(s[1..]);
    var j := 1 + n;
    var k := if t.boundary.Some? then j + 1 else j;
    var l := JsString.FirstIndex(s[k..], '$');
    assert t.name == s[1..][..n];
    assert t.lit == s[k..][..l];
    assert t.boundary.None? && |t.lit| > 0 ==> t.lit[0] == s[j];
  }

  lemma MatchDirectiveEnds(s: string)
    requires |s| > 0 && s[0] == '$' && MatchDirective(s).Some?
    ensures var t := MatchDirective(s).value;
      && |Source(t)| <= |s| && s[..|Source(t)|] == Source(t)
      && (|Source(t)| == |s| || s[|Source(t)|] == '$')
      && (Bare(t) ==> |Source(t)| == |s|)
  {
    var t := MatchDirective(s).value;
    var n := NameLen(s[1..]);
    var j := 1 + n;
    var b := t.boundary;
    var k := if b.Some? then j + 1 else j;
    var l := JsString.FirstIndex(s[k..], '$');
    assert t.name == s[1..j] && t.lit == s[k..k + l];
    assert b.None? && j < |s| ==> s[j] == s[1..][n];
    assert k + l < |s| ==> s[k + l] == s[k..][l];
    DirectiveSource(s, t, j, k, l);
  }

  lemma DirectiveSource(s: string, t: Token, j: nat, k: nat, l: nat)
    requires t.Directive? && 1 <= j <= k <= k + l <= |s| && s[0] == '$'
    requires t.name == s[1..j] && t.lit == s[k..k + l]
    requires t.boundary.Some? ==> k == j + 1 && s[j] == t.boundary.value
    requires t.boundary.None? ==> k == j
    ensures Source(t) == s[..k + l]
  {
    assert s[..k + l] == s[..1] + s[1..j] + s[j..k] + s[k..k + l];
  }

  /** Text the scan passes over: from the start of `s` up to the next `$`. */
  function Skip(s: string): (t: Token)
    requires |s| > 0
    requires s[0] == '$' ==> |s| == 1 || !IsNameChar(s[1])
    ensures t.Plain? && WellScanned(t)
    ensures |Source(t)| <= |s| && s[..|Source(t)|] == Source(t)
    ensures |Source(t)| == |s| || s[|Source(t)|] == '$'
  {
    var f := JsString.FirstIndex(s[1..], '$');
    var t := Plain(s[..1 + f]);
    assert t.text[1..] == s[1..][..f];
    assert 1 + f < |s| ==> s[1 + f] == s[1..][f];
    t
  }

  /** The next token of the scan. */
  function Next(s: string): (t: Token)
    requires |s| > 0
    ensures WellScanned(t)
    ensures 0 < |Source(t)| <= |s| && s[..|Source(t)|] == Source(t)
    ensures |Source(t)| == |s| || s[|Source(t)|] == '$'
    ensures Bare(t) ==> |Source(t)| == |s|
  {
    if s[0] == '$' && MatchDirective(s).Some? then
      MatchDirectiveScanned(s);
      MatchDirective(s).value
    else Skip(s)
  }

  /** The exec loop: a directive where the pattern matches, otherwise the
      text up to the next `$` is skipped. */
  function Tokenise(s: string): (ts: seq<Token>)
    decreases |s|
    ensures SourceAll(ts) == s
  {
    if |s| == 0 then []
    else
      var t := Next(s);
      assert s == Source(t) + s[|Source(t)|..];
      [t] + Tokenise(s[|Source(t)|..])
  }

  /** The directives, in scanning order. */
  function Directives(ts: seq<Token>): (ds: seq<Token>)
    ensures forall i :: 0 <= i < |ds| ==> ds[i].Directive?
    ensures |ds| <= |ts|
  {
    if |ts| == 0 then []
    else if ts[0].Directive? then [ts[0]] + Directives(ts[1..])
    else Directives(ts[1..])
  }

  /** Their names, in scanning order. */
  function Names(ts: seq<Token>): (ns: seq<string>)
    ensures |ns| == |Directives(ts)|
    ensures forall i :: 0 <= i < |ns| ==> ns[i] == Directives(ts)[i].name
  {
    if |ts| == 0 then []
    else if ts[0].Directive? then [ts[0].name] + Names(ts[1..])
    else Names(ts[1..])
  }

  /** What one token must look like when it came out of the scan. */
  predicate WellScanned(t: Token) {
    match t
    case Plain(text) =>
      && |text| > 0
      && '$' !in text[1..]
      && (text[0] == '$' ==> |text| == 1 || !IsNameChar(text[1]))
    case Directive(name, b, lit) =>
      && |name| > 0
      && (forall i :: 0 <= i < |name| ==> IsNameChar(name[i]))
      && '$' !in lit
      && (b.Some? ==> !IsNameChar(b.value) && !IsLineTerminator(b.value))
      && (b.None? && |lit| > 0 ==> IsLineTerminator(lit[0]))
  }

  predicate StartsWithDollar(t: Token) {
    |Source(t)| > 0 && Source(t)[0] == '$'
  }

  /** A directive with neither boundary nor literal ended the string. */
  predicate Bare(t: Token) {
    t.Directive? && t.boundary.None? && t.lit == ""
  }

  /** The shape of every token list the scan produces. */
  predicate Canonical(ts: seq<Token>) {
    && (forall i :: 0 <= i < |ts| ==> WellScanned(ts[i]))
    && (forall i :: 0 < i < |ts| ==> StartsWithDollar(ts[i]))
    && (forall i :: 0 <= i < |ts| - 1 ==> !Bare(ts[i]))
  }

  /** The first `c` in `a + b` is at `|a|` when `a` has none and `b` starts with one. */
  lemma FirstIndexAt(a: string, b: string, c: char)
    requires c !in a
    requires |b| == 0 || b[0] == c
    ensures JsString.FirstIndex(a + b, c) == |a|
  {
    assert (a + b)[..|a|] == a;
  }

  lemma NameLenAt(a: string, b: string)
    requires forall i :: 0 <= i < |a| ==> IsNameChar(a[i])
    requires |b| == 0 || !IsNameChar(b[0])
    ensures NameLen(a + b) == |a|
  {
    var s := a + b;
    assert forall i :: 0 <= i < |a| ==> s[i] == a[i];
    assert |a| < |s| ==> s[|a|] == b[0];
  }

  lemma CanonicalCons(t: Token, ts: seq<Token>)
    requires WellScanned(t) && Canonical(ts)
    requires |ts| > 0 ==> StartsWithDollar(ts[0]) && !Bare(t)
    ensures Canonical([t] + ts)
  {
    var us := [t] + ts;
    forall i | 0 < i < |us| ensures StartsWithDollar(us[i]) {
      assert us[i] == ts[i - 1];
    }
    forall i | 0 <= i < |us| ensures WellScanned(us[i]) {
      if i > 0 { assert us[i] == ts[i - 1]; }
    }
    forall i | 0 <= i < |us| - 1 ensures !Bare(us[i]) {
      if i > 0 { assert us[i] == ts[i - 1]; }
    }
  }

  /** The scan of any string is canonical. */
  lemma {:induction false} TokeniseCanonical(s: string)
    ensures Canonical(Tokenise(s))
    decreases |s|
  {
    if |s| > 0 {
      var t := Next(s);
      var rest := s[|Source(t)|..];
      var ts := Tokenise(rest);
      assert Tokenise(s) == [t] + ts;
      TokeniseCanonical(rest);
      if |ts| > 0 {
        assert Source(ts[0]) + SourceAll(ts[1..]) == rest;
        assert Source(ts[0])[0] == rest[0];
      }
      CanonicalCons(t, ts);
    }
  }

  /** A well-formed token followed by the end or by a `$` is what the scan
      reads first. */
  lemma NextOf(t: Token, rest: string)
    requires WellScanned(t)
    requires |rest| == 0 || rest[0] == '$'
    requires Bare(t) ==> |rest| == 0
    ensures Next(Source(t) + rest) == t
  {
    if t.Plain? {
      NextOfPlain(t.text, rest);
    } else {
      NextOfDirective(t.name, t.boundary, t.lit, rest);
    }
  }

  lemma NextOfPlain(text: string, rest: string)
    requires WellScanned(Plain(text))
    requires |rest| == 0 || rest[0] == '$'
    ensures Next(text + rest) == Plain(text)
  {
    var s := text + rest;
    assert s[1..] == text[1..] + rest;
    FirstIndexAt(text[1..], rest, '$');
    if text[0] == '$' {
      assert |s| == 1 || !IsNameChar(s[1]) by {
        if |text| == 1 && |s| > 1 {
          assert s[1] == rest[0];
        }
      }
    }
    assert s[..|text|] == text;
  }

  lemma NextOfDirective(name: string, b: Option<char>, lit: string, rest: string)
    requires WellScanned(Directive(name, b, lit))
    requires |rest| == 0 || rest[0] == '$'
    requires Bare(Directive(name, b, lit)) ==> |rest| == 0
    ensures Next(Source(Directive(name, b, lit)) + rest) == Directive(name, b, lit)
  {
    var bs := if b.Some? then [b.value] else "";
    var head := "$" + name + bs;
    var s := head + (lit + rest);
    assert Source(Directive(name, b, lit)) == head + lit;
    assert (head + lit) + rest == head + (lit + rest);
    DirectiveLayout(name, bs, lit, rest);
    DirectiveAfterName(name, bs, lit, rest);
    DirectiveLit(head, lit, rest);
    MatchDirectiveIs(s, name, b, |head|, lit);
  }

  /** Where the name of a directive and what follows it sit in its text. */
  lemma DirectiveLayout(name: string, bs: string, lit: string, rest: string)
    requires |name| > 0 && forall i :: 0 <= i < |name| ==> IsNameChar(name[i])
    requires |bs| <= 1
    requires |bs| == 1 ==> !IsNameChar(bs[0])
    requires |bs| == 0 && |lit| > 0 ==> !IsNameChar(lit[0])
    requires |rest| == 0 || rest[0] == '$'
    ensures var s := ("$" + name + bs) + (lit + rest);
      var j := 1 + |name|;
      && |s| > 0 && s[0] == '$'
      && j <= |s| && NameLen(s[1..]) == |name| && s[1..j] == name
  {
    var s := ("$" + name + bs) + (lit + rest);
    var after := bs + lit + rest;
    assert s == "$" + name + after;
    assert |after| == 0 || !IsNameChar(after[0]) by {
      if |after| > 0 && |bs| == 0 && |lit| > 0 {
        assert after[0] == lit[0];
      }
    }
    DirectiveName(name, after);
    assert s[1..1 + |name|] == name;
  }

  /** The character after the name: the boundary if there is one, else the
      start of the literal, else the end of the directive. */
  lemma DirectiveAfterName(name: string, bs: string, lit: string, rest: string)
    requires |bs| == 0 && |lit| == 0 ==> |rest| == 0
    ensures var s := ("$" + name + bs) + (lit + rest);
      var j := 1 + |name|;
      && (|bs| == 1 ==> j < |s| && s[j] == bs[0])
      && (|bs| == 0 ==> (j == |s| || (|lit| > 0 && s[j] == lit[0])))
  {
  }

  lemma DirectiveName(name: string, after: string)
    requires |name| > 0 && forall i :: 0 <= i < |name| ==> IsNameChar(name[i])
    requires |after| == 0 || !IsNameChar(after[0])
    ensures NameLen(("$" + name + after)[1..]) == |name|
  {
    assert ("$" + name + after)[1..] == name + after;
    NameLenAt(name, after);
  }

  lemma DirectiveLit(head: string, lit: string, rest: string)
    requires '$' !in lit
    requires |rest| == 0 || rest[0] == '$'
    ensures JsString.FirstIndex((head + (lit + rest))[|head|..], '$') == |lit|
    ensures (head + (lit + rest))[|head|..|head| + |lit|] == lit
  {
    assert (head + (lit + rest))[|head|..] == lit + rest;
    FirstIndexAt(lit, rest, '$');
  }

  lemma MatchDirectiveIs(s: string, name: string, b: Option<char>, k: nat, lit: string)
    requires |s| > 0 && s[0] == '$'
    requires |name| > 0 && 1 + |name| <= |s| && NameLen(s[1..]) == |name| && s[1..1 + |name|] == name
    requires b.Some? ==> 1 + |name| < |s| && s[1 + |name|] == b.value && !IsLineTerminator(b.value)
    requires b.None? ==> 1 + |name| == |s| || IsLineTerminator(s[1 + |name|])
    requires k == (if b.Some? then 2 + |name| else 1 + |name|)
    requires k + |lit| <= |s| && JsString.FirstIndex(s[k..], '$') == |lit| && s[k..k + |lit|] == lit
    ensures Next(s) == Directive(name, b, lit)
  {
  }

  /** The scan is the only canonical reading of a string: any canonical
      token list is recovered from its own text. */
  lemma {:induction false} TokeniseUnique(ts: seq<Token>)
    requires Canonical(ts)
    ensures Tokenise(SourceAll(ts)) == ts
    decreases |ts|
  {
    if |ts| > 0 {
      CanonicalTail(ts);
      CanonicalHead(ts);
      TokeniseUnique(ts[1..]);
      TokeniseCons(ts[0], SourceAll(ts[1..]), ts[1..]);
      assert ts == [ts[0]] + ts[1..];
    }
  }

  /** What follows the first token of a canonical list lets the scan stop
      exactly at that token's end. */
  lemma CanonicalHead(ts: seq<Token>)
    requires |ts| > 0 && Canonical(ts)
    ensures SourceAll(ts) == Source(ts[0]) + SourceAll(ts[1..])
    ensures var rest := SourceAll(ts[1..]);
      && (|rest| == 0 || rest[0] == '$')
      && (Bare(ts[0]) ==> |rest| == 0)
  {
    if |ts| > 1 {
      assert StartsWithDollar(ts[1]);
      assert SourceAll(ts[1..]) == Source(ts[1]) + SourceAll(ts[2..]);
      assert !Bare(ts[0]);
    }
  }

  /** Scanning a token's source followed by text that starts at a `$`. */
  lemma TokeniseCons(t: Token, rest: string, tail: seq<Token>)
    requires WellScanned(t)
    requires |rest| == 0 || rest[0] == '$'
    requires Bare(t) ==> |rest| == 0
    requires Tokenise(rest) == tail
    ensures Tokenise(Source(t) + rest) == [t] + tail
  {
    NextOf(t, rest);
    var s := Source(t) + rest;
    assert s[|Source(t)|..] == rest;
  }

  lemma CanonicalTail(ts: seq<Token>)
    requires |ts| > 0 && Canonical(ts)
    ensures Canonical(ts[1..])
  {
    forall i | 0 <= i < |ts| - 1 ensures WellScanned(ts[1..][i]) && !(i > 0 && !StartsWithDollar(ts[1..][i])) {
      assert ts[1..][i] == ts[i + 1];
    }
    forall i | 0 <= i < |ts| - 2 ensures !Bare(ts[1..][i]) {
      assert ts[1..][i] == ts[i + 1];
    }
  }

  lemma {:induction false} SourceAllConcat(a: seq<Token>, b: seq<Token>)
    ensures SourceAll(a + b) == SourceAll(a) + SourceAll(b)
    decreases |a|
  {
    if |a| == 0 {
      assert a + b == b;
    } else {
      assert (a + b)[1..] == a[1..] + b;
      SourceAllConcat(a[1..], b);
    }
  }

  lemma {:induction false} NamesConcat(a: seq<Token>, b: seq<Token>)
    ensures Names(a + b) == Names(a) + Names(b)
    decreases |a|
  {
    if |a| == 0 {
      assert a + b == b;
    } else {
      assert (a + b)[1..] == a[1..] + b;
      NamesConcat(a[1..], b);
    }
  }
}
