/** The `Parser` constructor: it escapes the literal prefix, scans the
    directives, gives each the next capture index, and replaces each
    directive's text in the working string by a pattern fragment. */
module Compiler {
  import opened Wrappers
  import JsString
  import Escape
  import opened Format

  /** The compiled parser: the pattern text handed to `new RegExp`, and the
      map from directive name to 1-based capture-group index. */
  datatype Matcher = Matcher(pattern: string, directives: map<string, nat>)

  /** The text `^[^\$]*` matches: everything before the first `$`. */
  function Prefix(format: string): (p: string)
    ensures '$' !in p
    ensures |p| <= |format| && format[..|p|] == p
    ensures |p| == |format| || format[|p|] == '$'
  {
    format[..JsString.FirstIndex(format, '$')]
  }

  /** The string the directives are scanned in: the escaped prefix followed
      by the format from its first `$` on. */
  function Working(format: string): (w: string)
    ensures var e := Escape.Escape(Prefix(format));
      && '$' !in e
      && |e| <= |w| && w[..|e|] == e
      && w[|e|..] == format[|Prefix(format)|..]
  {
    var p := Prefix(format);
    Escape.EscapeKeeps(p, '$');
    Escape.Escape(p) + format[|p|..]
  }

  /** The fragment a directive is replaced by: a lazy capture of anything
      but the boundary, then the boundary and the literal, all escaped; with
      no boundary, a greedy capture of the rest of the line. A fragment
      starts a group; when neither its boundary nor its literal holds `$`,
      `replace` inserts it verbatim and no directive text can be found in it. */
  function Fragment(d: Token): (f: string)
    requires d.Directive?
    ensures |f| > 0 && f[0] == '('
    ensures d.boundary != Some('$') && '$' !in d.lit ==> JsString.Verbatim(f) && Inert(f)
  {
    match d.boundary
    case Some(b) =>
      Escape.EscapeKeeps([b], '$');
      Escape.EscapeKeeps(d.lit, '$');
      var f := "([^" + Escape.Escape([b]) + "]*?)" + Escape.Escape([b]) + Escape.Escape(d.lit);
      assert b != '$' && '$' !in d.lit ==> '$' !in f;
      f
    case None => "(.+)$"
  }

  /** The pattern a token list stands for: plain text as it is, each
      directive by its fragment. */
  function Render(ts: seq<Token>): string {
    if |ts| == 0 then ""
    else (if ts[0].Directive? then Fragment(ts[0]) else ts[0].text) + Render(ts[1..])
  }

  /** The one name the constructor cannot store: assigning a number to an
      object's `__proto__` key is ignored by JavaScript, and `__proto__`
      is made of characters the directive pattern accepts. */
  const ProtoKey: string := "__proto__"

  /** The name-to-index map the constructor builds: the k-th name gets
      index k, counting from 1, a later occurrence of a name overwrites
      an earlier one, and `__proto__` is never stored. */
  function Indices(names: seq<string>): (m: map<string, nat>)
    ensures IndexMap(names, m)
  {
    if |names| == 0 then map[]
    else
      var n := |names|;
      var m := Indices(names[..n - 1]);
      IndicesStep(names, m);
      Store(m, names[n - 1], n)
  }

  /** Every name but `__proto__` is a key; each key maps to the position,
      counting from 1, of its last occurrence. */
  predicate IndexMap(names: seq<string>, m: map<string, nat>) {
    && (forall i :: 0 <= i < |names| && names[i] != ProtoKey ==> names[i] in m)
    && (forall x :: x in m ==> x != ProtoKey && 1 <= m[x] <= |names| && names[m[x] - 1] == x)
    && (forall x, j :: x in m && m[x] <= j < |names| ==> names[j] != x)
  }

  /** One assignment `directives[x] = n` on a plain JavaScript object. */
  function Store(m: map<string, nat>, x: string, n: nat): map<string, nat>
  {
    if x == ProtoKey then m else m[x := n]
  }

  lemma IndicesStep(names: seq<string>, m: map<string, nat>)
    requires |names| > 0 && IndexMap(names[..|names| - 1], m)
    ensures IndexMap(names, Store(m, names[|names| - 1], |names|))
  {
    var n := |names|;
    var p := names[..n - 1];
    var m' := Store(m, names[n - 1], n);
    forall i | 0 <= i < n && names[i] != ProtoKey ensures names[i] in m' {
      if i < n - 1 { assert names[i] == p[i]; }
    }
    forall x | x in m' ensures x != ProtoKey && 1 <= m'[x] <= n && names[m'[x] - 1] == x {
      if x != names[n - 1] { assert names[m[x] - 1] == p[m[x] - 1]; }
    }
    forall x, j | x in m' && m'[x] <= j < n ensures names[j] != x {
      if x != names[n - 1] && j < n - 1 { assert names[j] == p[j]; }
    }
  }

  /** The map holds exactly the names that occur, apart from `__proto__`. */
  lemma IndicesKeys(names: seq<string>)
    ensures Indices(names).Keys == (set i | 0 <= i < |names| :: names[i]) - {ProtoKey}
  {
  }

  /** There are never more entries than directive occurrences. */
  lemma {:induction false} IndicesSize(names: seq<string>)
    ensures |Indices(names)| <= |names|
  {
    if |names| > 0 {
      var n := |names|;
      IndicesSize(names[..n - 1]);
      var m := Indices(names[..n - 1]);
      if names[n - 1] != ProtoKey {
        assert Indices(names) == m[names[n - 1] := n];
        assert Indices(names).Keys == m.Keys + {names[n - 1]};
        assert |m.Keys + {names[n - 1]}| <= |m.Keys| + 1;
      }
    }
  }

  /** When no name repeats, the k-th directive's name maps to k (unless it
      is `__proto__`). */
  lemma IndicesDistinct(names: seq<string>, k: nat)
    requires forall i, j :: 0 <= i < j < |names| ==> names[i] != names[j]
    requires k < |names| && names[k] != ProtoKey
    ensures Indices(names)[names[k]] == k + 1
  {
  }

  /** The replacement loop: each directive's text is replaced, first
      occurrence only, by its fragment. A text with no `$` holds no
      directive text, so the loop leaves it as it is. On an inert, already
      rendered prefix followed by the text of canonical tokens without a
      `$` boundary, it renders those tokens: each first occurrence is the
      directive's own position. */
  function ReplaceAll(parser: string, ds: seq<Token>): (r: string)
    requires forall i :: 0 <= i < |ds| ==> ds[i].Directive?
    decreases |ds|
    ensures '$' !in parser ==> r == parser
    ensures forall pre, ts :: Splits(parser, ds, pre, ts) ==> r == pre + Render(ts)
  {
    if |ds| == 0 then
      NoDirectivesRender(parser);
      parser
    else
      var next := JsString.ReplaceFirst(parser, Source(ds[0]), Fragment(ds[0]));
      assert '$' !in parser ==> next == parser by {
        if '$' !in parser {
          DollarFree(parser, ds[0]);
        }
      }
      var r := ReplaceAll(next, ds[1..]);
      RenderStep(parser, ds, r);
      r
  }

  /** `parser` is an inert, already rendered prefix `pre` followed by the
      text of the canonical tokens `ts` without a `$` boundary, whose
      directives are `ds`. */
  predicate Splits(parser: string, ds: seq<Token>, pre: string, ts: seq<Token>) {
    && Canonical(ts) && NoDollarBoundary(ts) && Inert(pre)
    && (|pre| > 0 && |ts| > 0 ==> StartsWithDollar(ts[0]))
    && parser == pre + SourceAll(ts) && ds == Directives(ts)
  }

  /** Tokens without directives are rendered as their own text. */
  lemma NoDirectivesRender(parser: string)
    ensures forall pre, ts :: Splits(parser, [], pre, ts) ==> parser == pre + Render(ts)
  {
    forall pre, ts | Splits(parser, [], pre, ts) ensures parser == pre + Render(ts) {
      PlainRender(ts);
    }
  }

  lemma {:induction false} PlainRender(ts: seq<Token>)
    requires Directives(ts) == []
    ensures SourceAll(ts) == Render(ts)
    decreases |ts|
  {
    if |ts| > 0 {
      PlainRender(ts[1..]);
    }
  }

  /** One pass of the loop: what renders after the first replacement
      renders before it. */
  lemma RenderStep(parser: string, ds: seq<Token>, r: string)
    requires |ds| > 0 && forall i :: 0 <= i < |ds| ==> ds[i].Directive?
    requires forall pre, ts ::
      Splits(JsString.ReplaceFirst(parser, Source(ds[0]), Fragment(ds[0])), ds[1..], pre, ts) ==> r == pre + Render(ts)
    ensures forall pre, ts :: Splits(parser, ds, pre, ts) ==> r == pre + Render(ts)
  {
    forall pre, ts | Splits(parser, ds, pre, ts) ensures r == pre + Render(ts) {
      var pre', ts' := Peel(parser, ds, pre, ts);
    }
  }

  /** Moves the plain tokens before the first directive, and then that
      directive's fragment, into the rendered prefix: the result splits
      the text after the first replacement. */
  lemma {:induction false} Peel(parser: string, ds: seq<Token>, pre: string, ts: seq<Token>)
    returns (pre': string, ts': seq<Token>)
    requires |ds| > 0 && Splits(parser, ds, pre, ts)
    ensures Splits(JsString.ReplaceFirst(parser, Source(ds[0]), Fragment(ds[0])), ds[1..], pre', ts')
    ensures pre + Render(ts) == pre' + Render(ts')
    decreases |ts|
  {
    var t := ts[0];
    var rest := SourceAll(ts[1..]);
    CanonicalTail(ts);
    assert NoDollarBoundary(ts[1..]) by {
      forall i | 0 <= i < |ts| - 1 && ts[1..][i].Directive? ensures ts[1..][i].boundary != Some('$') {
        assert ts[1..][i] == ts[i + 1];
      }
    }
    assert |rest| == 0 || rest[0] == '$' by {
      if |ts| > 1 {
        assert StartsWithDollar(ts[1]);
      }
    }
    var r := StepRenders(pre, t, rest);
    RenderOnto(pre, ts);
    assert SourceAll(ts) == Source(t) + rest;
    assert |r| > 0 && |ts| > 1 ==> StartsWithDollar(ts[1]);
    if t.Directive? {
      assert ds[0] == t && ds[1..] == Directives(ts[1..]);
      pre', ts' := r, ts[1..];
    } else {
      assert ds == Directives(ts[1..]);
      pre', ts' := Peel(parser, ds, r, ts[1..]);
    }
  }

  /** Rendering after a prefix is rendering the first token onto the
      prefix, then the rest. */
  lemma RenderOnto(pre: string, ts: seq<Token>)
    requires |ts| > 0
    ensures pre + Render(ts)
      == (pre + (if ts[0].Directive? then Fragment(ts[0]) else ts[0].text)) + Render(ts[1..])
  {
  }

  /** A directive's text starts with `$`, so it does not occur in a text without one. */
  lemma DollarFree(s: string, d: Token)
    requires d.Directive? && '$' !in s
    ensures JsString.IndexOf(s, Source(d)).None?
  {
    assert Source(d)[0] == '$';
  }

  /** The constructor. The directive map sends each scanned name but
      `__proto__` to the index of its last occurrence; when no directive
      uses `$` as its boundary, the pattern is the scanned working string
      rendered token by token. */
  function Compile(format: string): (m: Matcher)
    ensures IndexMap(Names(Tokenise(Working(format))), m.directives)
    ensures NoDollarBoundary(Tokenise(Working(format))) ==>
      m.pattern == Render(Tokenise(Working(format)))
  {
    var w := Working(format);
    var ts := Tokenise(w);
    RendersWhenNoDollar(w);
    Matcher(ReplaceAll(w, Directives(ts)), Indices(Names(ts)))
  }

  /** The replacement loop over a scanned string renders its tokens, when
      no directive uses `$` as its boundary. */
  lemma RendersWhenNoDollar(w: string)
    ensures NoDollarBoundary(Tokenise(w)) ==> ReplaceAll(w, Directives(Tokenise(w))) == Render(Tokenise(w))
  {
    var ts := Tokenise(w);
    if NoDollarBoundary(ts) {
      TokeniseCanonical(w);
      assert "" + SourceAll(ts) == w;
      assert Splits(w, Directives(ts), "", ts);
      assert "" + Render(ts) == Render(ts);
    }
  }

  /** No `$` in `r` is followed by a name character, so no directive text
      can occur in `r`. */
  predicate Inert(r: string) {
    forall p :: 0 <= p < |r| - 1 && r[p] == '$' ==> !IsNameChar(r[p + 1])
  }

  /** No directive uses `$` as its boundary. */
  predicate NoDollarBoundary(ts: seq<Token>) {
    forall i :: 0 <= i < |ts| && ts[i].Directive? ==> ts[i].boundary != Some('$')
  }

  lemma InertConcat(a: string, b: string)
    requires Inert(a) && Inert(b)
    requires |a| > 0 && |b| > 0 && a[|a| - 1] == '$' ==> !IsNameChar(b[0])
    ensures Inert(a + b)
  {
    var s := a + b;
    forall p | 0 <= p < |s| - 1 && s[p] == '$' ensures !IsNameChar(s[p + 1]) {
      if p < |a| - 1 {
        assert s[p] == a[p] && s[p + 1] == a[p + 1];
      } else if p == |a| - 1 {
        assert s[p] == a[p] && s[p + 1] == b[0];
      } else {
        assert s[p] == b[p - |a|] && s[p + 1] == b[p - |a| + 1];
      }
    }
  }

  lemma PlainInert(t: Token)
    requires t.Plain? && WellScanned(t)
    ensures Inert(t.text)
  {
    forall p | 0 < p < |t.text| ensures t.text[p] != '$' {
      assert t.text[p] == t.text[1..][p - 1];
    }
  }

  /** Directive text cannot start inside an inert string followed by `$`. */
  lemma NoEarlierOccurrence(r: string, x: string, pat: string)
    requires Inert(r)
    requires |pat| >= 2 && pat[0] == '$' && IsNameChar(pat[1])
    requires |x| > 0 && x[0] == '$'
    ensures forall j: nat :: j < |r| ==> !JsString.OccursAt(r + x, pat, j)
  {
    var s := r + x;
    forall j: nat | j < |r| ensures !JsString.OccursAt(s, pat, j) {
      if j + |pat| <= |s| {
        assert s[j..j + |pat|][0] == s[j] && s[j..j + |pat|][1] == s[j + 1];
        if j < |r| - 1 {
          assert s[j] == r[j] && s[j + 1] == r[j + 1];
        } else {
          assert s[j + 1] == x[0];
        }
      }
    }
  }

  /** One step of the loop: the first token is consumed, the prefix grows
      by its rendering, and stays inert. */
  lemma StepRenders(r: string, t: Token, rest: string) returns (r': string)
    requires WellScanned(t) && Inert(r)
    requires t.Directive? ==> t.boundary != Some('$')
    requires |r| > 0 ==> StartsWithDollar(t)
    requires |rest| == 0 || rest[0] == '$'
    ensures r' == r + (if t.Directive? then Fragment(t) else t.text)
    ensures Inert(r')
    ensures t.Plain? ==> r' + rest == r + (Source(t) + rest)
    ensures t.Directive? ==>
      JsString.ReplaceFirst(r + (Source(t) + rest), Source(t), Fragment(t)) == r' + rest
  {
    if t.Plain? {
      PlainInert(t);
      InertConcat(r, t.text);
      r' := r + t.text;
      assert (r + t.text) + rest == r + (t.text + rest);
    } else {
      r' := StepDirective(r, t, rest);
    }
  }

  lemma StepDirective(r: string, t: Token, rest: string) returns (r': string)
    requires t.Directive? && WellScanned(t) && Inert(r)
    requires t.boundary != Some('$')
    requires |rest| == 0 || rest[0] == '$'
    ensures r' == r + Fragment(t)
    ensures Inert(r')
    ensures JsString.ReplaceFirst(r + (Source(t) + rest), Source(t), Fragment(t)) == r' + rest
  {
    var f := Fragment(t);
    var src := Source(t);
    var s := r + (src + rest);
    assert s[..|r|] == r && s[|r|..|r| + |src|] == src && s[|r| + |src|..] == rest;
    assert JsString.ReplaceFirst(s, src, f) == s[..|r|] + f + s[|r| + |src|..] by {
      NoEarlierOccurrence(r, src + rest, src);
      JsString.ReplaceFirstSplices(s, src, f, |r|);
    }
    assert Inert(r + f) by {
      InertConcat(r, f);
    }
    r' := r + f;
  }

  lemma {:induction false} RenderConcat(a: seq<Token>, b: seq<Token>)
    ensures Render(a + b) == Render(a) + Render(b)
    decreases |a|
  {
    if |a| == 0 {
      assert a + b == b;
    } else {
      assert (a + b)[1..] == a[1..] + b;
      RenderConcat(a[1..], b);
    }
  }
}
