/** Formats as their authors write them: a literal prefix, then directives,
    each `$name` followed by a boundary character and literal text, the last
    one possibly with neither. For such formats the compiled pattern is the
    expected sequence of pieces, and substituting values into the format
    gives a line the compiled parser takes apart into exactly those values. */
module Layout {
  import opened Wrappers
  import Escape
  import JsString
  import opened Format
  import Compiler
  import opened Pattern

  datatype Field = Field(name: string, boundary: Option<char>, lit: string)

  datatype Layout = Layout(prefix: string, fields: seq<Field>)

  function FieldToken(f: Field): Token {
    Directive(f.name, f.boundary, f.lit)
  }

  function FieldTokens(fs: seq<Field>): (ts: seq<Token>)
    ensures |ts| == |fs|
    ensures forall i :: 0 <= i < |fs| ==> ts[i] == FieldToken(fs[i])
  {
    if |fs| == 0 then [] else [FieldToken(fs[0])] + FieldTokens(fs[1..])
  }

  function FieldNames(fs: seq<Field>): (ns: seq<string>)
    ensures |ns| == |fs|
    ensures forall i :: 0 <= i < |fs| ==> ns[i] == fs[i].name
  {
    if |fs| == 0 then [] else [fs[0].name] + FieldNames(fs[1..])
  }

  /** The format string. */
  function Text(l: Layout): string {
    l.prefix + SourceAll(FieldTokens(l.fields))
  }

  /** A format without a literal prefix is the text of its directives. */
  lemma TextWithoutPrefix(l: Layout)
    requires l.prefix == ""
    ensures Text(l) == SourceAll(FieldTokens(l.fields))
  {
  }

  predicate AllLiteral(s: string) {
    forall i :: 0 <= i < |s| ==> Literal(s[i])
  }

  /** A field the compiler handles as its author means it: a proper name; a
      boundary that cannot extend the name, is matched by `.`, and is a plain
      literal in a pattern; a literal of plain pattern characters; and no
      boundary only on the last field, with no literal after it. */
  predicate WellFormedField(f: Field, last: bool) {
    && |f.name| > 0
    && (forall i :: 0 <= i < |f.name| ==> IsNameChar(f.name[i]))
    && AllLiteral(f.lit)
    && match f.boundary
       case Some(b) => !IsNameChar(b) && !IsLineTerminator(b) && Literal(b)
       case None => last && f.lit == ""
  }

  predicate WellFormedFields(fs: seq<Field>) {
    forall i :: 0 <= i < |fs| ==> WellFormedField(fs[i], i == |fs| - 1)
  }

  predicate WellFormed(l: Layout) {
    AllLiteral(l.prefix) && WellFormedFields(l.fields)
  }

  function LitAtoms(s: string): (atoms: seq<Atom>)
    ensures |atoms| == |s|
    ensures forall i :: 0 <= i < |s| ==> atoms[i] == Lit(s[i])
  {
    if |s| == 0 then [] else [Lit(s[0])] + LitAtoms(s[1..])
  }

  function FieldAtoms(f: Field): seq<Atom> {
    match f.boundary
    case Some(b) => [Until(b)] + LitAtoms(f.lit)
    case None => [ToEnd]
  }

  function FieldsAtoms(fs: seq<Field>): seq<Atom> {
    if |fs| == 0 then [] else FieldAtoms(fs[0]) + FieldsAtoms(fs[1..])
  }

  lemma {:induction false} LitAtomsGroups(s: string)
    ensures GroupCount(LitAtoms(s)) == 0
    decreases |s|
  {
    if |s| > 0 {
      LitAtomsGroups(s[1..]);
      assert LitAtoms(s)[1..] == LitAtoms(s[1..]);
    }
  }

  /** Each directive's fragment holds exactly one capture group. */
  lemma {:induction false} FieldsGroups(fs: seq<Field>)
    ensures GroupCount(FieldsAtoms(fs)) == |fs|
    decreases |fs|
  {
    if |fs| > 0 {
      var f := fs[0];
      if f.boundary.Some? {
        LitAtomsGroups(f.lit);
        assert ([Until(f.boundary.value)] + LitAtoms(f.lit))[1..] == LitAtoms(f.lit);
      }
      GroupCountConcat(FieldAtoms(f), FieldsAtoms(fs[1..]));
      FieldsGroups(fs[1..]);
    }
  }

  /** The pieces the compiled pattern of a well-formed format stands for. */
  function Atoms(l: Layout): seq<Atom> {
    LitAtoms(l.prefix) + FieldsAtoms(l.fields)
  }

  /** A line written in the format: each directive replaced by its value. */
  function FillFields(fs: seq<Field>, vs: seq<string>): string
    requires |vs| == |fs|
  {
    if |fs| == 0 then ""
    else
      vs[0] + (if fs[0].boundary.Some? then [fs[0].boundary.value] else "") + fs[0].lit
        + FillFields(fs[1..], vs[1..])
  }

  function Fill(l: Layout, vs: seq<string>): string
    requires |vs| == |l.fields|
  {
    l.prefix + FillFields(l.fields, vs)
  }

  /** Values the format can carry: none holds its field's boundary, and the
      value of a field without boundary is non-empty with no line terminator. */
  predicate FitsField(f: Field, v: string) {
    match f.boundary
    case Some(b) => b !in v
    case None => |v| > 0 && NoLineTerminator(v)
  }

  predicate Fits(fs: seq<Field>, vs: seq<string>) {
    |vs| == |fs| && forall i :: 0 <= i < |fs| ==> FitsField(fs[i], vs[i])
  }

  /** The last field has no boundary, so a match runs to the end of the line. */
  predicate Terminal(fs: seq<Field>) {
    |fs| > 0 && fs[|fs| - 1].boundary.None?
  }

  /** The token the escaped prefix becomes, if any. */
  function PrefixTokens(prefix: string): seq<Token> {
    if |prefix| == 0 then [] else [Plain(Escape.Escape(prefix))]
  }

  lemma {:induction false} FieldTokensCanonical(fs: seq<Field>)
    requires WellFormedFields(fs)
    ensures Canonical(FieldTokens(fs))
    ensures |fs| > 0 ==> StartsWithDollar(FieldTokens(fs)[0])
    decreases |fs|
  {
    if |fs| > 0 {
      var t := FieldToken(fs[0]);
      assert WellFormedFields(fs[1..]) by {
        forall i | 0 <= i < |fs| - 1 ensures WellFormedField(fs[1..][i], i == |fs[1..]| - 1) {
          assert fs[1..][i] == fs[i + 1];
        }
      }
      FieldTokensCanonical(fs[1..]);
      assert WellFormedField(fs[0], 0 == |fs| - 1);
      assert WellScanned(t);
      assert |fs| > 1 ==> !Bare(t);
      CanonicalCons(t, FieldTokens(fs[1..]));
      assert FieldTokens(fs) == [t] + FieldTokens(fs[1..]);
    }
  }

  /** The prefix scanned by the constructor is the layout's prefix, and the
      working string is its escaped form followed by the directives. */
  lemma WorkingOfText(l: Layout)
    requires WellFormed(l)
    ensures Compiler.Prefix(Text(l)) == l.prefix
    ensures Compiler.Working(Text(l)) == Escape.Escape(l.prefix) + SourceAll(FieldTokens(l.fields))
  {
    var rest := SourceAll(FieldTokens(l.fields));
    FieldTokensCanonical(l.fields);
    if |l.fields| > 0 {
      var ts := FieldTokens(l.fields);
      assert rest == Source(ts[0]) + SourceAll(ts[1..]);
    }
    assert '$' !in l.prefix by {
      forall i | 0 <= i < |l.prefix| ensures l.prefix[i] != '$' {
        assert Literal(l.prefix[i]);
      }
    }
    FirstIndexAt(l.prefix, rest, '$');
    assert (l.prefix + rest)[..|l.prefix|] == l.prefix;
    assert (l.prefix + rest)[|l.prefix|..] == rest;
  }

  /** Scanning a well-formed format finds the escaped prefix and then
      exactly the layout's directives. */
  lemma ScanLayout(l: Layout)
    requires WellFormed(l)
    ensures Tokenise(Compiler.Working(Text(l))) == PrefixTokens(l.prefix) + FieldTokens(l.fields)
  {
    WorkingOfText(l);
    var ps := PrefixTokens(l.prefix);
    var fts := FieldTokens(l.fields);
    FieldTokensCanonical(l.fields);
    var e := Escape.Escape(l.prefix);
    Escape.EscapeKeeps(l.prefix, '$');
    assert '$' !in l.prefix by {
      forall i | 0 <= i < |l.prefix| ensures l.prefix[i] != '$' {
        assert Literal(l.prefix[i]);
      }
    }
    if |l.prefix| > 0 {
      assert WellScanned(Plain(e)) by {
        assert e[0] in e;
        assert forall c :: c in e[1..] ==> c in e;
      }
      CanonicalCons(Plain(e), fts);
    } else {
      assert ps + fts == fts;
    }
    SourceAllConcat(ps, fts);
    assert SourceAll(ps) == e;
    TokeniseUnique(ps + fts);
  }

  lemma {:induction false} ShowLits(s: string)
    ensures Show(LitAtoms(s)) == Escape.Escape(s)
    decreases |s|
  {
    if |s| > 0 {
      ShowLits(s[1..]);
      assert LitAtoms(s) == [Lit(s[0])] + LitAtoms(s[1..]);
      assert Escape.Escape(s) == Escape.Escape([s[0]]) + Escape.Escape(s[1..]) by {
        Escape.EscapeConcat([s[0]], s[1..]);
        assert s == [s[0]] + s[1..];
      }
    }
  }

  lemma {:induction false} RenderFields(fs: seq<Field>)
    ensures Compiler.Render(FieldTokens(fs)) == Show(FieldsAtoms(fs))
    decreases |fs|
  {
    if |fs| > 0 {
      var f := fs[0];
      RenderFields(fs[1..]);
      assert FieldTokens(fs) == [FieldToken(f)] + FieldTokens(fs[1..]);
      ShowConcat(FieldAtoms(f), FieldsAtoms(fs[1..]));
      if f.boundary.Some? {
        ShowLits(f.lit);
        ShowConcat([Until(f.boundary.value)], LitAtoms(f.lit));
      }
      assert Compiler.Fragment(FieldToken(f)) == Show(FieldAtoms(f));
    }
  }

  lemma NoDollarBoundaryOfLayout(l: Layout)
    requires WellFormed(l)
    ensures Compiler.NoDollarBoundary(PrefixTokens(l.prefix) + FieldTokens(l.fields))
  {
    var ts := PrefixTokens(l.prefix) + FieldTokens(l.fields);
    var p := |PrefixTokens(l.prefix)|;
    forall i | 0 <= i < |ts| && ts[i].Directive? ensures ts[i].boundary != Some('$') {
      assert ts[i] == FieldToken(l.fields[i - p]);
      assert WellFormedField(l.fields[i - p], i - p == |l.fields| - 1);
    }
  }

  /** The compiled pattern of a well-formed format is the pattern text of
      its pieces: the escaped prefix, then per directive a boundary capture
      and its escaped literal, or the terminal capture. */
  lemma CompiledPattern(l: Layout)
    requires WellFormed(l)
    ensures Compiler.Compile(Text(l)).pattern == Show(Atoms(l))
  {
    ScanLayout(l);
    NoDollarBoundaryOfLayout(l);
    Compiler.RenderConcat(PrefixTokens(l.prefix), FieldTokens(l.fields));
    RenderFields(l.fields);
    ShowLits(l.prefix);
    ShowConcat(LitAtoms(l.prefix), FieldsAtoms(l.fields));
  }

  /** The capture indices of a well-formed format: the k-th directive gets
      k, and a repeated name keeps its last index. */
  lemma CompiledIndices(l: Layout)
    requires WellFormed(l)
    ensures Compiler.Compile(Text(l)).directives == Compiler.Indices(FieldNames(l.fields))
  {
    ScanLayout(l);
    assert Compiler.Compile(Text(l)).directives
      == Compiler.Indices(Names(Tokenise(Compiler.Working(Text(l)))));
    var ps := PrefixTokens(l.prefix);
    var fts := FieldTokens(l.fields);
    NamesConcat(ps, fts);
    assert Names(ps) == [];
    FieldNamesOfTokens(l.fields);
    assert Names(ps + fts) == FieldNames(l.fields);
  }

  lemma {:induction false} FieldNamesOfTokens(fs: seq<Field>)
    ensures Names(FieldTokens(fs)) == FieldNames(fs)
    decreases |fs|
  {
    if |fs| > 0 {
      FieldNamesOfTokens(fs[1..]);
      assert FieldTokens(fs) == [FieldToken(fs[0])] + FieldTokens(fs[1..]);
    }
  }

  /** Literal pieces match exactly their own characters. */
  lemma {:induction false} MatchLits(s: string, atoms: seq<Atom>, x: string)
    ensures MatchAt(LitAtoms(s) + atoms, s + x) == MatchAt(atoms, x)
    decreases |s|
  {
    if |s| > 0 {
      assert LitAtoms(s) + atoms == [Lit(s[0])] + (LitAtoms(s[1..]) + atoms);
      assert (s + x)[1..] == s[1..] + x;
      MatchLits(s[1..], atoms, x);
    } else {
      assert LitAtoms(s) + atoms == atoms;
      assert s + x == x;
    }
  }

  lemma {:induction false} MatchLitsSound(s: string, atoms: seq<Atom>, y: string)
    requires MatchAt(LitAtoms(s) + atoms, y).Some?
    ensures |s| <= |y| && y[..|s|] == s
    ensures MatchAt(atoms, y[|s|..]) == MatchAt(LitAtoms(s) + atoms, y)
    decreases |s|
  {
    if |s| > 0 {
      var all := LitAtoms(s) + atoms;
      assert all == [Lit(s[0])] + (LitAtoms(s[1..]) + atoms);
      assert all[0] == Lit(s[0]) && all[1..] == LitAtoms(s[1..]) + atoms;
      assert |y| > 0 && y[0] == s[0] && MatchAt(all, y) == MatchAt(all[1..], y[1..]);
      MatchLitsSound(s[1..], atoms, y[1..]);
      assert y[1..][|s| - 1..] == y[|s|..];
      assert y[..|s|] == [y[0]] + y[1..][..|s| - 1];
    } else {
      assert LitAtoms(s) + atoms == atoms;
    }
  }

  lemma WellFormedFieldsTail(fs: seq<Field>)
    requires |fs| > 0 && WellFormedFields(fs)
    ensures WellFormedFields(fs[1..])
    ensures WellFormedField(fs[0], |fs| == 1)
  {
    forall i | 0 <= i < |fs| - 1 ensures WellFormedField(fs[1..][i], i == |fs[1..]| - 1) {
      assert fs[1..][i] == fs[i + 1];
    }
  }

  /** A boundary piece takes the value up to its boundary, then the
      literal pieces take the literal. */
  lemma MatchUntil(b: char, v: string, lit: string, atoms: seq<Atom>, x: string)
    requires b !in v
    ensures MatchAt([Until(b)] + (LitAtoms(lit) + atoms), v + [b] + lit + x)
         == PrependGroup(v, MatchAt(atoms, x))
  {
    var s := v + [b] + lit + x;
    var after := lit + x;
    assert s == v + ([b] + after);
    FirstIndexAt(v, [b] + after, b);
    assert s[..|v|] == v;
    assert s[|v| + 1..] == after;
    MatchLits(lit, atoms, x);
    assert ([Until(b)] + (LitAtoms(lit) + atoms))[1..] == LitAtoms(lit) + atoms;
  }

  lemma FitsTail(fs: seq<Field>, vs: seq<string>)
    requires |fs| > 0 && Fits(fs, vs)
    ensures Fits(fs[1..], vs[1..]) && FitsField(fs[0], vs[0])
  {
    forall i | 0 <= i < |fs| - 1 ensures FitsField(fs[1..][i], vs[1..][i]) {
      assert fs[1..][i] == fs[i + 1] && vs[1..][i] == vs[i + 1];
    }
  }

  /** Substituting fitting values into the directives gives text the
      directives' pieces match, recovering exactly those values; trailing
      text is ignored unless the last directive is terminal. */
  lemma {:induction false} MatchFill(fs: seq<Field>, vs: seq<string>, tail: string)
    requires WellFormedFields(fs) && Fits(fs, vs)
    requires Terminal(fs) ==> tail == ""
    ensures MatchAt(FieldsAtoms(fs), FillFields(fs, vs) + tail) == Some(vs)
    decreases |fs|
  {
    if |fs| > 0 {
      var f := fs[0];
      var v := vs[0];
      WellFormedFieldsTail(fs);
      FitsTail(fs, vs);
      var rest := FillFields(fs[1..], vs[1..]);
      assert vs == [v] + vs[1..];
      if f.boundary.Some? {
        var b := f.boundary.value;
        assert Terminal(fs[1..]) ==> Terminal(fs);
        MatchFill(fs[1..], vs[1..], tail);
        FillFieldsUnfold(fs, vs, tail);
        assert FieldsAtoms(fs) == [Until(b)] + (LitAtoms(f.lit) + FieldsAtoms(fs[1..]));
        MatchUntil(b, v, f.lit, FieldsAtoms(fs[1..]), rest + tail);
      } else {
        assert FillFields(fs, vs) + tail == v;
        assert FieldsAtoms(fs) == [ToEnd];
      }
    }
  }

  /** What a boundary piece can have matched: the text before the first
      boundary, then the boundary. */
  lemma MatchUntilStep(b: char, rest: seq<Atom>, s: string, gs: seq<string>)
    requires MatchAt([Until(b)] + rest, s) == Some(gs)
    ensures |gs| >= 1 && |gs[0]| < |s| && s[..|gs[0]|] == gs[0] && s[|gs[0]|] == b && b !in gs[0]
    ensures MatchAt(rest, s[|gs[0]| + 1..]) == Some(gs[1..])
  {
    assert ([Until(b)] + rest)[1..] == rest;
  }

  /** What a boundary piece and its literal pieces can have matched: the
      first group up to the boundary, the literal, then the rest from `n`. */
  lemma MatchUntilSound(b: char, lit: string, atoms: seq<Atom>, s: string, gs: seq<string>)
    returns (n: nat)
    requires MatchAt([Until(b)] + (LitAtoms(lit) + atoms), s) == Some(gs)
    ensures |gs| >= 1 && b !in gs[0]
    ensures n == |gs[0]| + 1 + |lit| && n <= |s|
    ensures s[..n] == gs[0] + [b] + lit
    ensures MatchAt(atoms, s[n..]) == Some(gs[1..])
  {
    MatchUntilStep(b, LitAtoms(lit) + atoms, s, gs);
    n := MatchUntilLits(lit, atoms, s, |gs[0]| + 1, gs[1..]);
    PrefixJoin(s, gs[0], b, lit, n);
  }

  lemma MatchUntilLits(lit: string, atoms: seq<Atom>, s: string, k: nat, gs: seq<string>)
    returns (n: nat)
    requires k <= |s| && MatchAt(LitAtoms(lit) + atoms, s[k..]) == Some(gs)
    ensures n == k + |lit| && n <= |s| && s[k..n] == lit
    ensures MatchAt(atoms, s[n..]) == Some(gs)
  {
    MatchLitsSound(lit, atoms, s[k..]);
    n := k + |lit|;
    assert s[k..][|lit|..] == s[n..];
    assert s[k..][..|lit|] == s[k..n];
  }

  lemma PrefixJoin(s: string, g: string, b: char, lit: string, n: nat)
    requires n == |g| + 1 + |lit| && n <= |s|
    requires s[..|g|] == g && s[|g|] == b && s[|g| + 1..n] == lit
    ensures s[..n] == g + [b] + lit
  {
    assert s[..n] == s[..|g|] + [s[|g|]] + s[|g| + 1..n];
  }

  /** Conversely, whatever the directives' pieces match is a substitution
      of fitting values into the directives, followed by anything only when
      the last directive has a boundary. */
  lemma {:induction false} MatchFillSound(fs: seq<Field>, s: string, gs: seq<string>)
    requires WellFormedFields(fs)
    requires MatchAt(FieldsAtoms(fs), s) == Some(gs)
    ensures Fits(fs, gs)
    ensures |FillFields(fs, gs)| <= |s| && s[..|FillFields(fs, gs)|] == FillFields(fs, gs)
    ensures Terminal(fs) ==> |FillFields(fs, gs)| == |s|
    decreases |fs|
  {
    if |fs| == 0 {
    } else if fs[0].boundary.Some? {
      var n := MatchFillHead(fs, s, gs);
      MatchFillSound(fs[1..], s[n..], gs[1..]);
      MatchFillJoin(fs, s, gs, n);
    } else {
      MatchFillLast(fs, s, gs);
    }
  }

  /** What the pieces of a first directive with a boundary have matched. */
  lemma MatchFillHead(fs: seq<Field>, s: string, gs: seq<string>) returns (n: nat)
    requires WellFormedFields(fs) && |fs| > 0 && fs[0].boundary.Some?
    requires MatchAt(FieldsAtoms(fs), s) == Some(gs)
    ensures |gs| >= 1 && FitsField(fs[0], gs[0])
    ensures n == |gs[0]| + 1 + |fs[0].lit| && n <= |s|
    ensures s[..n] == gs[0] + [fs[0].boundary.value] + fs[0].lit
    ensures WellFormedFields(fs[1..]) && MatchAt(FieldsAtoms(fs[1..]), s[n..]) == Some(gs[1..])
  {
    WellFormedFieldsTail(fs);
    FieldsAtomsBoundary(fs);
    n := MatchUntilSound(fs[0].boundary.value, fs[0].lit, FieldsAtoms(fs[1..]), s, gs);
  }

  lemma {:induction false} FieldsAtomsBoundary(fs: seq<Field>)
    requires |fs| > 0 && fs[0].boundary.Some?
    ensures FieldsAtoms(fs)
         == [Until(fs[0].boundary.value)] + (LitAtoms(fs[0].lit) + FieldsAtoms(fs[1..]))
  {
    var head := [Until(fs[0].boundary.value)];
    assert FieldsAtoms(fs) == (head + LitAtoms(fs[0].lit)) + FieldsAtoms(fs[1..]);
  }

  /** The first directive's match followed by the rest's is the whole fill. */
  lemma MatchFillJoin(fs: seq<Field>, s: string, gs: seq<string>, n: nat)
    requires |fs| > 0 && |gs| >= 1 && fs[0].boundary.Some? && FitsField(fs[0], gs[0])
    requires n == |gs[0]| + 1 + |fs[0].lit| && n <= |s|
    requires s[..n] == gs[0] + [fs[0].boundary.value] + fs[0].lit
    requires Fits(fs[1..], gs[1..])
    requires var rest := FillFields(fs[1..], gs[1..]);
      |rest| <= |s[n..]| && s[n..][..|rest|] == rest
      && (Terminal(fs[1..]) ==> |rest| == |s[n..]|)
    ensures Fits(fs, gs)
    ensures |FillFields(fs, gs)| <= |s| && s[..|FillFields(fs, gs)|] == FillFields(fs, gs)
    ensures Terminal(fs) ==> |FillFields(fs, gs)| == |s|
  {
    FitsCons(fs, gs);
    assert Terminal(fs) ==> Terminal(fs[1..]);
    FillFieldsCons(fs, gs, s, n);
  }

  /** A directive without a boundary is the last, and matches the rest. */
  lemma MatchFillLast(fs: seq<Field>, s: string, gs: seq<string>)
    requires WellFormedFields(fs) && |fs| > 0 && fs[0].boundary.None?
    requires MatchAt(FieldsAtoms(fs), s) == Some(gs)
    ensures Fits(fs, gs)
    ensures |FillFields(fs, gs)| <= |s| && s[..|FillFields(fs, gs)|] == FillFields(fs, gs)
    ensures Terminal(fs) ==> |FillFields(fs, gs)| == |s|
  {
    assert WellFormedField(fs[0], 0 == |fs| - 1);
    assert |fs| == 1;
    assert FieldsAtoms(fs) == [ToEnd];
    assert gs == [s];
  }

  lemma FitsCons(fs: seq<Field>, gs: seq<string>)
    requires |fs| > 0 && |gs| == |fs|
    requires FitsField(fs[0], gs[0]) && Fits(fs[1..], gs[1..])
    ensures Fits(fs, gs)
  {
    forall i | 0 < i < |fs| ensures FitsField(fs[i], gs[i]) {
      assert fs[i] == fs[1..][i - 1] && gs[i] == gs[1..][i - 1];
    }
  }

  lemma FillFieldsCons(fs: seq<Field>, gs: seq<string>, s: string, n: nat)
    requires |fs| > 0 && |gs| == |fs| && fs[0].boundary.Some?
    requires n == |gs[0]| + 1 + |fs[0].lit| && n <= |s|
    requires s[..n] == gs[0] + [fs[0].boundary.value] + fs[0].lit
    requires var rest := FillFields(fs[1..], gs[1..]);
      |rest| <= |s[n..]| && s[n..][..|rest|] == rest
    ensures |FillFields(fs, gs)| <= |s| && s[..|FillFields(fs, gs)|] == FillFields(fs, gs)
    ensures |FillFields(fs, gs)| == n + |FillFields(fs[1..], gs[1..])|
  {
    var rest := FillFields(fs[1..], gs[1..]);
    assert FillFields(fs, gs) == s[..n] + rest;
    assert s[..n + |rest|] == s[..n] + s[n..][..|rest|];
  }

  lemma FillFieldsUnfold(fs: seq<Field>, vs: seq<string>, tail: string)
    requires |fs| > 0 && |vs| == |fs| && fs[0].boundary.Some?
    ensures FillFields(fs, vs) + tail
         == vs[0] + [fs[0].boundary.value] + fs[0].lit + (FillFields(fs[1..], vs[1..]) + tail)
  {
  }

  /** `s` starts with the substitution of `vs` into the format, and is
      exactly that when the last directive is terminal. */
  predicate FillStarts(l: Layout, vs: seq<string>, s: string)
    requires |vs| == |l.fields|
  {
    var t := Fill(l, vs);
    |t| <= |s| && s[..|t|] == t && (Terminal(l.fields) ==> |t| == |s|)
  }

  lemma ReadAtoms(l: Layout)
    requires WellFormed(l)
    ensures Read(Show(Atoms(l))) == Some(Atoms(l))
  {
    var atoms := Atoms(l);
    var p := |l.prefix|;
    forall i | 0 <= i < |atoms| ensures Readable(atoms[i]) {
      if i >= p {
        FieldsAtomsReadable(l.fields, i - p);
        assert atoms[i] == FieldsAtoms(l.fields)[i - p];
      }
    }
    ReadShow(atoms);
  }

  lemma {:induction false} FieldsAtomsReadable(fs: seq<Field>, i: nat)
    requires WellFormedFields(fs) && i < |FieldsAtoms(fs)|
    ensures Readable(FieldsAtoms(fs)[i])
    decreases |fs|
  {
    WellFormedFieldsTail(fs);
    var head := FieldAtoms(fs[0]);
    assert FieldsAtoms(fs) == head + FieldsAtoms(fs[1..]);
    if i >= |head| {
      FieldsAtomsReadable(fs[1..], i - |head|);
    }
  }

  lemma MatchLayout(l: Layout, vs: seq<string>, tail: string)
    requires WellFormed(l) && Fits(l.fields, vs)
    requires Terminal(l.fields) ==> tail == ""
    ensures MatchAt(Atoms(l), Fill(l, vs) + tail) == Some(vs)
  {
    MatchFill(l.fields, vs, tail);
    assert Fill(l, vs) + tail == l.prefix + (FillFields(l.fields, vs) + tail);
    MatchLits(l.prefix, FieldsAtoms(l.fields), FillFields(l.fields, vs) + tail);
  }

  lemma MatchLayoutSound(l: Layout, s: string, gs: seq<string>)
    requires WellFormed(l) && MatchAt(Atoms(l), s) == Some(gs)
    ensures Fits(l.fields, gs) && FillStarts(l, gs, s)
  {
    MatchLitsSound(l.prefix, FieldsAtoms(l.fields), s);
    MatchFillSound(l.fields, s[|l.prefix|..], gs);
    FillStartsJoin(l, gs, s);
  }

  lemma FillStartsJoin(l: Layout, gs: seq<string>, s: string)
    requires |gs| == |l.fields| && |l.prefix| <= |s| && s[..|l.prefix|] == l.prefix
    requires var y, ff := s[|l.prefix|..], FillFields(l.fields, gs);
      |ff| <= |y| && y[..|ff|] == ff && (Terminal(l.fields) ==> |ff| == |y|)
    ensures FillStarts(l, gs, s)
  {
    var p := |l.prefix|;
    var ff := FillFields(l.fields, gs);
    assert s[..p + |ff|] == s[..p] + s[p..][..|ff|];
  }

  /** The compiled pattern of a well-formed format has one capture group
      per directive, so group k belongs to the k-th directive. */
  lemma CompiledGroups(l: Layout)
    requires WellFormed(l)
    ensures Read(Compiler.Compile(Text(l)).pattern) == Some(Atoms(l))
    ensures GroupCount(Atoms(l)) == |l.fields|
  {
    CompiledPattern(l);
    ReadAtoms(l);
    LitAtomsGroups(l.prefix);
    GroupCountConcat(LitAtoms(l.prefix), FieldsAtoms(l.fields));
    FieldsGroups(l.fields);
  }

  /** The round trip: substituting fitting values into a well-formed format
      gives a line the compiled parser matches, capturing exactly those
      values, whatever follows unless the last directive is terminal. */
  lemma RoundTrip(l: Layout, vs: seq<string>, tail: string)
    requires WellFormed(l) && Fits(l.fields, vs)
    requires Terminal(l.fields) ==> tail == ""
    ensures Exec(Compiler.Compile(Text(l)).pattern, Fill(l, vs) + tail) == Matched(vs)
  {
    CompiledPattern(l);
    ReadAtoms(l);
    MatchLayout(l, vs, tail);
    var line := Fill(l, vs) + tail;
    assert line[0..] == line;
  }

  /** Conversely, whatever the compiled parser matches is, from some
      position on, a substitution of fitting values into the format. */
  lemma ExecSound(l: Layout, line: string, gs: seq<string>)
    requires WellFormed(l)
    requires Exec(Compiler.Compile(Text(l)).pattern, line) == Matched(gs)
    ensures Fits(l.fields, gs)
    ensures exists i :: 0 <= i <= |line| && FillStarts(l, gs, line[i..])
  {
    CompiledPattern(l);
    ReadAtoms(l);
    var i :| 0 <= i <= |line| && MatchAt(Atoms(l), line[i..]) == Some(gs);
    MatchLayoutSound(l, line[i..], gs);
  }

  /** A line gets no match exactly when no position of it starts a
      substitution of fitting values into the format; the compiled pattern
      of a well-formed format is always within the subset. */
  lemma ExecNoMatch(l: Layout, line: string)
    requires WellFormed(l)
    ensures !Exec(Compiler.Compile(Text(l)).pattern, line).Unsupported?
    ensures Exec(Compiler.Compile(Text(l)).pattern, line).NoMatch? <==>
      forall i, vs :: 0 <= i <= |line| && Fits(l.fields, vs) ==> !FillStarts(l, vs, line[i..])
  {
    var pat := Compiler.Compile(Text(l)).pattern;
    CompiledPattern(l);
    ReadAtoms(l);
    assert Read(pat) == Some(Atoms(l));
    var r := Exec(pat, line);
    if r.Matched? {
      ExecSound(l, line, r.groups);
    } else {
      NoMatchNoFill(l, line);
    }
  }

  lemma NoMatchNoFill(l: Layout, line: string)
    requires WellFormed(l)
    requires forall i :: 0 <= i <= |line| ==> MatchAt(Atoms(l), line[i..]).None?
    ensures forall i, vs :: 0 <= i <= |line| && Fits(l.fields, vs) ==> !FillStarts(l, vs, line[i..])
  {
    forall i, vs | 0 <= i <= |line| && Fits(l.fields, vs) ensures !FillStarts(l, vs, line[i..]) {
      if FillStarts(l, vs, line[i..]) {
        FillMatches(l, vs, line[i..]);
      }
    }
  }

  /** A line that starts with a fitting substitution is matched at its start. */
  lemma FillMatches(l: Layout, vs: seq<string>, x: string)
    requires WellFormed(l) && Fits(l.fields, vs) && FillStarts(l, vs, x)
    ensures MatchAt(Atoms(l), x) == Some(vs)
  {
    var t := Fill(l, vs);
    var tail := x[|t|..];
    assert x == t + tail;
    MatchLayout(l, vs, tail);
  }
}
