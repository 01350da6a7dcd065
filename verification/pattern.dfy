/** The compiled pattern read as a regular expression. The compiler only
    ever emits three kinds of piece: an escaped or plain literal character,
    the lazy boundary capture `([^b]*?)b`, and the terminal capture `(.+)$`.
    Read recognises exactly that subset of JavaScript regular-expression
    syntax, and Exec gives it the meaning JavaScript's `String.prototype.match`
    gives it: the leftmost start position at which the pieces match, with
    one capture per boundary or terminal piece. */
module Pattern {
  import opened Wrappers
  import JsString
  import Escape
  import Format

  datatype Atom =
    | Lit(c: char)    // one literal character
    | Until(b: char)  // `([^b]*?)b`: everything before the next `b`, then `b`
    | ToEnd           // `(.+)$`: the non-empty rest of the input, with no line terminator

  /** Characters that stand for themselves once escaped: outside a class,
      `^` and `$` are anchors and `\` starts an escape. */
  predicate Literal(c: char) {
    c != '\\' && c != '^' && c != '$'
  }

  predicate Readable(a: Atom) {
    match a
    case Lit(c) => Literal(c)
    case Until(b) => Literal(b)
    case ToEnd => true
  }

  /** The pattern text of one piece, as the compiler writes it. */
  function ShowAtom(a: Atom): string {
    match a
    case Lit(c) => Escape.Escape([c])
    case Until(b) => "([^" + Escape.Escape([b]) + "]*?)" + Escape.Escape([b])
    case ToEnd => "(.+)$"
  }

  function Show(atoms: seq<Atom>): string {
    if |atoms| == 0 then "" else ShowAtom(atoms[0]) + Show(atoms[1..])
  }

  /** One literal character of pattern text outside a class: a backslash
      followed by a metacharacter, or a character with no special meaning.
      Returns the character and the length read. */
  function ReadChar(p: string): (r: Option<(char, nat)>)
    ensures r.Some? ==> 1 <= r.value.1 <= |p|
  {
    if |p| == 0 then None
    else if p[0] == '\\' then
      if |p| >= 2 && Escape.IsMeta(p[1]) then Some((p[1], 2)) else None
    else if Escape.IsMeta(p[0]) || !Literal(p[0]) then None
    else Some((p[0], 1))
  }

  /** One character of a negated class `[^...]`: an escaped metacharacter,
      or any character but `\` and `]`. */
  function ReadClassChar(p: string): (r: Option<(char, nat)>)
    ensures r.Some? ==> 1 <= r.value.1 <= |p|
  {
    if |p| == 0 then None
    else if p[0] == '\\' then
      if |p| >= 2 && Escape.IsMeta(p[1]) then Some((p[1], 2)) else None
    else if p[0] == ']' then None
    else Some((p[0], 1))
  }

  /** The boundary capture `([^b]*?)b` at the start of `p`, with its length. */
  function ReadUntil(p: string): (r: Option<(char, nat)>)
    ensures r.Some? ==> 1 <= r.value.1 <= |p|
  {
    if |p| < 3 || p[..3] != "([^" then None
    else match ReadClassChar(p[3..])
      case None => None
      case Some((b, m)) =>
        var k := 3 + m;
        if |p| < k + 4 || p[k..k + 4] != "]*?)" then None
        else match ReadChar(p[k + 4..])
          case None => None
          case Some((c, n)) => if c == b then Some((b, k + 4 + n)) else None
  }

  /** Reads pattern text back into pieces; None for text outside the
      subset. Every piece read is one the compiler can write. */
  function Read(p: string): (r: Option<seq<Atom>>)
    decreases |p|
    ensures r.Some? ==> forall i :: 0 <= i < |r.value| ==> Readable(r.value[i])
  {
    if |p| == 0 then Some([])
    else if |p| >= 5 && p[..5] == "(.+)$" then Prepend(ToEnd, Read(p[5..]))
    else if ReadUntil(p).Some? then
      var (b, n) := ReadUntil(p).value;
      Prepend(Until(b), Read(p[n..]))
    else match ReadChar(p)
      case None => None
      case Some((c, n)) => Prepend(Lit(c), Read(p[n..]))
  }

  function Prepend(a: Atom, r: Option<seq<Atom>>): Option<seq<Atom>> {
    match r
    case None => None
    case Some(atoms) => Some([a] + atoms)
  }

  /** Reading one piece's text, followed by anything, yields that piece first. */
  lemma ReadShowAtom(a: Atom, q: string)
    requires Readable(a)
    ensures Read(ShowAtom(a) + q) == Prepend(a, Read(q))
  {
    match a
    case Lit(c) => ReadShowLit(c, q);
    case Until(b) => ReadShowUntil(b, q);
    case ToEnd =>
      var p := ShowAtom(a) + q;
      assert p[..5] == "(.+)$";
      assert p[5..] == q;
  }

  lemma ReadShowLit(c: char, q: string)
    requires Literal(c)
    ensures Read(Escape.Escape([c]) + q) == Prepend(Lit(c), Read(q))
  {
    var e := Escape.Escape([c]);
    var p := e + q;
    if Escape.IsMeta(c) {
      assert e == ['\\', c];
      assert p[..2] == ['\\', c];
      assert ReadChar(p) == Some((c, 2));
    } else {
      assert e == [c];
      assert p[0] == c;
      assert ReadChar(p) == Some((c, 1));
    }
    assert ReadUntil(p).None?;
    assert !(|p| >= 5 && p[..5] == "(.+)$");
    assert p[|e|..] == q;
  }

  lemma ReadShowUntil(b: char, q: string)
    requires Literal(b)
    ensures Read(ShowAtom(Until(b)) + q) == Prepend(Until(b), Read(q))
  {
    var e := Escape.Escape([b]);
    var p := ShowAtom(Until(b)) + q;
    var k := 3 + |e|;
    UntilLayout(e, q);
    assert ReadClassChar(p[3..]) == Some((b, |e|)) by {
      assert e == ['\\', b] || e == [b];
    }
    assert ReadChar(p[k + 4..]) == Some((b, |e|)) by {
      assert e == ['\\', b] || e == [b];
    }
    assert ReadUntil(p) == Some((b, k + 4 + |e|));
    assert !(|p| >= 5 && p[..5] == "(.+)$") by {
      assert p[3] == e[0];
    }
  }

  lemma UntilLayout(e: string, q: string)
    ensures var p := "([^" + e + "]*?)" + e + q;
      var k := 3 + |e|;
      && |p| >= k + 4 + |e|
      && p[..3] == "([^" && p[3..] == e + ("]*?)" + e + q)
      && p[k..k + 4] == "]*?)" && p[k + 4..] == e + q
      && p[k + 4 + |e|..] == q
  {
  }

  /** The pattern text of readable pieces reads back as those pieces. */
  lemma {:induction false} ReadShow(atoms: seq<Atom>)
    requires forall i :: 0 <= i < |atoms| ==> Readable(atoms[i])
    ensures Read(Show(atoms)) == Some(atoms)
  {
    if |atoms| > 0 {
      ReadShow(atoms[1..]);
      ReadShowAtom(atoms[0], Show(atoms[1..]));
      assert atoms == [atoms[0]] + atoms[1..];
    }
  }

  lemma {:induction false} ShowConcat(a: seq<Atom>, b: seq<Atom>)
    ensures Show(a + b) == Show(a) + Show(b)
    decreases |a|
  {
    if |a| == 0 {
      assert a + b == b;
    } else {
      assert (a + b)[1..] == a[1..] + b;
      ShowConcat(a[1..], b);
    }
  }

  /** The number of capture groups. */
  function GroupCount(atoms: seq<Atom>): nat {
    if |atoms| == 0 then 0 else (if atoms[0].Lit? then 0 else 1) + GroupCount(atoms[1..])
  }

  lemma {:induction false} GroupCountConcat(a: seq<Atom>, b: seq<Atom>)
    ensures GroupCount(a + b) == GroupCount(a) + GroupCount(b)
    decreases |a|
  {
    if |a| == 0 {
      assert a + b == b;
    } else {
      assert (a + b)[1..] == a[1..] + b;
      GroupCountConcat(a[1..], b);
    }
  }

  predicate NoLineTerminator(s: string) {
    forall i :: 0 <= i < |s| ==> !Format.IsLineTerminator(s[i])
  }

  /** The pieces matched at the very start of `s`, with backtracking spelled
      out: a literal must be the next character; `[^b]*?` followed by `b`
      can only stop at the first `b`; `.+` followed by `$` must take the whole
      rest, which then may hold no line terminator. The result is one string
      per capture group, in order. */
  function MatchAt(atoms: seq<Atom>, s: string): (r: Option<seq<string>>)
    ensures r.Some? ==> |r.value| == GroupCount(atoms)
  {
    if |atoms| == 0 then Some([])
    else match atoms[0]
      case Lit(c) =>
        if |s| > 0 && s[0] == c then MatchAt(atoms[1..], s[1..]) else None
      case Until(b) =>
        var k := JsString.FirstIndex(s, b);
        if k < |s| then PrependGroup(s[..k], MatchAt(atoms[1..], s[k + 1..])) else None
      case ToEnd =>
        if |s| > 0 && NoLineTerminator(s) then PrependGroup(s, MatchAt(atoms[1..], "")) else None
  }

  function PrependGroup(g: string, r: Option<seq<string>>): (r': Option<seq<string>>)
    ensures r'.Some? <==> r.Some?
    ensures r'.Some? ==> r'.value == [g] + r.value
  {
    match r
    case None => None
    case Some(gs) => Some([g] + gs)
  }

  /** The leftmost start position at or after `from` where the pieces match,
      with the groups matched there. */
  function Search(atoms: seq<Atom>, s: string, from: nat): (r: Option<(nat, seq<string>)>)
    requires from <= |s|
    decreases |s| - from
    ensures r.Some? ==> from <= r.value.0 <= |s| && MatchAt(atoms, s[r.value.0..]) == Some(r.value.1)
    ensures r.Some? ==> forall j :: from <= j < r.value.0 ==> MatchAt(atoms, s[j..]).None?
    ensures r.None? ==> forall j :: from <= j <= |s| ==> MatchAt(atoms, s[j..]).None?
  {
    match MatchAt(atoms, s[from..])
    case Some(gs) => Some((from, gs))
    case None =>
      if from == |s| then None
      else
        var r := Search(atoms, s, from + 1);
        assert forall j :: from <= j <= from ==> MatchAt(atoms, s[j..]).None?;
        r
  }

  datatype Outcome = Matched(groups: seq<string>) | NoMatch | Unsupported

  /** `line.match(new RegExp(pattern))`: the groups of the leftmost match,
      NoMatch when there is none, Unsupported for pattern text outside the
      subset the compiler emits. */
  function Exec(pattern: string, line: string): (r: Outcome)
    ensures r.Unsupported? <==> Read(pattern).None?
    ensures r.Matched? ==> exists i ::
      && 0 <= i <= |line| && MatchAt(Read(pattern).value, line[i..]) == Some(r.groups)
      && forall j :: 0 <= j < i ==> MatchAt(Read(pattern).value, line[j..]).None?
    ensures r.NoMatch? ==> forall i :: 0 <= i <= |line| ==> MatchAt(Read(pattern).value, line[i..]).None?
  {
    match Read(pattern)
    case None => Unsupported
    case Some(atoms) =>
      match Search(atoms, line, 0)
      case None => NoMatch
      case Some((_, gs)) => Matched(gs)
  }
}
