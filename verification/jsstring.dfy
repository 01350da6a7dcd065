/** The few JavaScript string operations the parser relies on, over strings
    as sequences of characters: `indexOf`, `String.prototype.replace` with a
    string pattern (first occurrence only, with the `$`-patterns of the
    replacement string), `split` on a one-character separator, and
    truthiness of a string-or-null value. */
module JsString {
  import opened Wrappers

  /** `pat` occurs in `s` starting at position `i`. */
  predicate OccursAt(s: string, pat: string, i: nat) {
    i + |pat| <= |s| && s[i..i + |pat|] == pat
  }

  /** The first position at or after `from` where `pat` occurs in `s`. */
  function IndexFrom(s: string, pat: string, from: nat): (r: Option<nat>)
    decreases |s| - from
    ensures r.Some? ==> from <= r.value && OccursAt(s, pat, r.value)
    ensures r.Some? ==> forall j: nat :: from <= j < r.value ==> !OccursAt(s, pat, j)
    ensures r.None? ==> forall j: nat :: from <= j ==> !OccursAt(s, pat, j)
  {
    if from + |pat| > |s| then None
    else if s[from..from + |pat|] == pat then Some(from)
    else IndexFrom(s, pat, from + 1)
  }

  /** `s.indexOf(pat)`, with None for -1. */
  function IndexOf(s: string, pat: string): (r: Option<nat>)
    ensures r.Some? ==> OccursAt(s, pat, r.value)
    ensures r.Some? ==> forall j: nat :: j < r.value ==> !OccursAt(s, pat, j)
    ensures r.None? ==> forall j: nat :: !OccursAt(s, pat, j)
  {
    IndexFrom(s, pat, 0)
  }

  /** The replacement text for one match of a string pattern: the
      GetSubstitution step of ECMAScript's `String.prototype.replace` when
      the pattern is a string (so there are no capture groups). `$$` yields
      `$`, `$&` the matched text, `` $` `` the text before the match, `$'`
      the text after it; every other `$` stands for itself. */
  function Substitute(rep: string, matched: string, before: string, after: string): string
    decreases |rep|
  {
    if |rep| == 0 then ""
    else if rep[0] == '$' && |rep| >= 2 then
      if rep[1] == '$' then "$" + Substitute(rep[2..], matched, before, after)
      else if rep[1] == '&' then matched + Substitute(rep[2..], matched, before, after)
      else if rep[1] == '`' then before + Substitute(rep[2..], matched, before, after)
      else if rep[1] == '\'' then after + Substitute(rep[2..], matched, before, after)
      else "$" + Substitute(rep[1..], matched, before, after)
    else [rep[0]] + Substitute(rep[1..], matched, before, after)
  }

  /** A replacement string with no `$` except possibly as its last character
      is inserted verbatim. */
  predicate Verbatim(rep: string) {
    forall i :: 0 <= i < |rep| - 1 ==> rep[i] != '$'
  }

  lemma {:induction false} SubstituteVerbatim(rep: string, matched: string, before: string, after: string)
    requires Verbatim(rep)
    ensures Substitute(rep, matched, before, after) == rep
    decreases |rep|
  {
    if |rep| == 0 {
    } else {
      assert Verbatim(rep[1..]);
      SubstituteVerbatim(rep[1..], matched, before, after);
      assert rep == [rep[0]] + rep[1..];
    }
  }

  /** `s.replace(pat, rep)` for a string `pat`: only the first occurrence is
      replaced, and `rep` is read through Substitute. */
  function ReplaceFirst(s: string, pat: string, rep: string): (r: string)
    ensures IndexOf(s, pat).None? ==> r == s
    ensures IndexOf(s, pat).Some? ==>
      var i := IndexOf(s, pat).value;
      var tail := s[i + |pat|..];
      i + |tail| <= |r| && r[..i] == s[..i] && r[|r| - |tail|..] == tail
  {
    match IndexOf(s, pat)
    case None => s
    case Some(i) =>
      s[..i] + Substitute(rep, pat, s[..i], s[i + |pat|..]) + s[i + |pat|..]
  }

  /** With a verbatim replacement, ReplaceFirst splices `rep` in place of the
      leftmost occurrence of `pat`, and only there. */
  lemma ReplaceFirstSplices(s: string, pat: string, rep: string, i: nat)
    requires Verbatim(rep)
    requires OccursAt(s, pat, i)
    requires forall j: nat :: j < i ==> !OccursAt(s, pat, j)
    ensures ReplaceFirst(s, pat, rep) == s[..i] + rep + s[i + |pat|..]
  {
    var k := IndexOf(s, pat);
    assert k == Some(i);
    SubstituteVerbatim(rep, pat, s[..i], s[i + |pat|..]);
  }

  /** The first position of character `c` in `s`, or `|s|` when it is absent. */
  function FirstIndex(s: string, c: char): (k: nat)
    ensures k <= |s|
    ensures c !in s[..k]
    ensures k < |s| ==> s[k] == c
  {
    if |s| == 0 then 0
    else if s[0] == c then 0
    else
      var k := 1 + FirstIndex(s[1..], c);
      assert s[..k] == [s[0]] + s[1..][..k - 1];
      k
  }

  /** Replacing a one-character pattern: the text before the first `c`,
      then `rep`, then the text after it; `s` itself when there is no `c`. */
  lemma ReplaceChar(s: string, c: char, rep: string)
    requires Verbatim(rep)
    ensures var k := FirstIndex(s, c);
      ReplaceFirst(s, [c], rep) == if k < |s| then s[..k] + rep + s[k + 1..] else s
  {
    var k := FirstIndex(s, c);
    NoEarlierChar(s, c, k);
    if k < |s| {
      assert s[k..k + 1] == [c];
      ReplaceFirstSplices(s, [c], rep, k);
    } else {
      NoOccurrence(s, [c], k);
    }
  }

  lemma NoEarlierChar(s: string, c: char, k: nat)
    requires k <= |s| && c !in s[..k]
    ensures forall j: nat :: j < k ==> !OccursAt(s, [c], j)
  {
    forall j: nat | j < k ensures !OccursAt(s, [c], j) {
      assert s[j] == s[..k][j];
    }
  }

  lemma NoOccurrence(s: string, pat: string, k: nat)
    requires |pat| > 0 && k + |pat| > |s|
    requires forall j: nat :: j < k ==> !OccursAt(s, pat, j)
    ensures IndexOf(s, pat).None?
  {
  }

  /** The parts joined back with the separator. */
  function Join(parts: seq<string>, sep: char): string
    requires |parts| >= 1
  {
    if |parts| == 1 then parts[0] else parts[0] + [sep] + Join(parts[1..], sep)
  }

  /** `s.split(sep)` for a one-character separator: the maximal runs between
      separators, so there is always at least one part. */
  function Split(s: string, sep: char): (parts: seq<string>)
    decreases |s|
    ensures |parts| >= 1
    ensures forall k :: 0 <= k < |parts| ==> sep !in parts[k]
    ensures Join(parts, sep) == s
    ensures parts[0] == s[..FirstIndex(s, sep)]
  {
    var k := FirstIndex(s, sep);
    if k == |s| then [s]
    else
      var rest := Split(s[k + 1..], sep);
      assert s == s[..k] + [sep] + s[k + 1..];
      [s[..k]] + rest
  }

  /** Splitting a text that starts with a separator-free part. */
  lemma SplitCons(a: string, sep: char, rest: string)
    requires sep !in a
    ensures Split(a + [sep] + rest, sep) == [a] + Split(rest, sep)
  {
    var s := a + [sep] + rest;
    var after := [sep] + rest;
    assert s == a + after;
    FirstIndexOf(a, sep, after);
    assert FirstIndex(after, sep) == 0;
    assert FirstIndex(s, sep) == |a|;
    assert s[..|a|] == a;
    assert s[|a| + 1..] == rest;
  }

  /** A text without the separator is a single part. */
  lemma SplitNone(a: string, sep: char)
    requires sep !in a
    ensures Split(a, sep) == [a]
  {
    FirstIndexOf(a, sep, "");
    assert a + "" == a;
    assert a[..|a|] == a;
  }

  lemma {:induction false} FirstIndexOf(a: string, c: char, rest: string)
    requires c !in a
    ensures FirstIndex(a + rest, c) == |a| + FirstIndex(rest, c)
    decreases |a|
  {
    if |a| > 0 {
      FirstIndexOf(a[1..], c, rest);
      assert (a + rest)[1..] == a[1..] + rest;
    } else {
      assert a + rest == rest;
    }
  }

  /** JavaScript truthiness of a string-or-null value: null and "" are falsy. */
  predicate Truthy(v: Option<string>) {
    v.Some? && v.value != ""
  }
}
