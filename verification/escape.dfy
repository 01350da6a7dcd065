/** The compiler's `escape`: a backslash is put before every character of the
    class `[.*+?|()\[\]{}]`; every other character, including `$`, `^`, `\`
    and `-`, passes through unchanged. */
module Escape {

  /** The characters `escape` treats as pattern metacharacters. */
  predicate IsMeta(c: char) {
    c in ".*+?|()[]{}"
  }

  function EscapeChar(c: char): string {
    if IsMeta(c) then ['\\', c] else [c]
  }

  function MetaCount(s: string): nat {
    if |s| == 0 then 0 else (if IsMeta(s[0]) then 1 else 0) + MetaCount(s[1..])
  }

  /** Deletes the backslash of every backslash-metacharacter pair, reading
      left to right. */
  function Unescape(s: string): string {
    if |s| == 0 then ""
    else if |s| >= 2 && s[0] == '\\' && IsMeta(s[1]) then [s[1]] + Unescape(s[2..])
    else [s[0]] + Unescape(s[1..])
  }

  function Escape(s: string): (r: string)
    ensures |r| == |s| + MetaCount(s)
    ensures |r| > 0 ==> !IsMeta(r[0])
    ensures Unescape(r) == s
  {
    if |s| == 0 then ""
    else
      var rest := Escape(s[1..]);
      var r := EscapeChar(s[0]) + rest;
      assert Unescape(r) == s by {
        if IsMeta(s[0]) {
          assert r[2..] == rest;
        } else {
          assert r[1..] == rest;
        }
        assert s == [s[0]] + s[1..];
      }
      r
  }

  /** Escaping works character by character. */
  lemma {:induction false} EscapeConcat(a: string, b: string)
    ensures Escape(a + b) == Escape(a) + Escape(b)
    decreases |a|
  {
    if |a| == 0 {
      assert a + b == b;
    } else {
      assert (a + b)[1..] == a[1..] + b;
      EscapeConcat(a[1..], b);
    }
  }

  /** A character escape neither inserts nor removes (such as `$`) is present
      in the output exactly when it is present in the input. */
  lemma {:induction false} EscapeKeeps(s: string, c: char)
    requires !IsMeta(c) && c != '\\'
    ensures c in Escape(s) <==> c in s
    decreases |s|
  {
    if |s| > 0 {
      EscapeKeeps(s[1..], c);
      assert Escape(s) == EscapeChar(s[0]) + Escape(s[1..]);
      assert s == [s[0]] + s[1..];
    }
  }

  /** Escaping changes a string exactly when it holds a metacharacter. */
  lemma EscapeFixed(s: string)
    ensures Escape(s) == s <==> MetaCount(s) == 0
  {
    if MetaCount(s) == 0 {
      EscapeFixedNoMeta(s);
    }
  }

  lemma {:induction false} EscapeFixedNoMeta(s: string)
    requires MetaCount(s) == 0
    ensures Escape(s) == s
    decreases |s|
  {
    if |s| > 0 {
      EscapeFixedNoMeta(s[1..]);
      assert s == [s[0]] + s[1..];
    }
  }
}
