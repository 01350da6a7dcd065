/** The two halves together: a parser built from a format and applied to
    one line, `new Parser(format).parseLine(line)`. For a well-formed format
    the row holds, under each directive's name, the value that was written
    into the line for it. */
module Pipeline {
  import opened Wrappers
  import Compiler
  import opened Format
  import Pattern
  import opened Layout
  import LineParser

  /** A row; no row, because the line does not match; or a pattern outside
      the part of the regular-expression language this model reads. */
  datatype Outcome = Parsed(row: LineParser.Row) | NoRow | OutsidePatterns

  /** Compile the format, match the line, build the row. Entry 0 of the
      match array, the whole matched text, is never read (see
      LineParser.WholeMatchUnread), so the line stands in for it. */
  function ParseWith(format: string, line: string): (o: Outcome)
    ensures o.OutsidePatterns? <==> Pattern.Read(Compiler.Compile(format).pattern).None?
  {
    var m := Compiler.Compile(format);
    match Pattern.Exec(m.pattern, line)
    case Matched(gs) => Parsed(LineParser.Parsed([line] + gs, m.directives))
    case NoMatch => NoRow
    case Unsupported => OutsidePatterns
  }

  predicate DistinctNames(fs: seq<Field>) {
    forall i, j :: 0 <= i < j < |fs| ==> fs[i].name != fs[j].name
  }

  /** The directive map of a well-formed format with distinct names sends
      the i-th directive's name to group i + 1. */
  lemma DirectiveIndex(l: Layout, i: nat)
    requires WellFormed(l) && DistinctNames(l.fields)
    requires i < |l.fields| && l.fields[i].name != Compiler.ProtoKey
    ensures var d := Compiler.Compile(Text(l)).directives;
      l.fields[i].name in d && d[l.fields[i].name] == i + 1
  {
    CompiledIndices(l);
    var names := FieldNames(l.fields);
    Compiler.IndicesDistinct(names, i);
  }

  /** A line written in a well-formed format is matched, and its groups
      are the values written. */
  lemma RowOfLine(l: Layout, vs: seq<string>)
    requires WellFormed(l) && Fits(l.fields, vs)
    ensures var line := Fill(l, vs);
      ParseWith(Text(l), line)
        == Parsed(LineParser.Parsed([line] + vs, Compiler.Compile(Text(l)).directives))
  {
    var line := Fill(l, vs);
    RoundTrip(l, vs, "");
    assert line + "" == line;
  }

  /** Writing values into a well-formed format and parsing the line gives a
      row holding, under each directive's name that is not a derived field,
      the value written there, with `-` read as null. */
  lemma EndToEnd(l: Layout, vs: seq<string>)
    requires WellFormed(l) && Fits(l.fields, vs) && DistinctNames(l.fields)
    requires forall i :: 0 <= i < |l.fields| ==> l.fields[i].name != Compiler.ProtoKey
    ensures ParseWith(Text(l), Fill(l, vs)).Parsed?
    ensures forall i :: 0 <= i < |l.fields| && l.fields[i].name !in LineParser.DerivedFields ==>
      LineParser.Get(ParseWith(Text(l), Fill(l, vs)).row, l.fields[i].name)
        == if vs[i] == "-" then None else Some(vs[i])
  {
    var line := Fill(l, vs);
    var d := Compiler.Compile(Text(l)).directives;
    RowOfLine(l, vs);
    forall i | 0 <= i < |l.fields| && l.fields[i].name !in LineParser.DerivedFields
      ensures LineParser.Get(LineParser.Parsed([line] + vs, d), l.fields[i].name)
        == if vs[i] == "-" then None else Some(vs[i])
    {
      DirectiveIndex(l, i);
      FieldOfValue(line, vs, d, l.fields[i].name, i);
    }
  }

  /** The field of a directive holds the value captured by its group. */
  lemma FieldOfValue(line: string, vs: seq<string>, d: map<string, nat>, name: string, i: nat)
    requires i < |vs| && name in d && d[name] == i + 1 && name !in LineParser.DerivedFields
    ensures LineParser.Get(LineParser.Parsed([line] + vs, d), name)
        == if vs[i] == "-" then None else Some(vs[i])
  {
    var m := [line] + vs;
    LineParser.ParsedFields(m, d);
    assert m[i + 1] == vs[i];
  }

  /** The common log format `$remote_addr - $remote_user [$time_local]
      "$request" $status $body_bytes_sent`, as a layout. */
  function CommonLayout(): Layout {
    Layout("", [
      Field("remote_addr", Some(' '), "- "), Field("remote_user", Some(' '), "["),
      Field("time_local", Some(']'), " \""), Field("request", Some('"'), " "),
      Field("status", Some(' '), ""), Field("body_bytes_sent", None, "")])
  }

  /** The values of the line `192.168.1.1 - - [10/Oct/2020:13:55:36 +0000]
      "GET /x HTTP/1.1" 200 512`. */
  function CommonValues(): seq<string> {
    ["192.168.1.1", "-", "10/Oct/2020:13:55:36 +0000", "GET /x HTTP/1.1", "200", "512"]
  }

  lemma CommonWellFormed()
    ensures WellFormed(CommonLayout()) && DistinctNames(CommonLayout().fields)
    ensures forall i :: 0 <= i < 6 ==> CommonLayout().fields[i].name != Compiler.ProtoKey
  {
    var fs := CommonLayout().fields;
    CommonField0();
    CommonField1();
    CommonField2();
    CommonField3();
    CommonField4();
    CommonField5();
    assert WellFormedFields(fs);
  }

  // Each field of the common format is well formed; only the last one,
  // `body_bytes_sent`, may go without a boundary.
  lemma CommonField0() ensures WellFormedField(CommonLayout().fields[0], false) { }
  lemma CommonField1() ensures WellFormedField(CommonLayout().fields[1], false) { }
  lemma CommonField2() ensures WellFormedField(CommonLayout().fields[2], false) { }
  lemma CommonField3() ensures WellFormedField(CommonLayout().fields[3], false) { }
  lemma CommonField4() ensures WellFormedField(CommonLayout().fields[4], false) { }
  lemma CommonField5() ensures WellFormedField(CommonLayout().fields[5], true) { }

  lemma CommonFits()
    ensures Fits(CommonLayout().fields, CommonValues())
  {
  }

  /** The default format nginx documents, as the parser's header comment
      quotes it: `$remote_addr - $remote_user [$time_local] "$request"
      $status $body_bytes_sent "$http_referer" "$http_user_agent"`. */
  const DefaultFormat: string := Concat(DefaultPieces())

  /** The default format as a layout: every field, the last one included,
      has a boundary. */
  function DefaultLayout(): Layout {
    Layout("", [
      Field("remote_addr", Some(' '), "- "), Field("remote_user", Some(' '), "["),
      Field("time_local", Some(']'), " \""), Field("request", Some('"'), " "),
      Field("status", Some(' '), ""), Field("body_bytes_sent", Some(' '), "\""),
      Field("http_referer", Some('"'), " \""), Field("http_user_agent", Some('"'), "")])
  }

  /** The layout writes out as the default format. */
  lemma DefaultText()
    ensures Text(DefaultLayout()) == DefaultFormat
  {
    var ps := DefaultPieces();
    var ts := FieldTokens(DefaultLayout().fields);
    DefaultSources();
    SourceAllPieces(ts, ps);
    TextWithoutPrefix(DefaultLayout());
  }

  /** The default format, directive by directive: each directive's text
      runs up to the next `$`. */
  function DefaultPieces(): seq<string> {
    ["$remote_addr - ", "$remote_user [", "$time_local] \"", "$request\" ",
     "$status ", "$body_bytes_sent \"", "$http_referer\" \"", "$http_user_agent\""]
  }

  lemma DefaultSources()
    ensures forall i :: 0 <= i < 8 ==> Source(FieldTokens(DefaultLayout().fields)[i]) == DefaultPieces()[i]
  {
    DefaultSourcesFrom(0);
    DefaultSourcesFrom(4);
  }

  lemma DefaultSourcesFrom(k: nat)
    requires k == 0 || k == 4
    ensures forall i :: k <= i < k + 4 ==> Source(FieldTokens(DefaultLayout().fields)[i]) == DefaultPieces()[i]
  {
    var ts := FieldTokens(DefaultLayout().fields);
    forall i | k <= i < k + 4 ensures Source(ts[i]) == DefaultPieces()[i] {
      if i == 0 { DefaultPiece0(); }
      else if i == 1 { DefaultPiece1(); }
      else if i == 2 { DefaultPiece2(); }
      else if i == 3 { DefaultPiece3(); }
      else if i == 4 { DefaultPiece4(); }
      else if i == 5 { DefaultPiece5(); }
      else if i == 6 { DefaultPiece6(); }
      else { DefaultPiece7(); }
    }
  }

  /** A directive with a boundary writes out as `$`, its name, its boundary
      and its literal. */
  lemma PieceOf(name: string, b: char, lit: string, p: string)
    requires "$" + name + [b] + lit == p
    ensures Source(FieldToken(Field(name, Some(b), lit))) == p
  {
  }

  lemma DefaultPiece0()
    ensures Source(FieldToken(DefaultLayout().fields[0])) == DefaultPieces()[0]
  {
    assert DefaultLayout().fields[0] == Field("remote_addr", Some(' '), "- ");
    PieceOf("remote_addr", ' ', "- ", "$remote_addr - ");
  }

  lemma DefaultPiece1()
    ensures Source(FieldToken(DefaultLayout().fields[1])) == DefaultPieces()[1]
  {
    assert DefaultLayout().fields[1] == Field("remote_user", Some(' '), "[");
    PieceOf("remote_user", ' ', "[", "$remote_user [");
  }

  lemma DefaultPiece2()
    ensures Source(FieldToken(DefaultLayout().fields[2])) == DefaultPieces()[2]
  {
    assert DefaultLayout().fields[2] == Field("time_local", Some(']'), " \"");
    PieceOf("time_local", ']', " \"", "$time_local] \"");
  }

  lemma DefaultPiece3()
    ensures Source(FieldToken(DefaultLayout().fields[3])) == DefaultPieces()[3]
  {
    assert DefaultLayout().fields[3] == Field("request", Some('"'), " ");
    PieceOf("request", '"', " ", "$request\" ");
  }

  lemma DefaultPiece4()
    ensures Source(FieldToken(DefaultLayout().fields[4])) == DefaultPieces()[4]
  {
    assert DefaultLayout().fields[4] == Field("status", Some(' '), "");
    PieceOf("status", ' ', "", "$status ");
  }

  lemma DefaultPiece5()
    ensures Source(FieldToken(DefaultLayout().fields[5])) == DefaultPieces()[5]
  {
    assert DefaultLayout().fields[5] == Field("body_bytes_sent", Some(' '), "\"");
    PieceOf("body_bytes_sent", ' ', "\"", "$body_bytes_sent \"");
  }

  lemma DefaultPiece6()
    ensures Source(FieldToken(DefaultLayout().fields[6])) == DefaultPieces()[6]
  {
    assert DefaultLayout().fields[6] == Field("http_referer", Some('"'), " \"");
    PieceOf("http_referer", '"', " \"", "$http_referer\" \"");
  }

  lemma DefaultPiece7()
    ensures Source(FieldToken(DefaultLayout().fields[7])) == DefaultPieces()[7]
  {
    assert DefaultLayout().fields[7] == Field("http_user_agent", Some('"'), "");
    PieceOf("http_user_agent", '"', "", "$http_user_agent\"");
  }

  /** The strings of `ps`, one after the other. */
  function Concat(ps: seq<string>): string {
    if |ps| == 0 then "" else ps[0] + Concat(ps[1..])
  }

  /** Tokens whose texts are the pieces `ps` write out as their concatenation. */
  lemma {:induction false} SourceAllPieces(ts: seq<Token>, ps: seq<string>)
    requires |ts| == |ps| && forall i :: 0 <= i < |ts| ==> Source(ts[i]) == ps[i]
    ensures SourceAll(ts) == Concat(ps)
    decreases |ts|
  {
    if |ts| > 0 {
      SourceAllPieces(ts[1..], ps[1..]);
    }
  }

  /** The default format's names are distinct, and none is `__proto__` or
      a derived field. */
  lemma DefaultNames()
    ensures DistinctNames(DefaultLayout().fields)
    ensures forall i :: 0 <= i < 8 ==> DefaultLayout().fields[i].name != Compiler.ProtoKey
    ensures forall i :: 0 <= i < 8 ==> DefaultLayout().fields[i].name !in LineParser.DerivedFields
  {
  }

  lemma DefaultWellFormed()
    ensures WellFormed(DefaultLayout())
  {
    var fs := DefaultLayout().fields;
    DefaultField0();
    DefaultField1();
    DefaultField2();
    DefaultField3();
    DefaultField4();
    DefaultField5();
    DefaultField6();
    DefaultField7();
    assert WellFormedFields(fs);
  }

  // Each field of the default format is well formed.
  lemma DefaultField0() ensures WellFormedField(DefaultLayout().fields[0], false) { }
  lemma DefaultField1() ensures WellFormedField(DefaultLayout().fields[1], false) { }
  lemma DefaultField2() ensures WellFormedField(DefaultLayout().fields[2], false) { }
  lemma DefaultField3() ensures WellFormedField(DefaultLayout().fields[3], false) { }
  lemma DefaultField4() ensures WellFormedField(DefaultLayout().fields[4], false) { }
  lemma DefaultField5() ensures WellFormedField(DefaultLayout().fields[5], false) { }
  lemma DefaultField6() ensures WellFormedField(DefaultLayout().fields[6], false) { }
  lemma DefaultField7() ensures WellFormedField(DefaultLayout().fields[7], true) { }

  /** The default format compiled and applied to any line filled in from
      values that fit it: the line parses, and each of the eight fields
      holds its value, or null for `-`. */
  lemma DefaultRoundTrip(vs: seq<string>)
    requires Fits(DefaultLayout().fields, vs)
    ensures ParseWith(DefaultFormat, Fill(DefaultLayout(), vs)).Parsed?
    ensures forall i :: 0 <= i < 8 ==>
      LineParser.Get(ParseWith(DefaultFormat, Fill(DefaultLayout(), vs)).row, DefaultLayout().fields[i].name)
        == if vs[i] == "-" then None else Some(vs[i])
  {
    DefaultText();
    DefaultWellFormed();
    DefaultNames();
    EndToEnd(DefaultLayout(), vs);
  }

  /** The field names of the common format. */
  predicate CommonNamed(l: Layout) {
    && |l.fields| == 6
    && l.fields[0].name == "remote_addr" && l.fields[1].name == "remote_user"
    && l.fields[2].name == "time_local" && l.fields[3].name == "request"
    && l.fields[4].name == "status" && l.fields[5].name == "body_bytes_sent"
  }

  /** The values of the sample line, one per field. */
  predicate CommonValued(vs: seq<string>) {
    && |vs| == 6
    && vs[0] == "192.168.1.1" && vs[1] == "-" && vs[2] == "10/Oct/2020:13:55:36 +0000"
    && vs[3] == "GET /x HTTP/1.1" && vs[4] == "200" && vs[5] == "512"
  }

  /** What EndToEnd asks of a format and its values. */
  predicate Valid(l: Layout, vs: seq<string>) {
    && WellFormed(l) && Fits(l.fields, vs) && DistinctNames(l.fields)
    && (forall i :: 0 <= i < |l.fields| ==> l.fields[i].name != Compiler.ProtoKey)
  }

  lemma CommonHolds(l: Layout, vs: seq<string>)
    requires l == CommonLayout() && vs == CommonValues()
    ensures CommonNamed(l) && CommonValued(vs) && Valid(l, vs)
  {
    CommonWellFormed();
    CommonFits();
  }

  /** The common log format applied to its sample line: each field holds
      its value, the user placeholder `-` is null, there is no date, and the
      numeric address is 192 * 16777216 + 168 * 65536 + 1 * 256 + 1.
      CommonHolds shows the common format and its sample line qualify. */
  lemma CommonScenario(l: Layout, vs: seq<string>)
    requires CommonNamed(l) && CommonValued(vs) && Valid(l, vs)
    ensures var o := ParseWith(Text(l), Fill(l, vs));
      && o.Parsed?
      && LineParser.Get(o.row, "remote_addr") == Some("192.168.1.1")
      && LineParser.Get(o.row, "remote_user") == None
      && LineParser.Get(o.row, "time_local") == Some("10/Oct/2020:13:55:36 +0000")
      && LineParser.Get(o.row, "request") == Some("GET /x HTTP/1.1")
      && LineParser.Get(o.row, "status") == Some("200")
      && LineParser.Get(o.row, "body_bytes_sent") == Some("512")
      && o.row.date == LineParser.Null
      && o.row.ip == LineParser.Computed(LineParser.Encoded(3232235777))
  {
    CommonFields(l, vs);
    CommonAddress(l, vs);
  }

  /** The scenario on the common format itself. */
  lemma CommonExample()
    ensures var o := ParseWith(Text(CommonLayout()), Fill(CommonLayout(), CommonValues()));
      && o.Parsed?
      && LineParser.Get(o.row, "remote_addr") == Some("192.168.1.1")
      && LineParser.Get(o.row, "remote_user") == None
      && o.row.ip == LineParser.Computed(LineParser.Encoded(3232235777))
  {
    var l, vs := CommonLayout(), CommonValues();
    CommonHolds(l, vs);
    CommonScenario(l, vs);
  }

  lemma CommonAddress(l: Layout, vs: seq<string>)
    requires CommonNamed(l) && CommonValued(vs) && Valid(l, vs)
    ensures var o := ParseWith(Text(l), Fill(l, vs));
      && o.Parsed?
      && o.row.date == LineParser.Null
      && o.row.ip == LineParser.Computed(LineParser.Encoded(3232235777))
  {
    CommonDirectives(l, vs);
    RowOfLine(l, vs);
    DerivedOfRow(Fill(l, vs), vs, Compiler.Compile(Text(l)).directives);
  }

  /** The common format's directive map: only its own six names, with the
      remote address at group 1. */
  lemma CommonDirectives(l: Layout, vs: seq<string>)
    requires CommonNamed(l) && Valid(l, vs)
    ensures var d := Compiler.Compile(Text(l)).directives;
      && (forall x :: x in d ==> Unrelated(x))
      && "remote_addr" in d && d["remote_addr"] == 1
  {
    KeysAreNames(l);
    DirectiveIndex(l, 0);
    CommonKeys(l);
  }

  lemma CommonFields(l: Layout, vs: seq<string>)
    requires CommonNamed(l) && CommonValued(vs) && Valid(l, vs)
    ensures var o := ParseWith(Text(l), Fill(l, vs));
      && o.Parsed?
      && LineParser.Get(o.row, "remote_addr") == Some("192.168.1.1")
      && LineParser.Get(o.row, "remote_user") == None
      && LineParser.Get(o.row, "time_local") == Some("10/Oct/2020:13:55:36 +0000")
      && LineParser.Get(o.row, "request") == Some("GET /x HTTP/1.1")
      && LineParser.Get(o.row, "status") == Some("200")
      && LineParser.Get(o.row, "body_bytes_sent") == Some("512")
  {
    CommonNamesPlain();
    EndToEndAt(l, vs, 0);
    EndToEndAt(l, vs, 1);
    EndToEndAt(l, vs, 2);
    EndToEndAt(l, vs, 3);
    EndToEndAt(l, vs, 4);
    EndToEndAt(l, vs, 5);
  }

  /** A name that is none of the fields the derivations read or write
      for the date and the address. */
  predicate Unrelated(x: string) {
    && x !in LineParser.DerivedFields
    && x != "http_x_forwarded_for" && x != "time_iso8601" && x != "msec"
  }

  /** None of the common format's names is a derived field, a date source
      or the forwarded-for header. */
  lemma CommonNamesPlain()
    ensures Unrelated("remote_addr") && Unrelated("remote_user") && Unrelated("time_local")
    ensures Unrelated("request") && Unrelated("status") && Unrelated("body_bytes_sent")
  {
  }

  lemma EndToEndAt(l: Layout, vs: seq<string>, i: nat)
    requires Valid(l, vs)
    requires i < |l.fields| && l.fields[i].name !in LineParser.DerivedFields
    ensures ParseWith(Text(l), Fill(l, vs)).Parsed?
    ensures LineParser.Get(ParseWith(Text(l), Fill(l, vs)).row, l.fields[i].name)
        == if vs[i] == "-" then None else Some(vs[i])
  {
    EndToEnd(l, vs);
  }

  /** Every key of a compiled directive map is the name of a directive. */
  lemma KeysAreNames(l: Layout)
    requires WellFormed(l)
    ensures forall x :: x in Compiler.Compile(Text(l)).directives ==>
      exists i :: 0 <= i < |l.fields| && l.fields[i].name == x
  {
    CompiledIndices(l);
    var names := FieldNames(l.fields);
    forall x | x in Compiler.Indices(names)
      ensures exists i :: 0 <= i < |l.fields| && l.fields[i].name == x
    {
      var k := IndexOfKey(names, x);
      assert l.fields[k].name == x;
    }
  }

  /** A key of an index map is the name at its index. */
  lemma IndexOfKey(names: seq<string>, x: string) returns (k: nat)
    requires x in Compiler.Indices(names)
    ensures k < |names| && names[k] == x
  {
    k := Compiler.Indices(names)[x] - 1;
  }

  /** The names the common format's directive map holds. */
  lemma CommonKeys(l: Layout)
    requires CommonNamed(l)
    requires forall x :: x in Compiler.Compile(Text(l)).directives ==>
      exists i :: 0 <= i < |l.fields| && l.fields[i].name == x
    ensures forall x :: x in Compiler.Compile(Text(l)).directives ==> Unrelated(x)
  {
    CommonNamesPlain();
    forall i | 0 <= i < |l.fields| ensures Unrelated(l.fields[i].name) {
    }
  }

  /** A row whose directive map names none of the date sources, the
      forwarded-for header or the derived fields, and whose remote address
      is 192.168.1.1. */
  lemma DerivedOfRow(line: string, vs: seq<string>, d: map<string, nat>)
    requires forall x :: x in d ==> Unrelated(x)
    requires "remote_addr" in d && d["remote_addr"] == 1 && |vs| > 0 && vs[0] == "192.168.1.1"
    ensures LineParser.Parsed([line] + vs, d).date == LineParser.Null
    ensures LineParser.Parsed([line] + vs, d).ip == LineParser.Computed(LineParser.Encoded(3232235777))
  {
    var m := [line] + vs;
    assert m[1] == vs[0];
    assert "date" !in d && "ip" !in d;
    var r := LineParser.Filled(m, d);
    LineParser.DeriveShape(r);
    LineParser.ParsedFields(m, d);
    LineParser.DateRule(r);
    LineParser.IpStep(r);
    LineParser.EncodeExample();
  }
}
