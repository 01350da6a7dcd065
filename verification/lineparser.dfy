/** The line parser: given the result of matching one log line against the
    compiled pattern, and the directive-to-group map, build the row. Every
    known field starts as null; each directive's captured group is copied
    into the field of that name, with the placeholder `-` read as null; then
    the date, the timestamp and the client address are derived from the
    fields that carry them. */
module LineParser {
  import opened Wrappers
  import JsString

  /** The seventeen text fields every row has, null unless a directive fills them. */
  const TextFields: set<string> := {
    "msec", "time_iso8601", "remote_addr", "query_string",
    "http_x_forwarded_for", "http_user_agent", "http_referer", "time_local",
    "request", "status", "request_time", "request_length", "pipe",
    "connection", "connection_requests", "bytes_sent", "body_bytes_sent"
  }

  /** The fields the parser computes itself; a directive of the same name
      fills them first, and the derivations may then overwrite them. */
  const DerivedFields: set<string> := {"date", "timestamp", "ip", "ip_str", "request_body"}

  /** A field that is null, holds a captured string, or holds what the
      parser computed. */
  datatype Slot<T> = Null | Captured(text: string) | Computed(value: T)

  /** What the row's `date` is built from: an ISO 8601 text handed to the
      `Date` constructor, or the text whose number of milliseconds is. */
  datatype DateArg = IsoText(text: string) | EpochText(text: string)

  /** The initial, empty `request_body` object. */
  datatype EmptyObject = EmptyObject

  /** The numeric client address: an exact value, NaN (a part is missing),
      or a value this model does not evaluate (a part that is not plain
      decimal digits, or a sum too large to be exact in a double). */
  datatype IpCode = Encoded(n: nat) | NotANumber | Unconverted(parts: seq<string>)

  /** A parsed row. `fields` holds the seventeen text fields and any other
      directive's capture, keyed by directive name; null is None. */
  datatype Row = Row(
    fields: map<string, Option<string>>,
    date: Slot<DateArg>,
    timestamp: Slot<string>,
    ip: Slot<IpCode>,
    ipStr: Option<string>,
    requestBody: Slot<EmptyObject>)

  /** The row before any directive is copied. */
  function Initial(): (r: Row)
    ensures r.fields.Keys == TextFields
    ensures forall k :: k in r.fields ==> r.fields[k].None?
    ensures r.date.Null? && r.timestamp.Null? && r.ip.Null? && r.ipStr.None?
    ensures r.requestBody == Computed(EmptyObject)
  {
    Row(map k | k in TextFields :: None, Null, Null, Null, None, Computed(EmptyObject))
  }

  /** A text field's value, null for a name the row does not hold. */
  function Get(r: Row, key: string): Option<string> {
    if key in r.fields then r.fields[key] else None
  }

  /** `match[idx]` followed by the placeholder check: entry 0 of `m` is the
      whole match and entry `idx` the idx-th group; an index past the end
      gives undefined, which the model, like the row's consumers, reads as
      null. */
  function Group(m: seq<string>, idx: nat): (v: Option<string>)
    ensures v != Some("-")
    ensures v.Some? <==> idx < |m| && m[idx] != "-"
    ensures v.Some? ==> v.value == m[idx]
  {
    if idx < |m| && m[idx] != "-" then Some(m[idx]) else None
  }

  function SlotOf<T>(v: Option<string>): Slot<T> {
    if v.Some? then Captured(v.value) else Null
  }

  /** One `row[key] = value` of the copying loop. */
  function Assign(r: Row, key: string, v: Option<string>): Row {
    if key == "date" then r.(date := SlotOf(v))
    else if key == "timestamp" then r.(timestamp := SlotOf(v))
    else if key == "ip" then r.(ip := SlotOf(v))
    else if key == "ip_str" then r.(ipStr := v)
    else if key == "request_body" then r.(requestBody := SlotOf(v))
    else r.(fields := r.fields[key := v])
  }

  /** The capture a directive map gives `key`, null when no directive names it. */
  function CaptureOf(m: seq<string>, d: map<string, nat>, key: string): Option<string> {
    if key in d then Group(m, d[key]) else None
  }

  /** The row after copying every directive, described field by field: the
      text fields and the other directive names hold their captures, and a
      derived field holds its capture if a directive names it and its
      initial value otherwise. */
  function Filled(m: seq<string>, d: map<string, nat>): Row {
    Row(
      FilledFields(m, d),
      SlotFor(m, d, "date", Null),
      SlotFor(m, d, "timestamp", Null),
      SlotFor(m, d, "ip", Null),
      CaptureOf(m, d, "ip_str"),
      SlotFor(m, d, "request_body", Computed(EmptyObject)))
  }

  /** A derived field after copying: its capture if a directive names it,
      its initial value otherwise. */
  function SlotFor<T>(m: seq<string>, d: map<string, nat>, key: string, initial: Slot<T>): Slot<T> {
    if key in d then SlotOf(CaptureOf(m, d, key)) else initial
  }

  /** The text fields after copying: the seventeen known ones and every
      directive name that is not a derived field. */
  function FilledFields(m: seq<string>, d: map<string, nat>): map<string, Option<string>> {
    FieldsFor(m, d, TextFields, DerivedFields)
  }

  /** The text fields for a given set of known and of derived names. */
  function FieldsFor(m: seq<string>, d: map<string, nat>, known: set<string>, derived: set<string>)
    : map<string, Option<string>>
  {
    map k | k in known + (d.Keys - derived) :: CaptureOf(m, d, k)
  }

  /** The directive map cut down to the keys in `done`. */
  function Restrict(d: map<string, nat>, done: set<string>): (e: map<string, nat>)
    ensures e.Keys == d.Keys * done
    ensures forall k :: k in e ==> e[k] == d[k]
  {
    map k | k in d.Keys * done :: d[k]
  }

  lemma FilledNothing(m: seq<string>)
    ensures Filled(m, map[]) == Initial()
  {
    var none: map<string, nat> := map[];
    assert none.Keys - DerivedFields == {};
    assert TextFields + {} == TextFields;
  }

  /** Copying one more directive moves from the row for the directives
      copied so far to the row for those and that one. */
  lemma AssignStep(m: seq<string>, d: map<string, nat>, done: set<string>, key: string)
    requires key in d && key !in done
    ensures Assign(Filled(m, Restrict(d, done)), key, Group(m, d[key]))
      == Filled(m, Restrict(d, done + {key}))
  {
    var e := Restrict(d, done);
    var e' := Restrict(d, done + {key});
    var v := Group(m, d[key]);
    var r := Filled(m, e);
    var r' := Filled(m, e');
    var a := Assign(r, key, v);
    assert CaptureOf(m, e', key) == v;
    CaptureStep(m, d, done, key);
    SlotForStep<DateArg>(m, d, done, key, "date", Null);
    SlotForStep<string>(m, d, done, key, "timestamp", Null);
    SlotForStep<IpCode>(m, d, done, key, "ip", Null);
    SlotForStep(m, d, done, key, "request_body", Computed(EmptyObject));
    if key in DerivedFields {
      FieldsUnchanged(m, d, done, key);
      assert a.fields == r'.fields;
    } else {
      FieldsStep(m, d, done, key);
      assert a.fields == r'.fields;
    }
    assert a.date == r'.date;
    assert a.timestamp == r'.timestamp;
    assert a.ip == r'.ip;
    assert a.ipStr == r'.ipStr;
    assert a.requestBody == r'.requestBody;
  }

  lemma SlotForStep<T>(m: seq<string>, d: map<string, nat>, done: set<string>, key: string,
                       name: string, initial: Slot<T>)
    requires key in d && key !in done
    ensures SlotFor(m, Restrict(d, done + {key}), name, initial)
      == if name == key then SlotOf(Group(m, d[key])) else SlotFor(m, Restrict(d, done), name, initial)
  {
  }

  lemma CaptureStep(m: seq<string>, d: map<string, nat>, done: set<string>, key: string)
    requires key in d && key !in done
    ensures forall k :: k != key ==>
      CaptureOf(m, Restrict(d, done + {key}), k) == CaptureOf(m, Restrict(d, done), k)
  {
  }

  lemma FieldsUnchanged(m: seq<string>, d: map<string, nat>, done: set<string>, key: string)
    requires key in d && key !in done && key in DerivedFields
    ensures FilledFields(m, Restrict(d, done + {key})) == FilledFields(m, Restrict(d, done))
  {
    FieldsForUnchanged(m, d, done, key, TextFields, DerivedFields);
  }

  lemma FieldsForUnchanged(m: seq<string>, d: map<string, nat>, done: set<string>, key: string,
                           known: set<string>, derived: set<string>)
    requires key in d && key !in done && key in derived && key !in known
    ensures FieldsFor(m, Restrict(d, done + {key}), known, derived)
      == FieldsFor(m, Restrict(d, done), known, derived)
  {
    var f := FieldsFor(m, Restrict(d, done), known, derived);
    var f' := FieldsFor(m, Restrict(d, done + {key}), known, derived);
    KeysStep(d, done, key);
    CaptureStep(m, d, done, key);
    assert f.Keys == f'.Keys;
    forall k | k in f ensures f[k] == f'[k] {
      assert k != key;
    }
  }

  lemma KeysStep(d: map<string, nat>, done: set<string>, key: string)
    requires key in d && key !in done
    ensures Restrict(d, done + {key}).Keys == Restrict(d, done).Keys + {key}
  {
  }

  lemma FieldsStep(m: seq<string>, d: map<string, nat>, done: set<string>, key: string)
    requires key in d && key !in done && key !in DerivedFields
    ensures FilledFields(m, Restrict(d, done + {key}))
      == FilledFields(m, Restrict(d, done))[key := Group(m, d[key])]
  {
    FieldsForStep(m, d, done, key, TextFields, DerivedFields);
  }

  lemma FieldsForStep(m: seq<string>, d: map<string, nat>, done: set<string>, key: string,
                      known: set<string>, derived: set<string>)
    requires key in d && key !in done && key !in derived
    ensures FieldsFor(m, Restrict(d, done + {key}), known, derived)
      == FieldsFor(m, Restrict(d, done), known, derived)[key := Group(m, d[key])]
  {
    var f := FieldsFor(m, Restrict(d, done), known, derived)[key := Group(m, d[key])];
    var f' := FieldsFor(m, Restrict(d, done + {key}), known, derived);
    KeysStep(d, done, key);
    CaptureStep(m, d, done, key);
    assert f.Keys == f'.Keys;
    forall k | k in f ensures f[k] == f'[k] {
    }
  }

  /** The copying loop `for (key in directives)`: keys are taken in any
      order, since each one is written exactly once. */
  method CopyDirectives(m: seq<string>, d: map<string, nat>) returns (r: Row)
    ensures r == Filled(m, d)
  {
    r := Initial();
    var done: set<string> := {};
    RestrictBounds(m, d, done);
    var todo := d.Keys;
    while todo != {}
      invariant done <= d.Keys && todo == d.Keys - done
      invariant r == Filled(m, Restrict(d, done))
      decreases todo
    {
      var key :| key in todo;
      AssignStep(m, d, done, key);
      r := Assign(r, key, Group(m, d[key]));
      done := done + {key};
      todo := todo - {key};
    }
    RestrictBounds(m, d, done);
  }

  /** Cutting the map to no keys gives the initial row, and to all of its
      keys gives the map itself. */
  lemma RestrictBounds(m: seq<string>, d: map<string, nat>, done: set<string>)
    ensures done == {} ==> Filled(m, Restrict(d, done)) == Initial()
    ensures d.Keys <= done ==> Restrict(d, done) == d
  {
    if done == {} {
      assert Restrict(d, done) == map[];
      FilledNothing(m);
    }
  }

  /** `s.split(sep, limit)`: the split cut to at most `limit` parts. */
  function SplitLimit(s: string, sep: char, limit: nat): (parts: seq<string>)
    ensures |parts| <= limit && |parts| <= |JsString.Split(s, sep)|
    ensures parts == JsString.Split(s, sep)[..|parts|]
    ensures |parts| < limit ==> parts == JsString.Split(s, sep)
  {
    var all := JsString.Split(s, sep);
    if |all| <= limit then all else all[..limit]
  }

  predicate IsDigit(c: char) {
    '0' <= c <= '9'
  }

  predicate AllDigits(s: string) {
    forall i :: 0 <= i < |s| ==> IsDigit(s[i])
  }

  /** The value of a string of decimal digits; `Number("")` is 0. */
  function DecimalValue(s: string): nat
    requires AllDigits(s)
  {
    if |s| == 0 then 0
    else DecimalValue(s[..|s| - 1]) * 10 + (s[|s| - 1] as int - '0' as int)
  }

  function Pow2(k: nat): (p: nat)
    ensures p >= 1
  {
    if k == 0 then 1 else 2 * Pow2(k - 1)
  }

  /** JavaScript's `x << k`: the shift count is taken modulo 32 and the
      result wraps to a signed 32-bit integer. */
  function ShiftLeft(x: int, k: nat): (r: int)
    ensures -0x8000_0000 <= r < 0x8000_0000
  {
    var v := (x * Pow2(k % 32)) % 0x1_0000_0000;
    if v < 0x8000_0000 then v else v - 0x1_0000_0000
  }

  /** The weights the four parts are multiplied by: `2 << 23`, `2 << 15`,
      `2 << 7`, and 1 for the last. */
  function Weight(i: nat): int
    requires i < 4
  {
    if i == 0 then ShiftLeft(2, 23)
    else if i == 1 then ShiftLeft(2, 15)
    else if i == 2 then ShiftLeft(2, 7)
    else 1
  }

  /** The weights are the place values of base 256. */
  lemma WeightsArePowers()
    ensures Weight(0) == 16777216 && Weight(1) == 65536 && Weight(2) == 256 && Weight(3) == 1
  {
    Pow2Values();
    ShiftInRange(2, 23);
    ShiftInRange(2, 15);
    ShiftInRange(2, 7);
  }

  /** A shift whose result fits in 31 bits is a multiplication. */
  lemma ShiftInRange(x: int, k: nat)
    requires k < 32 && 0 <= x * Pow2(k) < 0x8000_0000
    ensures ShiftLeft(x, k) == x * Pow2(k)
  {
    var p := x * Pow2(k);
    assert k % 32 == k;
    assert p % 0x1_0000_0000 == p;
  }

  lemma Pow2Values()
    ensures Pow2(7) == 128 && Pow2(15) == 32768 && Pow2(23) == 8388608
  {
    Pow2Add(7, 8);
    Pow2Add(15, 8);
    assert Pow2(8) == 256;
  }

  lemma {:induction false} Pow2Add(a: nat, b: nat)
    ensures Pow2(a + b) == Pow2(a) * Pow2(b)
    decreases b
  {
    if b > 0 {
      Pow2Add(a, b - 1);
    }
  }

  /** The largest integer up to which every integer is a double. */
  const ExactLimit: nat := 0x20_0000_0000_0000

  /** The number the four parts give, read as decimal digits, with the
      weights as the source writes them. */
  function Weighted(parts: seq<string>): int
    requires DigitQuad(parts)
  {
    DecimalValue(parts[0]) * Weight(0) + DecimalValue(parts[1]) * Weight(1)
      + DecimalValue(parts[2]) * Weight(2) + DecimalValue(parts[3]) * Weight(3)
  }

  /** Four parts, each of decimal digits. */
  predicate DigitQuad(parts: seq<string>) {
    |parts| == 4 && forall i :: 0 <= i < 4 ==> AllDigits(parts[i])
  }

  /** The address the four parts stand for, o0 * 2^24 + o1 * 2^16 + o2 * 2^8 + o3. */
  function QuadValue(parts: seq<string>): nat
    requires DigitQuad(parts)
  {
    DecimalValue(parts[0]) * 16777216 + DecimalValue(parts[1]) * 65536
      + DecimalValue(parts[2]) * 256 + DecimalValue(parts[3])
  }

  /** `Number(ip[0]) * (2 << 23) + ... + Number(ip[3])` for the parts
      `ip_str.split('.', 4)`. A missing part is undefined, whose number is
      NaN, and NaN absorbs the sum. Four digit parts whose sum is exact in
      a double give o0 * 2^24 + o1 * 2^16 + o2 * 2^8 + o3; any other four
      parts are left unevaluated. */
  function EncodeIp(parts: seq<string>): (c: IpCode)
    requires |parts| <= 4
    ensures c.NotANumber? <==> |parts| < 4
    ensures c.Encoded? <==> DigitQuad(parts) && QuadValue(parts) < ExactLimit
    ensures c.Encoded? ==> c.n == QuadValue(parts)
  {
    if |parts| < 4 then NotANumber
    else if DigitQuad(parts) then
      WeightsArePowers();
      var n := Weighted(parts);
      if n < ExactLimit then Encoded(n) else Unconverted(parts)
    else Unconverted(parts)
  }

  /** The decimal digits of `n`, without leading zeros (`String(n)`). */
  function Decimal(n: nat): (s: string)
    ensures AllDigits(s) && |s| > 0
    decreases n
  {
    var last := [('0' as int + n % 10) as char];
    if n < 10 then last else Decimal(n / 10) + last
  }

  /** `Number(String(n)) == n` for whole numbers. */
  lemma {:induction false} DecimalRoundTrip(n: nat)
    ensures DecimalValue(Decimal(n)) == n
    decreases n
  {
    var s := Decimal(n);
    if n >= 10 {
      DecimalRoundTrip(n / 10);
      assert s[..|s| - 1] == Decimal(n / 10);
    }
  }

  /** The four numbers an address decodes to, most significant first. */
  function Octets(n: nat): (o: seq<nat>)
    ensures |o| == 4
  {
    var q1 := n / 256;
    var q2 := q1 / 256;
    [q2 / 256, q2 % 256, q1 % 256, n % 256]
  }

  /** Four digit parts, each naming a number below 256. */
  predicate OctetQuad(parts: seq<string>) {
    DigitQuad(parts) && forall i :: 0 <= i < 4 ==> DecimalValue(parts[i]) < 256
  }

  lemma Base256(x: nat, y: nat)
    requires y < 256
    ensures (x * 256 + y) / 256 == x && (x * 256 + y) % 256 == y
  {
  }

  /** Decoding a base-256 value gives its four digits back. */
  lemma OctetsOf(a: nat, b: nat, c: nat, e: nat)
    requires a < 256 && b < 256 && c < 256 && e < 256
    ensures Octets(((a * 256 + b) * 256 + c) * 256 + e) == [a, b, c, e]
  {
    Base256((a * 256 + b) * 256 + c, e);
    Base256(a * 256 + b, c);
    Base256(a, b);
  }

  /** Four parts in 0..255 encode to their base-256 value, and decoding
      that value gives the parts back: the encoding of well-formed dotted
      quads loses nothing. */
  lemma EncodeOctets(parts: seq<string>)
    requires OctetQuad(parts)
    ensures EncodeIp(parts) == Encoded(QuadValue(parts))
    ensures Octets(QuadValue(parts))
      == [DecimalValue(parts[0]), DecimalValue(parts[1]), DecimalValue(parts[2]), DecimalValue(parts[3])]
  {
    var v := QuadValue(parts);
    var a, b, c, e := DecimalValue(parts[0]), DecimalValue(parts[1]), DecimalValue(parts[2]), DecimalValue(parts[3]);
    assert v == a * 16777216 + b * 65536 + c * 256 + e;
    QuadOctets(a, b, c, e);
    assert Octets(v) == [a, b, c, e];
  }

  /** Decoding the weighted sum of four numbers below 256 gives them back. */
  lemma QuadOctets(a: nat, b: nat, c: nat, e: nat)
    requires a < 256 && b < 256 && c < 256 && e < 256
    ensures a * 16777216 + b * 65536 + c * 256 + e < ExactLimit
    ensures Octets(a * 16777216 + b * 65536 + c * 256 + e) == [a, b, c, e]
  {
    QuadIsBase256(a, b, c, e);
    OctetsOf(a, b, c, e);
  }

  /** The weighted sum of four numbers below 256 is their base-256 value. */
  lemma QuadIsBase256(a: nat, b: nat, c: nat, e: nat)
    requires a < 256 && b < 256 && c < 256 && e < 256
    ensures a * 16777216 + b * 65536 + c * 256 + e
      == ((a * 256 + b) * 256 + c) * 256 + e < ExactLimit
  {
  }

  /** Two dotted quads in 0..255 encode to the same number only if they
      are the same numbers. */
  lemma EncodeInjective(p: seq<string>, q: seq<string>)
    requires OctetQuad(p) && OctetQuad(q)
    requires EncodeIp(p) == EncodeIp(q)
    ensures forall i :: 0 <= i < 4 ==> DecimalValue(p[i]) == DecimalValue(q[i])
  {
    EncodeOctets(p);
    EncodeOctets(q);
    var o := Octets(QuadValue(p));
    assert o == Octets(QuadValue(q));
    forall i | 0 <= i < 4 ensures DecimalValue(p[i]) == DecimalValue(q[i]) {
      assert o[i] == DecimalValue(p[i]) == DecimalValue(q[i]);
    }
  }

  /** Parts are not checked to be below 256, so different texts can give
      the same number: "1.256.0.0" encodes like "2.0.0.0". */
  lemma EncodeUnchecked()
    ensures EncodeIp(["1", "256", "0", "0"]) == EncodeIp(["2", "0", "0", "0"]) == Encoded(33554432)
  {
    SmallDigits();
    Digits256();
    var p, q := ["1", "256", "0", "0"], ["2", "0", "0", "0"];
    assert p[0] == "1" && p[1] == "256" && p[2] == "0" && p[3] == "0";
    assert q[0] == "2" && q[1] == "0" && q[2] == "0" && q[3] == "0";
    assert DigitQuad(p) && QuadValue(p) == 33554432;
    assert DigitQuad(q) && QuadValue(q) == 33554432;
  }

  lemma SmallDigits()
    ensures AllDigits("0") && DecimalValue("0") == 0
    ensures AllDigits("1") && DecimalValue("1") == 1
    ensures AllDigits("2") && DecimalValue("2") == 2
  {
    OneDigit('0');
    OneDigit('1');
    OneDigit('2');
  }

  lemma OneDigit(c: char)
    requires IsDigit(c)
    ensures AllDigits([c]) && DecimalValue([c]) == c as int - '0' as int
  {
    assert [c][..0] == [];
  }

  lemma Digits256()
    ensures AllDigits("256") && DecimalValue("256") == 256
  {
    DecimalSnoc("", '2');
    DecimalSnoc("2", '5');
    DecimalSnoc("25", '6');
    assert "" + ['2'] == "2" && "2" + ['5'] == "25" && "25" + ['6'] == "256";
  }

  lemma DecimalSnoc(s: string, c: char)
    requires AllDigits(s) && IsDigit(c)
    ensures AllDigits(s + [c])
    ensures DecimalValue(s + [c]) == DecimalValue(s) * 10 + (c as int - '0' as int)
  {
    assert (s + [c])[..|s|] == s;
  }

  /** "192.168.1.1" becomes 192 * 16777216 + 168 * 65536 + 1 * 256 + 1. */
  lemma EncodeExample()
    ensures EncodeIp(SplitLimit("192.168.1.1", '.', 4)) == Encoded(3232235777)
  {
    SplitExample();
    QuadExample();
  }

  lemma QuadExample()
    ensures EncodeIp(["192", "168", "1", "1"]) == Encoded(3232235777)
  {
    var parts := ["192", "168", "1", "1"];
    DigitsExample();
    assert parts[0] == "192" && parts[1] == "168" && parts[2] == "1" && parts[3] == "1";
    EncodeOctets(parts);
    assert QuadValue(parts) == 192 * 16777216 + 168 * 65536 + 1 * 256 + 1;
  }

  lemma SplitExample()
    ensures SplitLimit("192.168.1.1", '.', 4) == ["192", "168", "1", "1"]
  {
    var a, b, c := "192", "168", "1";
    SplitFour(a, b, c, c, '.');
    DottedQuad();
  }

  lemma DottedQuad()
    ensures "192" + ['.'] + ("168" + ['.'] + ("1" + ['.'] + "1")) == "192.168.1.1"
  {
  }

  /** Splitting four separator-free parts joined by the separator. */
  lemma SplitFour(a: string, b: string, c: string, e: string, sep: char)
    requires sep !in a && sep !in b && sep !in c && sep !in e
    ensures JsString.Split(a + [sep] + (b + [sep] + (c + [sep] + e)), sep) == [a, b, c, e]
  {
    var t3 := c + [sep] + e;
    var t2 := b + [sep] + t3;
    assert [c] + [e] == [c, e] && [b] + [c, e] == [b, c, e] && [a] + [b, c, e] == [a, b, c, e];
    JsString.SplitNone(e, sep);
    SplitOnto(c, sep, e, [e]);
    SplitOnto(b, sep, t3, [c, e]);
    SplitOnto(a, sep, t2, [b, c, e]);
  }

  /** One more separator-free part in front adds one part to the split. */
  lemma SplitOnto(a: string, sep: char, rest: string, parts: seq<string>)
    requires sep !in a && JsString.Split(rest, sep) == parts
    ensures JsString.Split(a + [sep] + rest, sep) == [a] + parts
  {
    JsString.SplitCons(a, sep, rest);
  }

  lemma DigitsExample()
    ensures AllDigits("192") && DecimalValue("192") == 192
    ensures AllDigits("168") && DecimalValue("168") == 168
    ensures AllDigits("1") && DecimalValue("1") == 1
  {
    DecimalSnoc("", '1');
    DecimalSnoc("1", '9');
    DecimalSnoc("19", '2');
    DecimalSnoc("1", '6');
    DecimalSnoc("16", '8');
    assert "" + ['1'] == "1" && "1" + ['9'] == "19" && "19" + ['2'] == "192";
    assert "1" + ['6'] == "16" && "16" + ['8'] == "168";
  }

  /** Lines 89-93: the date comes from `time_iso8601` when it is truthy, and
      otherwise from `msec` with its first `.` removed, when that is truthy. */
  function DeriveDate(r: Row): (r': Row)
    ensures r' == r.(date := r'.date)
    ensures JsString.Truthy(Get(r, "time_iso8601")) || JsString.Truthy(Get(r, "msec")) ==> r'.date.Computed?
    ensures !JsString.Truthy(Get(r, "time_iso8601")) && !JsString.Truthy(Get(r, "msec")) ==> r' == r
  {
    var iso := Get(r, "time_iso8601");
    var msec := Get(r, "msec");
    if JsString.Truthy(iso) then r.(date := Computed(IsoText(iso.value)))
    else if JsString.Truthy(msec) then
      r.(date := Computed(EpochText(JsString.ReplaceFirst(msec.value, ".", ""))))
    else r
  }

  /** Lines 94-96: the timestamp is read from `time_local` up to its first
      space, with the first `:` turned into a space. */
  function DeriveTimestamp(r: Row): (r': Row)
    ensures r' == r.(timestamp := r'.timestamp)
    ensures var local := Get(r, "time_local");
      JsString.Truthy(local) ==> r'.timestamp.Computed? && |r'.timestamp.value| <= |local.value|
    ensures !JsString.Truthy(Get(r, "time_local")) ==> r' == r
  {
    var local := Get(r, "time_local");
    if JsString.Truthy(local) then
      var w := JsString.Split(local.value, ' ')[0];
      JsString.ReplaceChar(w, ':', " ");
      r.(timestamp := Computed(JsString.ReplaceFirst(w, ":", " ")))
    else r
  }

  /** Lines 99-103: the address text is the forwarded-for header when it is
      truthy, else the remote address when that is. */
  function DeriveIpStr(r: Row): (r': Row)
    ensures r' == r.(ipStr := r'.ipStr)
    ensures r'.ipStr in {r.ipStr, Get(r, "http_x_forwarded_for"), Get(r, "remote_addr")}
    ensures JsString.Truthy(Get(r, "http_x_forwarded_for")) || JsString.Truthy(Get(r, "remote_addr"))
      ==> JsString.Truthy(r'.ipStr)
    ensures !JsString.Truthy(Get(r, "http_x_forwarded_for")) && !JsString.Truthy(Get(r, "remote_addr"))
      ==> r' == r
  {
    var xff := Get(r, "http_x_forwarded_for");
    var addr := Get(r, "remote_addr");
    if JsString.Truthy(xff) then r.(ipStr := xff)
    else if JsString.Truthy(addr) then r.(ipStr := addr)
    else r
  }

  /** Lines 104-110: a truthy address text is encoded as a number. */
  function DeriveIp(r: Row): (r': Row)
    ensures r' == r.(ip := r'.ip)
    ensures JsString.Truthy(r.ipStr) ==> r'.ip.Computed? && r'.ip.value.NotANumber? == (|SplitLimit(r.ipStr.value, '.', 4)| < 4)
    ensures !JsString.Truthy(r.ipStr) ==> r' == r
  {
    if JsString.Truthy(r.ipStr) then
      r.(ip := Computed(EncodeIp(SplitLimit(r.ipStr.value, '.', 4))))
    else r
  }

  /** The derivations, in the order the parser runs them. */
  function Derive(r: Row): Row {
    DeriveIp(DeriveIpStr(DeriveTimestamp(DeriveDate(r))))
  }

  /** The row parsed from the groups `m` of a match. */
  function Parsed(m: seq<string>, d: map<string, nat>): Row {
    Derive(Filled(m, d))
  }

  /** Each derivation writes one part of the row and reads only the text
      fields, so the derivations see the copied fields and each derived part
      is what its own step makes of them. */
  lemma DeriveShape(r: Row)
    ensures Derive(r).fields == r.fields
    ensures Derive(r).requestBody == r.requestBody
    ensures Derive(r).date == DeriveDate(r).date
    ensures Derive(r).timestamp == DeriveTimestamp(r).timestamp
    ensures Derive(r).ipStr == DeriveIpStr(r).ipStr
    ensures Derive(r).ip == DeriveIp(DeriveIpStr(r)).ip
  {
    var r1 := DeriveDate(r);
    var r2 := DeriveTimestamp(r1);
    var r3 := DeriveIpStr(r2);
    assert DeriveTimestamp(r1).timestamp == DeriveTimestamp(r).timestamp by {
      assert Get(r1, "time_local") == Get(r, "time_local");
    }
    assert DeriveIpStr(r2).ipStr == DeriveIpStr(r).ipStr by {
      assert Get(r2, "http_x_forwarded_for") == Get(r, "http_x_forwarded_for");
      assert Get(r2, "remote_addr") == Get(r, "remote_addr");
    }
  }

  lemma FieldsForFacts(m: seq<string>, d: map<string, nat>, known: set<string>, derived: set<string>)
    ensures var f := FieldsFor(m, d, known, derived);
      && f.Keys == known + (d.Keys - derived)
      && (forall k :: k in known && k !in d ==> f[k] == None)
      && (forall k :: k in d && k !in derived ==> f[k] == Group(m, d[k]))
      && (forall k :: k in f ==> f[k] != Some("-"))
  {
  }

  /** The fields after parsing: the seventeen text fields and every other
      directive name that is not a derived field; a text field no directive
      names stays null; a directive's field holds its group, with `-` read as
      null; no field ever holds `-`. */
  lemma ParsedFields(m: seq<string>, d: map<string, nat>)
    ensures Parsed(m, d).fields.Keys == TextFields + (d.Keys - DerivedFields)
    ensures forall k :: k in TextFields && k !in d ==> Get(Parsed(m, d), k) == None
    ensures forall k :: k in d && k !in DerivedFields ==>
      Get(Parsed(m, d), k) == (if d[k] < |m| && m[d[k]] != "-" then Some(m[d[k]]) else None)
    ensures forall k :: Get(Parsed(m, d), k) != Some("-")
  {
    DeriveShape(Filled(m, d));
    FieldsForFacts(m, d, TextFields, DerivedFields);
  }

  /** With no directive of that name the request body stays the empty
      object; a directive named `request_body` overwrites it. */
  lemma ParsedRequestBody(m: seq<string>, d: map<string, nat>)
    ensures "request_body" !in d ==> Parsed(m, d).requestBody == Computed(EmptyObject)
    ensures "request_body" in d ==>
      Parsed(m, d).requestBody == (if d["request_body"] < |m| && m[d["request_body"]] != "-"
        then Captured(m[d["request_body"]]) else Null)
  {
    DeriveShape(Filled(m, d));
  }

  /** `s` without its first `c`, by position: unchanged when there is none. */
  predicate RemovesFirst(s: string, c: char, t: string) {
    var k := JsString.FirstIndex(s, c);
    t == if k < |s| then s[..k] + s[k + 1..] else s
  }

  /** The date comes from `time_iso8601` when it is truthy; failing that,
      from `msec` with its first `.` (and only that one) removed; failing
      both, the date keeps what the copying gave it. By DeriveShape this is
      the parsed row's date. */
  lemma DateRule(r: Row)
    ensures var iso := Get(r, "time_iso8601");
      var msec := Get(r, "msec");
      var date := DeriveDate(r).date;
      && (JsString.Truthy(iso) ==> date == Computed(IsoText(iso.value)))
      && (!JsString.Truthy(iso) && JsString.Truthy(msec) ==>
            date.Computed? && date.value.EpochText? && RemovesFirst(msec.value, '.', date.value.text))
      && (!JsString.Truthy(iso) && !JsString.Truthy(msec) ==> date == r.date)
  {
    var msec := Get(r, "msec");
    if msec.Some? {
      var k := JsString.FirstIndex(msec.value, '.');
      JsString.ReplaceChar(msec.value, '.', "");
      assert msec.value[..k] + "" == msec.value[..k];
    }
  }

  /** The text the timestamp is read from: `time_local` up to its first
      space, with the first `:` of that part turned into a space. */
  predicate TimestampText(local: string, t: string) {
    var w := local[..JsString.FirstIndex(local, ' ')];
    var k := JsString.FirstIndex(w, ':');
    t == if k < |w| then w[..k] + " " + w[k + 1..] else w
  }

  /** A truthy `time_local` gives the timestamp; otherwise it keeps what the
      copying gave it. */
  lemma TimestampRule(r: Row)
    ensures var local := Get(r, "time_local");
      var ts := DeriveTimestamp(r).timestamp;
      && (JsString.Truthy(local) ==> ts.Computed? && TimestampText(local.value, ts.value))
      && (!JsString.Truthy(local) ==> ts == r.timestamp)
  {
    var local := Get(r, "time_local");
    if local.Some? {
      JsString.ReplaceChar(JsString.Split(local.value, ' ')[0], ':', " ");
    }
  }

  /** A Common Log Format time `day:time zone` gives the text `day time`:
      the zone after the space is cut off before the colon is replaced. */
  lemma TimestampParts(day: string, time: string, zone: string)
    requires ' ' !in day && ':' !in day && ' ' !in time
    ensures var local := day + [':'] + time + [' '] + zone;
      JsString.ReplaceFirst(JsString.Split(local, ' ')[0], ":", " ") == day + " " + time
  {
    var w := day + [':'] + time;
    assert ' ' !in w;
    JsString.SplitCons(w, ' ', zone);
    FirstColon(day, time);
  }

  lemma FirstColon(day: string, time: string)
    requires ':' !in day
    ensures JsString.ReplaceFirst(day + [':'] + time, ":", " ") == day + " " + time
  {
    var w := day + [':'] + time;
    var k := ColonIndex(day, time);
    JsString.ReplaceChar(w, ':', " ");
    assert w[..k] == day;
    assert w[k + 1..] == time;
  }

  lemma ColonIndex(day: string, time: string) returns (k: nat)
    requires ':' !in day
    ensures k == |day| && JsString.FirstIndex(day + [':'] + time, ':') == k
  {
    JsString.FirstIndexOf(day, ':', [':'] + time);
    assert day + [':'] + time == day + ([':'] + time);
    k := |day|;
  }

  /** The timestamp of a row whose `time_local` is `day:time zone`. */
  lemma TimestampOf(r: Row, day: string, time: string, zone: string)
    requires ' ' !in day && ':' !in day && ' ' !in time
    requires Get(r, "time_local") == Some(day + [':'] + time + [' '] + zone)
    ensures DeriveTimestamp(r).timestamp == Computed(day + " " + time)
  {
    TimestampParts(day, time, zone);
  }

  /** `10/Oct/2020:13:55:36 +0000` is read as `10/Oct/2020 13:55:36`: the
      `+0000` zone never reaches the date parser. */
  lemma TimestampExample(r: Row)
    requires Get(r, "time_local") == Some("10/Oct/2020:13:55:36 +0000")
    ensures DeriveTimestamp(r).timestamp == Computed("10/Oct/2020 13:55:36")
  {
    var day, time, zone := "10/Oct/2020", "13:55:36", "+0000";
    assert day + [':'] + time + [' '] + zone == "10/Oct/2020:13:55:36 +0000";
    assert day + " " + time == "10/Oct/2020 13:55:36";
    TimestampOf(r, day, time, zone);
  }

  /** The address of a parsed row, in terms of the captures: the address
      text is the first truthy one of the forwarded-for header, the remote
      address and an `ip_str` directive's own capture; it is never `-`;
      and the numeric address is computed from it exactly when it is
      truthy. */
  lemma IpRule(m: seq<string>, d: map<string, nat>)
    ensures var xff := CaptureOf(m, d, "http_x_forwarded_for");
      var addr := CaptureOf(m, d, "remote_addr");
      var p := Parsed(m, d);
      && p.ipStr == (if JsString.Truthy(xff) then xff
                     else if JsString.Truthy(addr) then addr
                     else CaptureOf(m, d, "ip_str"))
      && p.ipStr != Some("-")
      && (p.ip.Computed? <==> JsString.Truthy(p.ipStr))
      && (JsString.Truthy(p.ipStr) ==> p.ip == Computed(EncodeIp(SplitLimit(p.ipStr.value, '.', 4))))
  {
    var r := Filled(m, d);
    FieldsForFacts(m, d, TextFields, DerivedFields);
    assert Get(r, "http_x_forwarded_for") == CaptureOf(m, d, "http_x_forwarded_for");
    assert Get(r, "remote_addr") == CaptureOf(m, d, "remote_addr");
    assert !r.ip.Computed?;
    DeriveShape(r);
    IpStep(r);
  }

  /** A forwarded-for header logged as `-` is null, so the address falls
      back to the remote address. */
  lemma DashedForwardedFor(m: seq<string>, d: map<string, nat>)
    requires "http_x_forwarded_for" in d && d["http_x_forwarded_for"] < |m| && m[d["http_x_forwarded_for"]] == "-"
    requires JsString.Truthy(CaptureOf(m, d, "remote_addr"))
    ensures Parsed(m, d).ipStr == CaptureOf(m, d, "remote_addr")
  {
    IpRule(m, d);
  }

  /** The address steps on any row: the forwarded-for header when truthy,
      else the remote address when truthy, else what the row held. */
  lemma IpStep(r: Row)
    ensures var xff := Get(r, "http_x_forwarded_for");
      var addr := Get(r, "remote_addr");
      var o := DeriveIp(DeriveIpStr(r));
      && o.ipStr == (if JsString.Truthy(xff) then xff
                     else if JsString.Truthy(addr) then addr
                     else r.ipStr)
      && (JsString.Truthy(o.ipStr) ==> o.ip == Computed(EncodeIp(SplitLimit(o.ipStr.value, '.', 4))))
      && (!JsString.Truthy(o.ipStr) ==> o.ip == r.ip)
  {
  }

  /** Entry 0 of the match, the whole matched text, is never read when
      every directive index is at least 1, as the compiler's are. */
  lemma WholeMatchUnread(w: string, w': string, gs: seq<string>, d: map<string, nat>)
    requires forall k :: k in d ==> d[k] >= 1
    ensures Parsed([w] + gs, d) == Parsed([w'] + gs, d)
  {
    var m, m' := [w] + gs, [w'] + gs;
    forall k ensures CaptureOf(m, d, k) == CaptureOf(m', d, k) {
      if k in d {
        var i := d[k];
        assert i < |m| ==> m[i] == m'[i];
      }
    }
    var f, f' := FieldsFor(m, d, TextFields, DerivedFields), FieldsFor(m', d, TextFields, DerivedFields);
    assert f == f' by {
      assert f.Keys == f'.Keys;
      forall k | k in f ensures f[k] == f'[k] {
        assert CaptureOf(m, d, k) == CaptureOf(m', d, k);
      }
    }
    assert SlotFor<DateArg>(m, d, "date", Null) == SlotFor(m', d, "date", Null);
    assert SlotFor<string>(m, d, "timestamp", Null) == SlotFor(m', d, "timestamp", Null);
    assert SlotFor<IpCode>(m, d, "ip", Null) == SlotFor(m', d, "ip", Null);
    assert SlotFor(m, d, "request_body", Computed(EmptyObject)) == SlotFor(m', d, "request_body", Computed(EmptyObject));
    assert Filled(m, d) == Filled(m', d);
  }

  /** `parseLine`: no row when the line does not match; otherwise the
      directives are copied and the derived fields computed. */
  method ParseLine(found: Option<seq<string>>, d: map<string, nat>) returns (row: Option<Row>)
    ensures row.None? <==> found.None?
    ensures row.Some? ==> row.value == Parsed(found.value, d)
  {
    if found.None? {
      return None;
    }
    var r := CopyDirectives(found.value, d);
    row := Some(Derive(r));
  }
}
