# nginx access-log parser, in Dafny

This project models the nginx access-log parser of `examples/nginx_log_parser.js`. It has two halves.

**The compiler** is the `Parser` constructor. It turns an nginx `log_format` string such as
`$remote_addr - $remote_user [$time_local] "$request" $status $body_bytes_sent`
into two things: a regular expression, and a map from each directive name to its capture-group index. It works in four steps:

1. It escapes the literal prefix before the first `$`.
2. It scans the directives with `/\$([a-z_]+)(.)?([^\$]+)?/g`.
3. It gives each directive the next group index.
4. It replaces each directive's text in the working string with a pattern fragment. That fragment is one of:
   - `([^b]*?)b` followed by the escaped literal text, when the directive has a boundary character `b`;
   - `(.+)$`, when it has none.

**The line parser** is `parseLine`. It matches one log line against that expression and builds a row:

1. No match gives no row.
2. Otherwise every known field starts as null, except `request_body`, which starts as the empty object `{}`. Each directive's capture is copied into the field of its name, with `-` read as null.
3. The parser then derives:
   - `date`, from `time_iso8601` or from `msec`;
   - `timestamp`, from `time_local`;
   - `ip_str`, from `http_x_forwarded_for` or `remote_addr`;
   - the numeric `ip`, from the dotted quad in `ip_str`.

## Modules

| module | what it holds |
|---|---|
| `Escape` (escape.dfy) | The `escape` method. |
| `JsString` (jsstring.dfy) | The JavaScript string operations the source calls, with their exact semantics: `indexOf`, `replace` with a string pattern (including `$` replacement patterns), `split` on one character, and truthiness. |
| `Format` (format.dfy) | The directive scanner: the directive regular expression run with the `g` flag over the working string, as a token list. |
| `Compiler` (compiler.dfy) | The constructor: prefix escaping, the index map, the fragments, and the sequence of `replace` calls. |
| `Pattern` (pattern.dfy) | The subset of JavaScript regular expressions the compiler emits, and `String.prototype.match` on it. |
| `Layout` (layout.dfy) | Formats as their authors write them: a literal prefix, then fields with a name, a boundary and literal text. These are used to state the round trip. |
| `LineParser` (lineparser.dfy) | `parseLine`, from the match array onward. |
| `Pipeline` (pipeline.dfy) | Both halves together, `new Parser(format).parseLine(line)`, the Common Log Format scenario, and the round trip of the default format quoted in the header comment. |

## Model

| member | source | states |
|---|---|---|
| Escape.Escape | examples/nginx_log_parser.js:122-124 | The escaped text has one extra character per regular-expression metacharacter (the dot, `*`, `+`, `?`, the bar, parentheses, brackets and braces). It never begins with a bare metacharacter. Removing the inserted backslashes gives back the input. |
| Escape.EscapeConcat | examples/nginx_log_parser.js:122-124 | The global replace works character by character: escaping a concatenation is the concatenation of the escapes. |
| Escape.EscapeKeeps | examples/nginx_log_parser.js:122-124 | Escaping neither adds nor removes any character that is not a metacharacter or backslash; in particular, `$` occurs in the escaped text exactly when it occurs in the input. |
| Escape.EscapeFixed | examples/nginx_log_parser.js:122-124 | Escaping leaves a text unchanged exactly when it holds no metacharacter. |
| Compiler.Prefix | examples/nginx_log_parser.js:15 | `^[^\$]*` matches the longest `$`-free prefix of the format. That is, the prefix holds no `$`, and it is followed by the end or by a `$`. |
| Compiler.Working | examples/nginx_log_parser.js:15-18 | The working string is the escaped prefix, which holds no `$`, followed by the format from its first `$` on, unchanged. |
| Format.MatchDirective | examples/nginx_log_parser.js:22 | At a `$`, the directive expression fails exactly when no name character follows. Otherwise it yields a directive. |
| Format.MatchDirectiveScanned | examples/nginx_log_parser.js:22-25 | A matched directive is well formed:<br>• a non-empty name of `[a-z_]` characters;<br>• a boundary that is not a line terminator;<br>• a `$`-free literal.<br>Its text is a prefix of the input, and it ends at the end of the input or at the next `$`. |
| Format.Next | examples/nginx_log_parser.js:22-25 | One scanning step consumes a non-empty prefix that ends at the next `$` or at the end. A directive with neither boundary nor literal consumes everything. |
| Format.Tokenise | examples/nginx_log_parser.js:22-25 | The scanned tokens, put back together, give the scanned string. Nothing is lost and nothing is reordered. |
| Format.TokeniseCanonical | examples/nginx_log_parser.js:22-25 | Every scan yields a canonical token list: each token is well scanned, and each token after the first starts with `$`. |
| Format.TokeniseUnique | examples/nginx_log_parser.js:22-25 | Scanning the text of a canonical token list gives back that list, so the scan is the inverse of writing tokens out. |
| Compiler.Indices | examples/nginx_log_parser.js:23-26 | The index map holds every directive name except `__proto__`. Each name maps to the 1-based position of its last occurrence, and no later position holds that name. |
| Compiler.IndicesKeys | examples/nginx_log_parser.js:26 | The map's keys are exactly the set of directive names, minus `__proto__`. |
| Compiler.IndicesSize | examples/nginx_log_parser.js:26 | The map has at most as many entries as there are directives. |
| Compiler.IndicesDistinct | examples/nginx_log_parser.js:23-26 | With distinct names, the k-th directive (counting from 0) gets group index k + 1. |
| Compiler.Fragment | examples/nginx_log_parser.js:27-35 | A fragment starts with `(`. When neither the boundary nor the literal is `$`, the fragment has no `$` replacement pattern, so `replace` inserts it verbatim. It then also holds no `$` followed by a name character, so no later directive can be found inside it. |
| Compiler.ReplaceAll | examples/nginx_log_parser.js:25-37 | Replacing each directive's first occurrence, one after the other, renders the token list fragment by fragment. This holds for an inert, already rendered prefix followed by the text of canonical tokens in which no directive has `$` as its boundary, because each first occurrence is then the directive's own position. A working string without `$` holds no directive text, so the calls leave it unchanged. |
| Compiler.DollarFree | examples/nginx_log_parser.js:36 | A directive's text starts with `$`, so it is never found in a `$`-free string. |
| Compiler.RenderStep | examples/nginx_log_parser.js:36 | One `replace` call keeps the rendering: whatever renders the text after the first directive's replacement also renders the text before it. |
| Compiler.Compile | examples/nginx_log_parser.js:12-38 | The directive map is the index map of the names scanned from the working string. When no directive has `$` as its boundary, the compiled pattern is the rendering of the scanned working string: literal text as it is, and each directive by its fragment. |
| JsString.IndexOf | examples/nginx_log_parser.js:36 | The position found is an occurrence, and no earlier position is one. When nothing is found, there is no occurrence at all. |
| JsString.ReplaceFirst | examples/nginx_log_parser.js:36 | With no occurrence, the text is unchanged. Otherwise the text before the first occurrence and the text after it are kept around the substitution. |
| JsString.ReplaceFirstSplices | examples/nginx_log_parser.js:36 | A replacement without `$` patterns (a `$` at most as its last character) splices in exactly at the first occurrence: the text before it, the replacement, then the text after the occurrence. |
| JsString.SubstituteVerbatim | examples/nginx_log_parser.js:36 | A replacement string in which every `$` is the last character (so it starts no replacement pattern) is inserted as written. |
| JsString.FirstIndex | examples/nginx_log_parser.js:92-95 | The result is the first position of the character, or the length of the text when the character is absent. |
| JsString.ReplaceChar | examples/nginx_log_parser.js:92-95 | Replacing a one-character pattern removes exactly the first occurrence of that character and puts the replacement in its place. A text without the character is unchanged. |
| JsString.Split | examples/nginx_log_parser.js:95 | `split` on one character gives at least one part. No part holds the separator. Joining the parts with the separator gives the input back. The first part is the text before the first separator. |
| JsString.SplitCons | examples/nginx_log_parser.js:105 | A separator-free text followed by the separator splits into that text, then the split of the rest. |
| Layout.WorkingOfText | examples/nginx_log_parser.js:15-18 | For a well-formed format, the prefix the constructor finds is the layout's literal prefix, and the working string is its escape followed by the directives' text. |
| Layout.ScanLayout | examples/nginx_log_parser.js:15-25 | The scanner recovers a well-formed format's structure: the escaped prefix, then one directive token per field. |
| Layout.ShowLits | examples/nginx_log_parser.js:28-31 | An escaped literal reads as a sequence of literal-character pieces. |
| Layout.RenderFields | examples/nginx_log_parser.js:27-35 | The fragments of a format's fields are the written form of a boundary capture per field, followed by its literal characters. A field with no boundary gives the terminal capture. |
| Layout.CompiledPattern | examples/nginx_log_parser.js:12-38 | The pattern compiled from a well-formed format is the written form of the format's pieces. |
| Layout.CompiledIndices | examples/nginx_log_parser.js:26 | The directive map compiled from a well-formed format is the index map of its field names, in order. |
| Layout.CompiledGroups | examples/nginx_log_parser.js:29-38 | The compiled pattern reads back as the format's pieces, with exactly one capture group per directive. |
| Pattern.Read | examples/nginx_log_parser.js:38 | Every piece read from pattern text is one the compiler can write: a literal character, a boundary capture or the terminal capture. |
| Pattern.ReadShow | examples/nginx_log_parser.js:38 | Reading the written form of readable pieces gives those pieces back, so `new RegExp` receives exactly the intended expression. |
| Pattern.MatchAt | examples/nginx_log_parser.js:51 | A match at a fixed position yields one group per capturing piece. |
| Pattern.Search | examples/nginx_log_parser.js:51 | The match found starts at the leftmost position where the pattern matches. If nothing is found, no position at or after the start matches. |
| Pattern.Exec | examples/nginx_log_parser.js:51-54 | `match` is unsupported exactly when the pattern is outside the emitted subset. A match yields the groups of the leftmost start position that matches. No match means that no start position matches. |
| Layout.MatchLayout | examples/nginx_log_parser.js:51 | The pieces of a well-formed format match the line made by filling values into the format, and they capture exactly those values. Trailing text is allowed unless the last field has no boundary. |
| Layout.MatchLayoutSound | examples/nginx_log_parser.js:51 | Whatever the pieces match is some filling of the format: the groups fit their fields, and the matched text starts with the filled format. |
| Layout.RoundTrip | examples/nginx_log_parser.js:12-54 | Compiling a well-formed format and matching a line filled from values that fit it gives back exactly those values. |
| Layout.ExecSound | examples/nginx_log_parser.js:51-54 | Every match of a compiled well-formed format is a filling of it, by values that fit, found at some position of the line. |
| Layout.ExecNoMatch | examples/nginx_log_parser.js:51-54 | For a well-formed format the pattern is always in the emitted subset, and `parseLine` finds no match exactly when no position of the line starts a filling of the format. |
| LineParser.Initial | examples/nginx_log_parser.js:56-79 | The initial row holds the seventeen text fields, all null. `date`, `timestamp`, `ip` and `ip_str` are null, and `request_body` is an empty object. |
| LineParser.Group | examples/nginx_log_parser.js:82-85 | A copied capture is never `-`. It is present exactly when the index is inside the match and the capture is not `-`, and it is then the capture itself. |
| LineParser.AssignStep | examples/nginx_log_parser.js:81-86 | One loop iteration, `row[key] = match[i]` with `-` made null, moves from the row for the directives copied so far to the row for those plus one. |
| LineParser.CopyDirectives | examples/nginx_log_parser.js:81-86 | The copying loop yields the row that describes every directive copied, whatever the order in which the keys are visited. |
| LineParser.ParsedFields | examples/nginx_log_parser.js:56-86 | A parsed row's text fields:<br>• they are the seventeen known names plus every other directive name;<br>• a known field that no directive names stays null;<br>• a directive's field holds its capture, with `-` read as null;<br>• no field ever holds `-`. |
| LineParser.ParsedRequestBody | examples/nginx_log_parser.js:78-86 | `request_body` stays the empty object unless a directive of that name overwrites it with its capture. |
| LineParser.WholeMatchUnread | examples/nginx_log_parser.js:81-82 | Entry 0 of the match array, the whole matched text, never reaches the row when every directive index is at least 1. |
| LineParser.DeriveShape | examples/nginx_log_parser.js:88-110 | The derivations leave the text fields and `request_body` alone. Each derived part is what its own step makes of the copied fields; the `ip` step reads the `ip_str` that step chose. |
| LineParser.DeriveDate | examples/nginx_log_parser.js:89-93 | Only `date` changes. A truthy `time_iso8601` or `msec` gives a computed date. With neither, the row is unchanged. |
| LineParser.DeriveTimestamp | examples/nginx_log_parser.js:94-96 | Only `timestamp` changes. A truthy `time_local` gives a computed timestamp whose text is no longer than `time_local`. Otherwise the row is unchanged. |
| LineParser.DeriveIpStr | examples/nginx_log_parser.js:99-103 | Only `ip_str` changes, and only to the forwarded-for header or the remote address. When either is truthy, the new `ip_str` is truthy. With neither, the row is unchanged. |
| LineParser.DeriveIp | examples/nginx_log_parser.js:104-110 | Only `ip` changes. A truthy `ip_str` gives a computed `ip`, which is NaN from a missing part exactly when `split('.', 4)` gives fewer than four parts. A part that is not plain decimal digits gives `Unconverted`. Otherwise the row is unchanged. |
| LineParser.DateRule | examples/nginx_log_parser.js:89-93 | `date` is built from a truthy `time_iso8601`. Failing that, it is built from a truthy `msec` with only its first `.` removed. Failing both, the copied value is kept. |
| LineParser.TimestampRule | examples/nginx_log_parser.js:94-96 | A truthy `time_local` gives the text up to its first space, with the first `:` of that part replaced by a space. Otherwise the copied value is kept. |
| LineParser.TimestampParts | examples/nginx_log_parser.js:95 | A time `day:time zone` is handed over as `day time`. The zone is cut off before the colon is replaced. |
| LineParser.TimestampExample | examples/nginx_log_parser.js:94-96 | `10/Oct/2020:13:55:36 +0000` is read as `10/Oct/2020 13:55:36`. |
| LineParser.IpRule | examples/nginx_log_parser.js:81-110 | For a parsed row, `ip_str` is the capture of `http_x_forwarded_for` when that is truthy, else the capture of `remote_addr` when that is truthy, else the `ip_str` directive's capture, which may be null or empty. It is never `-`. `ip` is computed from it, by encoding its `split('.', 4)` parts, exactly when it is truthy. |
| LineParser.DashedForwardedFor | examples/nginx_log_parser.js:83-103 | A forwarded-for header logged as `-` is read as null, so a truthy remote address becomes `ip_str`. |
| LineParser.SplitLimit | examples/nginx_log_parser.js:105 | `split('.', 4)` gives the first at most four parts of the full split. It gives all of them when there are fewer than four. |
| LineParser.ShiftLeft | examples/nginx_log_parser.js:106-108 | JavaScript's `<<` always yields a signed 32-bit value. |
| LineParser.WeightsArePowers | examples/nginx_log_parser.js:106-108 | `2 << 23`, `2 << 15` and `2 << 7` are 2^24, 2^16 and 2^8, the base-256 place values. |
| LineParser.EncodeIp | examples/nginx_log_parser.js:104-110 | A missing part makes the sum NaN, and that happens exactly when there are fewer than four parts. A part that is not plain decimal digits gives `Unconverted`. Otherwise the sum is evaluated exactly when it is below 2^53, and it is then exactly o0·2^24 + o1·2^16 + o2·2^8 + o3 of the parts' decimal values. |
| LineParser.DecimalRoundTrip | examples/nginx_log_parser.js:106-109 | `Number` applied to the decimal digits of n gives back n. |
| LineParser.EncodeOctets | examples/nginx_log_parser.js:104-110 | Four octets below 256 encode to the big-endian 32-bit value of the address, and its base-256 digits give the octets back. |
| LineParser.EncodeInjective | examples/nginx_log_parser.js:104-110 | Two addresses whose octets are all below 256 encode equally only if their octets are equal. |
| LineParser.EncodeUnchecked | examples/nginx_log_parser.js:104-110 | Octets are not range-checked, so `1.256.0.0` and `2.0.0.0` encode to the same number. |
| LineParser.EncodeExample | examples/nginx_log_parser.js:104-110 | `192.168.1.1` encodes to 3232235777. |
| LineParser.ParseLine | examples/nginx_log_parser.js:50-113 | There is no row exactly when the line does not match. Otherwise the row is the match's directives copied and the derived fields computed. |
| Pipeline.ParseWith | examples/nginx_log_parser.js:50-54 | The outcome is outside the modelled patterns exactly when the compiled pattern is not in the emitted subset. |
| Pipeline.DirectiveIndex | examples/nginx_log_parser.js:23-26 | In a well-formed format with distinct names, the i-th directive's name, if it is not `__proto__`, maps to group i + 1. |
| Pipeline.EndToEnd | examples/nginx_log_parser.js:12-113 | For a well-formed format with distinct names, none of them `__proto__`, the line made by filling in values that fit always parses. Each directive's field then holds the value written for it, or null when that value is `-`. This is stated for every name except the derived ones (`date`, `timestamp`, `ip`, `ip_str`, `request_body`), which the later steps may overwrite. |
| Pipeline.CommonScenario | examples/nginx_log_parser.js:12-110 | On the six-directive Common Log Format and the line `192.168.1.1 - - [10/Oct/2020:13:55:36 +0000] "GET /x HTTP/1.1" 200 512`:<br>• every field holds its value;<br>• `remote_user` is null;<br>• there is no date;<br>• `ip` is 3232235777. |
| Pipeline.DefaultText | examples/nginx_log_parser.js:3 | The eight-field layout writes out as exactly the default format quoted in the header comment, `$remote_addr - $remote_user [$time_local] "$request" $status $body_bytes_sent "$http_referer" "$http_user_agent"`. |
| Pipeline.DefaultRoundTrip | examples/nginx_log_parser.js:3-113 | Compiling that default format and parsing any line filled in from values that fit it gives a row. Each of its eight fields holds its value, or null for `-`. |
| Pipeline.CommonExample | examples/nginx_log_parser.js:12-110 | The common format and its sample line meet the scenario's conditions, so that line parses with the address 192.168.1.1, a null user and `ip` 3232235777. |

## Left out

- **Regular expressions.** `new RegExp` and `match` are modelled only on the pieces the compiler emits for formats whose boundaries and literals are plain pattern characters. Any other pattern gives the `Unsupported` outcome rather than a meaning. Examples are a prefix or literal holding `^` or `\`, or a boundary `^`, `\` or `$` placed inside a character class. A boundary `]` is escaped to `\]` and is supported.
- **Compiler.Compile:** states the rendering only when no directive uses `$` as its boundary. For such a format, the fragment `([^$]*?)$...` may hold `$` replacement patterns. `replace` may then rewrite it, or match a later directive inside an earlier fragment. The model computes `Compile` as written for every format, but states the rendering only without a `$` boundary.
- **Dates.** `new Date(...)` and `getTime()` are not modelled, because date parsing is host-defined. The row records the text handed to them (`IsoText`, `EpochText`, the timestamp text), not the resulting date or number.
- **Number conversion.** `Number(...)` is evaluated only on plain decimal digit strings, where `""` gives 0. Any other part, or a weighted sum at or beyond 2^53, gives `Unconverted` instead of a double. Examples of other parts are signs, whitespace, `0x` prefixes and IPv6 text. Floating-point arithmetic is not modelled.
- **Input.** `line.toString()` on a Buffer (byte decoding) is not modelled: the line is a string. Strings are sequences of characters, not UTF-16 code units.
- **undefined.** A capture group that took no part in the match would be `undefined`. The model reads it as null, like a missing field. The emitted pieces always take part in a match.
- **Compiler.Indices:** the key insertion order of `this.directives` is not modelled, only its contents. The copying loop's result does not depend on that order, because the keys are distinct.
- **Repeated names.** For a repeated directive name the code stores the index of the LAST occurrence, since `directives[name] = i++` runs for every match. Indices in first-occurrence order, contiguous from 1, hold only for distinct names (`Compiler.IndicesDistinct`). The model follows the code.
- **Timestamp zone.** The code passes `time_local` only up to its first space to `Date`, so the `+0000` zone is dropped. A reading that keeps the zone is not what the code does. The model follows the code (`LineParser.TimestampExample`).
- **Common format text.** `Pipeline.CommonScenario` uses the six-directive Common Log Format, `$remote_addr - $remote_user [$time_local] "$request" $status $body_bytes_sent`, given as a `Layout`. That is not the header comment's default format, which adds `"$http_referer" "$http_user_agent"`. The default format has its own round trip (`Pipeline.DefaultRoundTrip`), but no concrete sample line.
- **lib/filters/filter_nginx_parser.js** is not part of this model: it is the plugin that feeds lines to the parser and tries several formats in turn.
