/**
 The `Signature` header: a list of parameters split at commas that are neither quoted nor escaped, each of the
 form key=value with an optionally quoted value.
 */
module SignatureHeader {
  import opened Text

  // ---------- splitting ----------

  /** The state of the scan: inside double quotes, and right after a backslash. */
  datatype Mode = Mode(inQuotes: bool, escaped: bool)

  const START: Mode := Mode(false, false)

  function Step(m: Mode, c: char): Mode {
    if m.escaped then m.(escaped := false)
    else if c == '\\' then m.(escaped := true)
    else if c == '"' then m.(inQuotes := !m.inQuotes)
    else m
  }

  function After(m: Mode, s: string): Mode {
    if s == "" then m else Step(After(m, s[..|s| - 1]), s[|s| - 1])
  }

  /** A comma that separates. */
  predicate Free(m: Mode, c: char) {
    c == ',' && m == START
  }

  predicate NoFreeComma(m: Mode, s: string) {
    forall i :: 0 <= i < |s| ==> !Free(After(m, s[..i]), s[i])
  }

  /**
   The parts of a text: joined they give it back, no part has a separating comma, and quotes close in all but the
   last.
   */
  predicate IsSplit(raw: string, parts: seq<string>) {
    && parts != [] && Join(parts, ",") == raw
    && (forall k :: 0 <= k < |parts| ==> NoFreeComma(START, parts[k]))
    && (forall k :: 0 <= k < |parts| - 1 ==> After(START, parts[k]) == START)
  }

  function Split(raw: string): (parts: seq<string>)
    ensures parts != []
  {
    if raw == "" then [""]
    else
      var rest, c := raw[..|raw| - 1], raw[|raw| - 1];
      var parts := Split(rest);
      if Free(After(START, rest), c) then parts + [""] else ExtendLast(parts, [c])
  }

  function ExtendLast(parts: seq<string>, t: string): seq<string>
    requires parts != []
  {
    parts[..|parts| - 1] + [parts[|parts| - 1] + t]
  }

  /** `splitSignatureParameters` */
  method SplitSignatureParameters(raw: string) returns (parts: seq<string>)
    ensures parts == Split(raw)
  {
    hide Split, After;
    parts := [];
    var start, inQuotes, escaped := 0, false, false;
    var i := 0;
    SplitNone(raw);
    while i < |raw|
      invariant 0 <= start <= i <= |raw|
      invariant After(START, raw[..i]) == Mode(inQuotes, escaped)
      invariant Split(raw[..i]) == parts + [raw[start..i]]
    {
      var ch := raw[i];
      SplitNext(raw, start, i, parts, Mode(inQuotes, escaped), ch);
      if escaped {
        escaped := false;
      } else {
        match ch
        case '\\' => escaped := true;
        case '"' => inQuotes := !inQuotes;
        case ',' =>
          if !inQuotes {
            parts := parts + [raw[start..i]];
            start := i + 1;
          }
        case _ =>
      }
      i := i + 1;
    }
    SplitAll(raw, start);
    parts := parts + [raw[start..]];
  }

  lemma SplitNone(raw: string)
    ensures After(START, raw[..0]) == START && Split(raw[..0]) == [] + [raw[0..0]]
  {}

  lemma SplitAll(raw: string, start: nat)
    requires start <= |raw|
    ensures raw[..|raw|] == raw && raw[start..] == raw[start..|raw|]
  {}

  /** One more character: it ends a part, or belongs to the last one. */
  lemma SplitNext(raw: string, start: nat, i: nat, parts: seq<string>, m: Mode, c: char)
    requires start <= i < |raw| && c == raw[i]
    requires Split(raw[..i]) == parts + [raw[start..i]] && After(START, raw[..i]) == m
    ensures After(START, raw[..i + 1]) == Step(m, c)
    ensures Free(m, c) ==> Split(raw[..i + 1]) == parts + [raw[start..i]] + [raw[i + 1..i + 1]]
    ensures !Free(m, c) ==> Split(raw[..i + 1]) == parts + [raw[start..i + 1]]
  {
    var last := raw[start..i];
    assert raw[..i + 1][..i] == raw[..i];
    assert raw[start..i + 1] == last + [c] && raw[i + 1..i + 1] == "";
    assert ExtendLast(parts + [last], [c]) == parts + [last + [c]];
  }

  lemma {:induction false} AfterConcat(m: Mode, a: string, b: string)
    ensures After(m, a + b) == After(After(m, a), b)
  {
    if b == "" {
      assert a + b == a;
    } else {
      assert (a + b)[..|a + b| - 1] == a + b[..|b| - 1];
      AfterConcat(m, a, b[..|b| - 1]);
    }
  }

  lemma NoFreeConcat(m: Mode, a: string, b: string)
    requires NoFreeComma(m, a) && NoFreeComma(After(m, a), b)
    ensures NoFreeComma(m, a + b)
  {
    forall i | 0 <= i < |a + b| ensures !Free(After(m, (a + b)[..i]), (a + b)[i]) {
      if i < |a| {
        assert (a + b)[..i] == a[..i];
      } else {
        assert (a + b)[..i] == a + b[..i - |a|];
        AfterConcat(m, a, b[..i - |a|]);
      }
    }
  }

  lemma {:induction false} JoinLast(parts: seq<string>, x: string, sep: string)
    requires parts != []
    ensures Join(parts + [x], sep) == Join(parts, sep) + sep + x
  {
    if |parts| > 1 {
      JoinLast(parts[1..], x, sep);
      assert (parts + [x])[1..] == parts[1..] + [x];
    }
  }

  lemma {:induction false} JoinExtended(parts: seq<string>, t: string, sep: string)
    requires parts != []
    ensures Join(ExtendLast(parts, t), sep) == Join(parts, sep) + t
  {
    if |parts| > 1 {
      JoinExtended(parts[1..], t, sep);
      assert ExtendLast(parts, t)[1..] == ExtendLast(parts[1..], t);
      assert ExtendLast(parts, t)[0] == parts[0];
      var head, tail := parts[0] + sep, Join(parts[1..], sep);
      assert head + (tail + t) == head + tail + t;
    }
  }

  /** Text without a separating comma goes to the last part. */
  lemma {:induction false} SplitExtended(s: string, t: string)
    requires NoFreeComma(After(START, s), t)
    ensures Split(s + t) == ExtendLast(Split(s), t)
  {
    hide Split, After, NoFreeComma, ExtendLast;
    if t == "" {
      assert s + t == s;
      ExtendNone(Split(s));
    } else {
      var rest, c := t[..|t| - 1], t[|t| - 1];
      NoFreePrefix(After(START, s), t);
      SplitExtended(s, rest);
      AfterConcat(START, s, rest);
      SplitOne(s + rest, c);
      assert s + t == s + rest + [c];
      ExtendTwice(Split(s), rest, [c]);
      assert rest + [c] == t;
    }
  }

  lemma NoFreePrefix(m: Mode, t: string)
    requires t != "" && NoFreeComma(m, t)
    ensures NoFreeComma(m, t[..|t| - 1]) && !Free(After(m, t[..|t| - 1]), t[|t| - 1])
  {
    var rest := t[..|t| - 1];
    forall i | 0 <= i < |rest| ensures !Free(After(m, rest[..i]), rest[i]) {
      assert rest[..i] == t[..i];
    }
  }

  lemma SplitOne(s: string, c: char)
    requires !Free(After(START, s), c)
    ensures Split(s + [c]) == ExtendLast(Split(s), [c])
  {
    assert (s + [c])[..|s|] == s;
  }

  lemma ExtendNone(parts: seq<string>)
    requires parts != []
    ensures ExtendLast(parts, "") == parts
  {
    assert parts[|parts| - 1] + "" == parts[|parts| - 1];
  }

  lemma ExtendTwice(parts: seq<string>, t: string, u: string)
    requires parts != []
    ensures ExtendLast(ExtendLast(parts, t), u) == ExtendLast(parts, t + u)
  {
    var x := parts[|parts| - 1];
    assert x + t + u == x + (t + u);
  }

  /** The last part is scanned from the start state, so its final state is that of the whole. */
  predicate SplitSoFar(raw: string, parts: seq<string>) {
    IsSplit(raw, parts) && After(START, raw) == After(START, parts[|parts| - 1])
  }

  lemma NoFreeOne(m: Mode, c: char)
    ensures NoFreeComma(m, [c]) <==> !Free(m, c)
  {
    assert [c][..0] == "";
    assert NoFreeComma(m, [c]) ==> !Free(After(m, [c][..0]), [c][0]);
  }

  lemma {:induction false} SplitIsSplit(raw: string)
    ensures SplitSoFar(raw, Split(raw))
  {
    if raw != "" {
      var rest, c := raw[..|raw| - 1], raw[|raw| - 1];
      SplitIsSplit(rest);
      assert raw == rest + [c];
      if Free(After(START, rest), c) {
        CutAt(rest, Split(rest));
      } else {
        GrowLast(rest, Split(rest), c);
      }
    }
  }

  lemma CutAt(raw: string, parts: seq<string>)
    requires SplitSoFar(raw, parts) && After(START, raw) == START
    ensures SplitSoFar(raw + [','], parts + [""])
  {
    JoinLast(parts, "", ",");
    assert (raw + [','])[..|raw|] == raw;
    assert raw + "," + "" == raw + [','];
  }

  lemma GrowLast(raw: string, parts: seq<string>, c: char)
    requires SplitSoFar(raw, parts) && !Free(After(START, raw), c)
    ensures SplitSoFar(raw + [c], ExtendLast(parts, [c]))
  {
    hide Join, After, NoFreeComma, ExtendLast;
    var last, grown := parts[|parts| - 1], ExtendLast(parts, [c]);
    JoinExtended(parts, [c], ",");
    GrowPart(last, c);
    AfterOne(START, raw, c);
    AfterOne(START, last, c);
    ExtendedAt(parts, [c]);
    forall k | 0 <= k < |grown|
      ensures NoFreeComma(START, grown[k]) && (k < |grown| - 1 ==> After(START, grown[k]) == START)
    {
      assert grown[k] == if k < |parts| - 1 then parts[k] else last + [c];
    }
  }

  lemma ExtendedAt(parts: seq<string>, t: string)
    requires parts != []
    ensures |ExtendLast(parts, t)| == |parts| && ExtendLast(parts, t)[|parts| - 1] == parts[|parts| - 1] + t
    ensures forall k :: 0 <= k < |parts| - 1 ==> ExtendLast(parts, t)[k] == parts[k]
  {}

  lemma GrowPart(last: string, c: char)
    requires NoFreeComma(START, last) && !Free(After(START, last), c)
    ensures NoFreeComma(START, last + [c])
  {
    NoFreeOne(After(START, last), c);
    NoFreeConcat(START, last, [c]);
  }

  lemma AfterOne(m: Mode, s: string, c: char)
    ensures After(m, s + [c]) == Step(After(m, s), c)
  {
    assert (s + [c])[..|s|] == s;
  }

  lemma {:induction false} ClosedJoin(parts: seq<string>)
    requires parts != [] && forall k :: 0 <= k < |parts| ==> After(START, parts[k]) == START
    ensures After(START, Join(parts, ",")) == START
  {
    if |parts| > 1 {
      ClosedJoin(parts[1..]);
      AfterConcat(START, parts[0], ",");
      assert (",")[..0] == "";
      AfterConcat(START, parts[0] + ",", Join(parts[1..], ","));
    }
  }

  lemma {:induction false} SplitOfJoin(parts: seq<string>)
    requires IsSplit(Join(parts, ","), parts)
    ensures Split(Join(parts, ",")) == parts
  {
    var init, x := parts[..|parts| - 1], parts[|parts| - 1];
    assert parts == init + [x];
    if init == [] {
      SplitSingle(x);
    } else {
      JoinLast(init, x, ",");
      ClosedJoin(init);
      hide Split, After, NoFreeComma, Join;
      SplitOfJoin(init);
      SplitAppend(Join(init, ","), x);
    }
  }

  lemma SplitSingle(x: string)
    requires NoFreeComma(START, x)
    ensures Split(x) == [x]
  {
    assert "" + x == x;
    SplitExtended("", x);
  }

  lemma SplitAppend(before: string, x: string)
    requires After(START, before) == START && NoFreeComma(START, x)
    ensures Split(before + "," + x) == Split(before) + [x]
  {
    AfterCut(before);
    SplitExtended(before + ",", x);
    assert "" + x == x;
  }

  lemma AfterCut(s: string)
    requires After(START, s) == START
    ensures After(START, s + ",") == START && Split(s + ",") == Split(s) + [""]
  {
    assert (s + ",")[..|s|] == s;
  }

  /**
   The parts are determined: joined with commas they give the text back, none has a comma outside quotes and
   escapes, all but the last close their quotes, and no other list of parts does all that.
   */
  lemma SplitCharacterised(raw: string, parts: seq<string>)
    ensures parts == Split(raw) <==> IsSplit(raw, parts)
  {
    SplitIsSplit(raw);
    if IsSplit(raw, parts) {
      SplitOfJoin(parts);
    }
  }

  // ---------- quoted values ----------

  function HexValue(c: char): Option<nat> {
    if '0' <= c <= '9' then Some((c - '0') as nat)
    else if 'a' <= c <= 'f' then Some((c - 'a') as nat + 10)
    else if 'A' <= c <= 'F' then Some((c - 'A') as nat + 10)
    else None
  }

  /** The number that a run of digits in base 8 or 16 stands for. */
  function Number(s: string, base: nat): Option<nat> {
    if s == "" then Some(0) else Shifted(Number(s[..|s| - 1], base), HexValue(s[|s| - 1]), base)
  }

  function Shifted(high: Option<nat>, digit: Option<nat>, base: nat): Option<nat> {
    if high.None? || digit.None? || digit.value >= base then None else Some(high.value * base + digit.value)
  }

  predicate IsScalar(v: nat) {
    v < 0xD800 || 0xDFFF < v <= 0x10FFFF
  }

  /** utf8.AppendRune; every element of the result is one byte. */
  function EncodeRune(v: nat): (s: string)
    requires IsScalar(v)
    ensures s != ""
  {
    if v < 0x80 then [v as char]
    else if v < 0x800 then [(0xC0 + v / 0x40) as char, (0x80 + v % 0x40) as char]
    else if v < 0x10000 then [(0xE0 + v / 0x1000) as char, (0x80 + v / 0x40 % 0x40) as char, (0x80 + v % 0x40) as char]
    else [(0xF0 + v / 0x40000) as char, (0x80 + v / 0x1000 % 0x40) as char, (0x80 + v / 0x40 % 0x40) as char,
          (0x80 + v % 0x40) as char]
  }

  predicate IsContinuation(c: char) {
    '\U{80}' <= c <= '\U{BF}'
  }

  /** The length of the well-formed UTF-8 sequence of several bytes that `s` starts with, 0 when there is none. */
  function RuneLength(s: string): (n: nat)
    ensures n <= |s|
  {
    if |s| < 2 || !IsContinuation(s[1]) then 0
    else if '\U{C2}' <= s[0] <= '\U{DF}' then 2
    else if |s| < 3 || !IsContinuation(s[2]) then 0
    else if '\U{E0}' <= s[0] <= '\U{EF}' then
      if (s[0] == '\U{E0}' && s[1] < '\U{A0}') || (s[0] == '\U{ED}' && s[1] > '\U{9F}') then 0 else 3
    else if |s| < 4 || !IsContinuation(s[3]) || !('\U{F0}' <= s[0] <= '\U{F4}') then 0
    else if (s[0] == '\U{F0}' && s[1] < '\U{90}') || (s[0] == '\U{F4}' && s[1] > '\U{8F}') then 0
    else 4
  }

  const REPLACEMENT: string := ['\U{EF}', '\U{BF}', '\U{BD}']

  /** What one character of a quoted text stands for, and how many bytes it takes. */
  datatype Unit = Unit(text: string, length: nat)

  function NumericEscape(s: string, digits: nat, base: nat, from: nat, limit: nat): Option<nat> {
    if |s| < from + digits then None
    else
      var v := Number(s[from..from + digits], base);
      if v.None? || v.value >= limit then None else v
  }

  function ByteUnit(v: Option<nat>, length: nat): (u: Option<Unit>)
    requires v.Some? ==> v.value < 256
    ensures u.Some? ==> u.value.length == length
  {
    if v.None? then None else Some(Unit([v.value as char], length))
  }

  function RuneUnit(v: Option<nat>, length: nat): (u: Option<Unit>)
    ensures u.Some? ==> u.value.length == length
  {
    if v.None? || !IsScalar(v.value) then None else Some(Unit(EncodeRune(v.value), length))
  }

  /** An escape sequence of strconv.UnquoteChar within double quotes. */
  function Escaped(s: string): (u: Option<Unit>)
    requires s != "" && s[0] == '\\'
    ensures u.Some? ==> 0 < u.value.length <= |s|
  {
    if |s| < 2 then None
    else
      match s[1]
      case 'a' => Some(Unit(['\U{7}'], 2))
      case 'b' => Some(Unit(['\U{8}'], 2))
      case 'f' => Some(Unit(['\U{C}'], 2))
      case 'n' => Some(Unit(['\n'], 2))
      case 'r' => Some(Unit(['\r'], 2))
      case 't' => Some(Unit(['\t'], 2))
      case 'v' => Some(Unit(['\U{B}'], 2))
      case '\\' => Some(Unit(['\\'], 2))
      case '"' => Some(Unit(['"'], 2))
      case 'x' => ByteUnit(NumericEscape(s, 2, 16, 2, 256), 4)
      case 'u' => RuneUnit(NumericEscape(s, 4, 16, 2, 0x110000), 6)
      case 'U' => RuneUnit(NumericEscape(s, 8, 16, 2, 0x110000), 10)
      case _ => if '0' <= s[1] <= '7' then ByteUnit(NumericEscape(s, 3, 8, 1, 256), 4) else None
  }

  /** strconv.UnquoteChar; bytes that are not UTF-8 become the replacement character. */
  function UnquoteChar(s: string): (u: Option<Unit>)
    requires s != ""
    ensures u.Some? ==> 0 < u.value.length <= |s|
  {
    if s[0] >= '\U{80}' then
      var n := RuneLength(s);
      Some(if n == 0 then Unit(REPLACEMENT, 1) else Unit(s[..n], n))
    else if s[0] == '\\' then Escaped(s)
    else Some(Unit([s[0]], 1))
  }

  /** What follows the opening quote: characters up to a closing quote that ends the text. */
  function UnquoteRest(s: string): Option<string>
    decreases |s|
  {
    if s == "" || s[0] == '\n' then None
    else if s[0] == '"' then (if |s| == 1 then Some("") else None)
    else
      var u := UnquoteChar(s);
      if u.None? then None else Prefixed(u.value.text, UnquoteRest(s[u.value.length..]))
  }

  function Prefixed(text: string, rest: Option<string>): Option<string> {
    if rest.None? then None else Some(text + rest.value)
  }

  /** strconv.Unquote of a text that starts with a double quote. */
  function Unquote(s: string): Option<string>
    requires s != "" && s[0] == '"'
  {
    UnquoteRest(s[1..])
  }

  // ---------- parsing ----------

  datatype Fault = MissingHeader | InvalidHeader | InvalidQuoting | MissingSignature

  datatype Parsed = Params(values: map<string, string>) | Rejected(fault: Fault)

  datatype Parameter = Blank | Entry(key: string, value: string) | Malformed(fault: Fault)

  /** One part between commas. */
  function ParsePart(raw: string): Parameter {
    var part := Trim(raw);
    if part == "" then Blank
    else
      var separator := IndexOf(part, '=');
      if separator == |part| || separator == 0 then Malformed(InvalidHeader)
      else Assignment(Trim(part[..separator]), Trim(part[separator + 1..]))
  }

  function Assignment(key: string, value: string): Parameter {
    if key == "" || value == "" then Malformed(InvalidHeader)
    else if value[0] == '"' then
      var decoded := Unquote(value);
      if decoded.None? then Malformed(InvalidQuoting) else Entry(key, decoded.value)
    else Entry(key, value)
  }

  /** The parameters in order, a later one replacing an earlier one of the same key. */
  function Collect(parts: seq<string>): Parsed {
    if parts == [] then Params(map[])
    else
      var before := Collect(parts[..|parts| - 1]);
      if before.Rejected? then before else WithPart(before.values, ParsePart(parts[|parts| - 1]))
  }

  function WithPart(values: map<string, string>, p: Parameter): Parsed {
    match p
    case Blank => Params(values)
    case Entry(key, value) => Params(values[key := value])
    case Malformed(fault) => Rejected(fault)
  }

  function ParseHeader(raw: string): Parsed {
    if IsBlank(raw) then Rejected(MissingHeader)
    else
      var r := Collect(Split(Trim(raw)));
      if r.Params? && "signature" !in r.values then Rejected(MissingSignature) else r
  }

  lemma {:induction false} RejectionStays(parts: seq<string>, i: nat)
    requires i <= |parts| && Collect(parts[..i]).Rejected?
    ensures Collect(parts) == Collect(parts[..i])
    decreases |parts| - i
  {
    if i < |parts| {
      assert parts[..i + 1][..i] == parts[..i];
      RejectionStays(parts, i + 1);
    } else {
      assert parts[..i] == parts;
    }
  }

  /** `parseSignatureHeader` */
  method ParseSignatureHeader(header: string) returns (r: Parsed)
    ensures r == ParseHeader(header)
  {
    var raw := Trim(header);
    if raw == "" {
      return Rejected(MissingHeader);
    }
    var parts := SplitSignatureParameters(raw);
    if |parts| == 0 {
      return Rejected(InvalidHeader);
    }
    var params: map<string, string> := map[];
    var i := 0;
    while i < |parts|
      invariant 0 <= i <= |parts| && Collect(parts[..i]) == Params(params)
    {
      hide *;
      CollectNext(parts, i, params);
      var fault, entry := ParseParameter(parts[i]);
      if fault.Some? {
        RejectionStays(parts, i + 1);
        return Rejected(fault.value);
      }
      if entry.Some? {
        params := params[entry.value.0 := entry.value.1];
      }
      i := i + 1;
    }
    assert parts[..i] == parts;
    if "signature" !in params {
      return Rejected(MissingSignature);
    }
    return Params(params);
  }

  lemma CollectNext(parts: seq<string>, i: nat, params: map<string, string>)
    requires i < |parts| && Collect(parts[..i]) == Params(params)
    ensures Collect(parts[..i + 1]) == match ParsePart(parts[i])
      case Blank => Params(params)
      case Entry(key, value) => Params(params[key := value])
      case Malformed(fault) => Rejected(fault)
  {
    hide ParsePart;
    assert parts[..i + 1][..i] == parts[..i];
  }

  /** One turn of the loop: nothing for a blank part, else a key with its value, or a fault. */
  method ParseParameter(raw: string) returns (fault: Option<Fault>, entry: Option<(string, string)>)
    ensures ParsePart(raw) ==
      if fault.Some? then Malformed(fault.value) else if entry.Some? then Entry(entry.value.0, entry.value.1) else Blank
  {
    fault, entry := None, None;
    var part := Trim(raw);
    if part == "" {
      return;
    }
    var separator := IndexOf(part, '=');
    if separator == |part| || separator == 0 {
      return Some(InvalidHeader), None;
    }
    var key := Trim(part[..separator]);
    var value := Trim(part[separator + 1..]);
    if key == "" || value == "" {
      return Some(InvalidHeader), None;
    }
    if value[0] == '"' {
      var decoded := Unquote(value);
      if decoded.None? {
        return Some(InvalidQuoting), None;
      }
      value := decoded.value;
    }
    return None, Some((key, value));
  }

  // ---------- printing ----------

  function HexDigit(n: nat): char
    requires n < 16
  {
    if n < 10 then '0' + n as char else 'a' + (n - 10) as char
  }

  function EscapeChar(c: char): (s: string)
    requires c < '\U{100}'
    ensures s != ""
  {
    if c == '"' || c == '\\' then ['\\', c]
    else if c == '\n' then ['\\', 'n']
    else if c < '\U{80}' then [c]
    else ['\\', 'x', HexDigit(c as nat / 16), HexDigit(c as nat % 16)]
  }

  predicate Bytes(s: string) {
    forall i :: 0 <= i < |s| ==> s[i] < '\U{100}'
  }

  function Escape(v: string): string
    requires Bytes(v)
  {
    if v == "" then "" else EscapeChar(v[0]) + Escape(v[1..])
  }

  /** A key that can be printed: it has no character with a meaning in the header and no white space around it. */
  predicate PlainKey(key: string) {
    && key != "" && SpacePrefix(key) == 0 && SpaceSuffix(key) == 0
    && (forall i :: 0 <= i < |key| ==> key[i] != '=' && key[i] != ',' && key[i] != '"' && key[i] != '\\')
  }

  predicate Printable(p: (string, string)) {
    PlainKey(p.0) && Bytes(p.1)
  }

  predicate AllPrintable(ps: seq<(string, string)>) {
    forall i :: 0 <= i < |ps| ==> Printable(ps[i])
  }

  function PrintPart(p: (string, string)): string
    requires Printable(p)
  {
    p.0 + "=\"" + Escape(p.1) + "\""
  }

  function PrintParts(ps: seq<(string, string)>): (parts: seq<string>)
    requires AllPrintable(ps)
    ensures |parts| == |ps| && forall i :: 0 <= i < |ps| ==> parts[i] == PrintPart(ps[i])
  {
    if ps == [] then [] else PrintParts(ps[..|ps| - 1]) + [PrintPart(ps[|ps| - 1])]
  }

  function Print(ps: seq<(string, string)>): string
    requires AllPrintable(ps)
  {
    Join(PrintParts(ps), ",")
  }

  /** The pairs as a map, the last one of a key prevailing. */
  function AsMap(ps: seq<(string, string)>): map<string, string> {
    if ps == [] then map[] else AsMap(ps[..|ps| - 1])[ps[|ps| - 1].0 := ps[|ps| - 1].1]
  }

  // ---------- the round trip ----------

  const QUOTED: Mode := Mode(true, false)

  lemma OneAfter(m: Mode, c: char)
    ensures After(m, [c]) == Step(m, c)
  {
    assert [c][..0] == "";
  }

  /** An escaped pair of bytes within quotes. */
  lemma EscapedPair(c: char)
    ensures After(QUOTED, ['\\', c]) == QUOTED && NoFreeComma(QUOTED, ['\\', c])
  {
    assert ['\\', c] == ['\\'] + [c];
    AfterConcat(QUOTED, ['\\'], [c]);
    OneAfter(QUOTED, '\\');
    OneAfter(Step(QUOTED, '\\'), c);
    NoFreeOne(QUOTED, '\\');
    NoFreeOne(Step(QUOTED, '\\'), c);
    NoFreeConcat(QUOTED, ['\\'], [c]);
  }

  lemma QuotedPlain(c: char)
    requires c != '"' && c != '\\'
    ensures After(QUOTED, [c]) == QUOTED && NoFreeComma(QUOTED, [c])
  {
    OneAfter(QUOTED, c);
    NoFreeOne(QUOTED, c);
  }

  lemma QuotedConcat(a: string, b: string)
    requires After(QUOTED, a) == QUOTED && NoFreeComma(QUOTED, a)
    requires After(QUOTED, b) == QUOTED && NoFreeComma(QUOTED, b)
    ensures After(QUOTED, a + b) == QUOTED && NoFreeComma(QUOTED, a + b)
  {
    AfterConcat(QUOTED, a, b);
    NoFreeConcat(QUOTED, a, b);
  }

  lemma EscapeCharQuoted(c: char)
    requires c < '\U{100}'
    ensures After(QUOTED, EscapeChar(c)) == QUOTED && NoFreeComma(QUOTED, EscapeChar(c))
  {
    hide After, NoFreeComma;
    if c == '"' || c == '\\' {
      EscapedPair(c);
    } else if c == '\n' {
      EscapedPair('n');
    } else if c < '\U{80}' {
      QuotedPlain(c);
    } else {
      var h, l := HexDigit(c as nat / 16), HexDigit(c as nat % 16);
      EscapedPair('x');
      QuotedPlain(h);
      QuotedPlain(l);
      QuotedConcat(['\\', 'x'], [h]);
      QuotedConcat(['\\', 'x'] + [h], [l]);
      assert ['\\', 'x'] + [h] + [l] == EscapeChar(c);
    }
  }

  /** Escaped text stays within the quotes around it. */
  lemma {:induction false} EscapeQuoted(v: string)
    requires Bytes(v)
    ensures After(QUOTED, Escape(v)) == QUOTED && NoFreeComma(QUOTED, Escape(v))
  {
    if v != "" {
      hide After, NoFreeComma;
      EscapeCharQuoted(v[0]);
      EscapeQuoted(v[1..]);
      QuotedConcat(EscapeChar(v[0]), Escape(v[1..]));
    }
  }

  lemma {:induction false} KeyScans(key: string)
    requires forall i :: 0 <= i < |key| ==> key[i] != ',' && key[i] != '"' && key[i] != '\\'
    ensures After(START, key) == START && NoFreeComma(START, key)
  {
    if key != "" {
      var rest, c := key[..|key| - 1], key[|key| - 1];
      KeyScans(rest);
      NoFreeOne(START, c);
      NoFreeConcat(START, rest, [c]);
      assert key == rest + [c];
    }
  }

  lemma PartScans(p: (string, string))
    requires Printable(p)
    ensures After(START, PrintPart(p)) == START && NoFreeComma(START, PrintPart(p))
  {
    hide Escape, After, NoFreeComma, Bytes;
    var open, body, close := p.0 + ['='], Escape(p.1), ['"'];
    KeyScans(p.0 + ['=']);
    OneAfter(START, '"');
    NoFreeOne(START, '"');
    AfterConcat(START, open, ['"']);
    NoFreeConcat(START, open, ['"']);
    EscapeQuoted(p.1);
    AfterConcat(START, open + ['"'], body);
    NoFreeConcat(START, open + ['"'], body);
    OneAfter(QUOTED, '"');
    NoFreeOne(QUOTED, '"');
    AfterConcat(START, open + ['"'] + body, close);
    NoFreeConcat(START, open + ['"'] + body, close);
    assert open + ['"'] + body + close == PrintPart(p);
  }

  lemma HexByte(c: char)
    requires '\U{80}' <= c < '\U{100}'
    ensures Number([HexDigit(c as nat / 16), HexDigit(c as nat % 16)], 16) == Some(c as nat)
  {
    var h, l := HexDigit(c as nat / 16), HexDigit(c as nat % 16);
    assert [h, l][..1] == [h] && [h][..0] == "";
    assert HexValue(h) == Some(c as nat / 16) && HexValue(l) == Some(c as nat % 16);
    assert Number([h], 16) == Shifted(Number("", 16), HexValue(h), 16);
    assert Number([h, l], 16) == Shifted(Number([h], 16), HexValue(l), 16);
  }

  lemma UnquoteEscapedChar(c: char, rest: string)
    requires c < '\U{100}'
    ensures UnquoteChar(EscapeChar(c) + rest) == Some(Unit([c], |EscapeChar(c)|))
    ensures (EscapeChar(c) + rest)[0] != '"' && (EscapeChar(c) + rest)[0] != '\n'
  {
    var s := EscapeChar(c) + rest;
    if c >= '\U{80}' {
      HexByte(c);
      assert s[2..4] == [HexDigit(c as nat / 16), HexDigit(c as nat % 16)];
    }
  }

  lemma {:induction false} UnquoteEscaped(v: string)
    requires Bytes(v)
    ensures UnquoteRest(Escape(v) + "\"") == Some(v)
  {
    hide EscapeChar, UnquoteChar;
    if v != "" {
      var c, rest := v[0], Escape(v[1..]) + "\"";
      UnquoteEscapedChar(c, rest);
      UnquoteEscaped(v[1..]);
      assert Escape(v) + "\"" == EscapeChar(c) + rest;
      assert (EscapeChar(c) + rest)[|EscapeChar(c)|..] == rest;
      assert [c] + v[1..] == v;
    }
  }

  /**
   A text that starts with a plain key, an equals sign after it, and ends with a quote has no white space around it.
   */
  lemma KeyedIsTrimmed(key: string, rest: string)
    requires PlainKey(key) && rest != "" && rest[|rest| - 1] == '"'
    ensures Trim(key + "=" + rest) == key + "=" + rest
  {
    var s := key + "=" + rest;
    assert s[0] == key[0];
    assert |key| >= 2 ==> s[1] == key[1];
    assert |key| >= 3 ==> s[2] == key[2];
    assert SpacePrefix(s) == 0 && SpaceSuffix(s) == 0;
  }

  lemma ParsesPrinted(p: (string, string))
    requires Printable(p)
    ensures ParsePart(PrintPart(p)) == Entry(p.0, p.1)
  {
    hide Trim, Escape, UnquoteRest, IndexOf;
    var quoted := "\"" + Escape(p.1) + "\"";
    var part := PrintPart(p);
    assert part == p.0 + "=" + quoted == p.0 + ['='] + quoted;
    KeyedIsTrimmed(p.0, quoted);
    IndexOfIs(p.0, '=', quoted);
    assert part[..|p.0|] == p.0 && part[|p.0| + 1..] == quoted;
    AlreadyTrimmed(p.0);
    AlreadyTrimmed(quoted);
    assert quoted[1..] == Escape(p.1) + "\"";
    UnquoteEscaped(p.1);
  }

  lemma {:induction false} CollectsPrinted(ps: seq<(string, string)>)
    requires AllPrintable(ps)
    ensures Collect(PrintParts(ps)) == Params(AsMap(ps))
  {
    if ps != [] {
      hide ParsePart, PrintPart, Printable;
      var rest, p := ps[..|ps| - 1], ps[|ps| - 1];
      CollectsPrinted(rest);
      ParsesPrinted(p);
      assert PrintParts(ps)[..|rest|] == PrintParts(rest);
    }
  }

  lemma {:induction false} JoinedIsKeyed(ps: seq<(string, string)>) returns (rest: string)
    requires ps != [] && AllPrintable(ps)
    ensures Print(ps) == ps[0].0 + "=" + rest && rest != "" && rest[|rest| - 1] == '"'
  {
    hide Escape, PlainKey;
    var init, p := ps[..|ps| - 1], ps[|ps| - 1];
    if init == [] {
      rest := "\"" + Escape(p.1) + "\"";
      assert PrintParts(ps) == [PrintPart(p)];
    } else {
      var before := JoinedIsKeyed(init);
      rest := before + "," + PrintPart(p);
      JoinLast(PrintParts(init), PrintPart(p), ",");
      assert PrintParts(ps) == PrintParts(init) + [PrintPart(p)];
    }
  }

  /**
   The round trip: a printed list of parameters is read back as the map of its pairs, whatever bytes the values
   contain; only the `signature` parameter must be among them.
   */
  lemma HeaderRoundTrip(ps: seq<(string, string)>)
    requires ps != [] && AllPrintable(ps)
    ensures ParseHeader(Print(ps)) == if "signature" in AsMap(ps) then Params(AsMap(ps)) else Rejected(MissingSignature)
  {
    hide Printable, PrintPart, IsSplit, Collect, Split;
    var rest := JoinedIsKeyed(ps);
    assert Printable(ps[0]);
    FirstKeyPlain(ps[0]);
    KeyedIsTrimmed(ps[0].0, rest);
    PrintedSplits(ps);
    SplitOfJoin(PrintParts(ps));
    CollectsPrinted(ps);
  }

  lemma FirstKeyPlain(p: (string, string))
    requires Printable(p)
    ensures PlainKey(p.0)
  {}

  lemma PrintedSplits(ps: seq<(string, string)>)
    requires ps != [] && AllPrintable(ps)
    ensures IsSplit(Print(ps), PrintParts(ps))
  {
    hide Printable, PrintPart, After, NoFreeComma;
    forall k | 0 <= k < |ps|
      ensures NoFreeComma(START, PrintParts(ps)[k]) && After(START, PrintParts(ps)[k]) == START
    {
      PartScans(ps[k]);
    }
  }

  /** With distinct keys the map holds exactly the pairs. */
  lemma {:induction false} DistinctMap(ps: seq<(string, string)>)
    requires forall i, j :: 0 <= i < j < |ps| ==> ps[i].0 != ps[j].0
    ensures forall p :: p in ps ==> p.0 in AsMap(ps) && AsMap(ps)[p.0] == p.1
    ensures forall k :: k in AsMap(ps) ==> (k, AsMap(ps)[k]) in ps
  {
    if ps != [] {
      var rest, last := ps[..|ps| - 1], ps[|ps| - 1];
      DistinctMap(rest);
      assert ps == rest + [last];
      forall p | p in rest ensures p.0 != last.0 {
        var i :| 0 <= i < |rest| && rest[i] == p;
        assert ps[i].0 != ps[|ps| - 1].0;
      }
      Updated(AsMap(rest), rest, last);
    }
  }

  lemma Updated(m: map<string, string>, rest: seq<(string, string)>, last: (string, string))
    requires forall p :: p in rest ==> p.0 in m && m[p.0] == p.1 && p.0 != last.0
    requires forall k :: k in m ==> (k, m[k]) in rest
    ensures
      var n := m[last.0 := last.1];
      && (forall p :: p in rest + [last] ==> p.0 in n && n[p.0] == p.1)
      && (forall k :: k in n ==> (k, n[k]) in rest + [last])
  {}
}
