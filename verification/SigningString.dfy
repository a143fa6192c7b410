/**
 The text that a holder-of-key signature covers: one line per signed header, with the method and the path as the
 value of `(request-target)` and white space in header values made uniform.
 */
module SigningString {
  import opened Text

  // ---------- words ----------

  /** The number of bytes before the first white space. */
  function WordLength(s: string): (n: nat)
    ensures n <= |s|
  {
    if s == "" || SpacePrefix(s) > 0 then 0 else 1 + WordLength(s[1..])
  }

  /** strings.Fields */
  function Fields(s: string): seq<string>
    decreases |s|
  {
    if s == "" then []
    else if SpacePrefix(s) > 0 then Fields(s[SpacePrefix(s)..])
    else [s[..WordLength(s)]] + Fields(s[WordLength(s)..])
  }

  function NormalizeHeaderValue(value: string): string {
    Join(Fields(value), " ")
  }

  /** Not empty and without white space. */
  predicate IsWord(w: string) {
    w != "" && WordLength(w) == |w|
  }

  /** A byte that is not part of a longer white-space rune ends a word where it stood. */
  lemma {:induction false} WordBefore(w: string, rest: string)
    requires WordLength(w) == |w| && (rest == "" || rest[0] == ' ')
    ensures WordLength(w + rest) == |w|
  {
    if w == "" {
      assert w + rest == rest;
    } else {
      WordBefore(w[1..], rest);
      assert (w + rest)[1..] == w[1..] + rest;
      assert SpacePrefix(w + rest) == 0;
    }
  }

  lemma {:induction false} PrefixIsWord(s: string)
    ensures WordLength(s[..WordLength(s)]) == WordLength(s)
  {
    if s != "" && SpacePrefix(s) == 0 {
      var w := s[..WordLength(s)];
      PrefixIsWord(s[1..]);
      assert w[1..] == s[1..][..WordLength(s[1..])];
      assert SpacePrefix(w) == 0;
    }
  }

  lemma {:induction false} FieldsAreWords(s: string)
    ensures forall k :: 0 <= k < |Fields(s)| ==> IsWord(Fields(s)[k])
    decreases |s|
  {
    if s != "" {
      if SpacePrefix(s) > 0 {
        FieldsAreWords(s[SpacePrefix(s)..]);
      } else {
        PrefixIsWord(s);
        FieldsAreWords(s[WordLength(s)..]);
      }
    }
  }

  lemma {:induction false} FieldsOfJoin(ws: seq<string>)
    requires forall k :: 0 <= k < |ws| ==> IsWord(ws[k])
    ensures Fields(Join(ws, " ")) == ws
  {
    hide WordLength, Fields;
    if ws == [] {
      NoFields();
    } else {
      var w, tail := ws[0], if |ws| == 1 then "" else " " + Join(ws[1..], " ");
      assert Join(ws, " ") == w + tail;
      assert IsWord(w);
      WordBefore(w, tail);
      FieldsOfJoin(ws[1..]);
      FirstField(w, tail);
      NoFields();
      if |ws| > 1 {
        SpaceSkipped(Join(ws[1..], " "));
      }
      assert ws == [w] + ws[1..];
    }
  }

  lemma NoFields()
    ensures Fields("") == []
  {}

  lemma FirstField(w: string, tail: string)
    requires IsWord(w) && WordLength(w + tail) == |w|
    ensures Fields(w + tail) == [w] + Fields(tail)
  {
    assert (w + tail)[..|w|] == w && (w + tail)[|w|..] == tail;
  }

  lemma SpaceSkipped(s: string)
    ensures Fields(" " + s) == Fields(s)
  {
    assert (" " + s)[1..] == s;
  }

  /** Normalising keeps the words: two values have the same normal form exactly when they have the same words. */
  lemma NormalFormKeepsWords(a: string, b: string)
    ensures Fields(NormalizeHeaderValue(a)) == Fields(a)
    ensures NormalizeHeaderValue(a) == NormalizeHeaderValue(b) <==> Fields(a) == Fields(b)
  {
    FieldsAreWords(a);
    FieldsAreWords(b);
    FieldsOfJoin(Fields(a));
    FieldsOfJoin(Fields(b));
  }

  lemma {:induction false} WordHasNoNewline(w: string)
    requires WordLength(w) == |w|
    ensures '\n' !in w
  {
    if w != "" {
      WordHasNoNewline(w[1..]);
      assert w == [w[0]] + w[1..];
    }
  }

  lemma {:induction false} JoinHasNoNewline(ws: seq<string>)
    requires forall k :: 0 <= k < |ws| ==> '\n' !in ws[k]
    ensures '\n' !in Join(ws, " ")
  {
    if |ws| > 1 {
      JoinHasNoNewline(ws[1..]);
    }
  }

  lemma NormalFormIsOneLine(value: string)
    ensures '\n' !in NormalizeHeaderValue(value)
  {
    FieldsAreWords(value);
    forall k | 0 <= k < |Fields(value)| ensures '\n' !in Fields(value)[k] {
      WordHasNoNewline(Fields(value)[k]);
    }
    JoinHasNoNewline(Fields(value));
  }

  // ---------- the signing string ----------

  /** What is signed: the request and its headers in the order in which they are looked through. */
  datatype Incoming = Incoming(method_: string, path: string, host: string, headers: seq<(string, string)>)

  datatype Signing = Signed(text: string) | MissingMethod | MissingHeader(name: string) | NoHeaders

  const REQUEST_TARGET := "(request-target)"

  function SignedMethod(r: Incoming): string {
    Trim(Lower(r.method_))
  }

  function SignedPath(r: Incoming): string {
    if Trim(r.path) == "" then "/" else Trim(r.path)
  }

  /** `getHeaderValueCaseInsensitive` */
  function HeaderValue(headers: seq<(string, string)>, name: string): Option<string> {
    if headers == [] then None
    else if EqualFold(headers[0].0, name) then Some(headers[0].1)
    else HeaderValue(headers[1..], name)
  }

  function NameOf(raw: string): string {
    Lower(Trim(raw))
  }

  /** The value that a signed header contributes; a missing `host` header falls back to the host of the request. */
  function EffectiveValue(r: Incoming, header: string): Option<string> {
    if header == REQUEST_TARGET then Some(SignedMethod(r) + " " + SignedPath(r))
    else
      var found := HeaderValue(r.headers, header);
      if found.Some? && !IsBlank(found.value) then Some(NormalizeHeaderValue(found.value))
      else if header == "host" && Trim(r.host) != "" then Some(Trim(r.host))
      else None
  }

  datatype Lines = Lines(lines: seq<string>) | Missing(name: string)

  function Collected(r: Incoming, headerList: seq<string>): Lines {
    if headerList == [] then Lines([])
    else
      var before, header := Collected(r, headerList[..|headerList| - 1]), NameOf(headerList[|headerList| - 1]);
      if before.Missing? || header == "" then before
      else if EffectiveValue(r, header).None? then Missing(header)
      else Lines(before.lines + [header + ": " + EffectiveValue(r, header).value])
  }

  function SigningText(r: Incoming, headerList: seq<string>): Signing {
    if SignedMethod(r) == "" then MissingMethod
    else
      var collected := Collected(r, headerList);
      if collected.Missing? then MissingHeader(collected.name)
      else if collected.lines == [] then NoHeaders
      else Signed(Join(collected.lines, "\n"))
  }

  lemma {:induction false} MissingStays(r: Incoming, headerList: seq<string>, i: nat)
    requires i <= |headerList| && Collected(r, headerList[..i]).Missing?
    ensures Collected(r, headerList) == Collected(r, headerList[..i])
    decreases |headerList| - i
  {
    if i < |headerList| {
      assert headerList[..i + 1][..i] == headerList[..i];
      MissingStays(r, headerList, i + 1);
    } else {
      assert headerList[..i] == headerList;
    }
  }

  /** `buildHoKSigningString` */
  method BuildSigningString(r: Incoming, headerList: seq<string>) returns (s: Signing)
    ensures s == SigningText(r, headerList)
  {
    hide EffectiveValue, NameOf, Trim;
    var m := Trim(Lower(r.method_));
    if m == "" {
      return MissingMethod;
    }
    var lines: seq<string> := [];
    var i := 0;
    while i < |headerList|
      invariant 0 <= i <= |headerList| && Collected(r, headerList[..i]) == Lines(lines)
    {
      assert headerList[..i + 1][..i] == headerList[..i];
      var header := NameOf(headerList[i]);
      if header != "" {
        var value := LineValue(r, header);
        if value.None? {
          MissingStays(r, headerList, i + 1);
          return MissingHeader(header);
        }
        lines := lines + [header + ": " + value.value];
      }
      i := i + 1;
    }
    assert headerList[..i] == headerList;
    if |lines| == 0 {
      return NoHeaders;
    }
    return Signed(Join(lines, "\n"));
  }

  /** The value for one line. */
  method LineValue(r: Incoming, header: string) returns (value: Option<string>)
    ensures value == EffectiveValue(r, header)
  {
    if header == REQUEST_TARGET {
      var path := Trim(r.path);
      if path == "" {
        path := "/";
      }
      return Some(Trim(Lower(r.method_)) + " " + path);
    }
    var i := 0;
    while i < |r.headers| && !EqualFold(r.headers[i].0, header)
      invariant 0 <= i <= |r.headers| && HeaderValue(r.headers, header) == HeaderValue(r.headers[i..], header)
    {
      assert r.headers[i..][1..] == r.headers[i + 1..];
      i := i + 1;
    }
    if i == |r.headers| || Trim(r.headers[i].1) == "" {
      if header == "host" && Trim(r.host) != "" {
        return Some(Trim(r.host));
      }
      return None;
    }
    return Some(NormalizeHeaderValue(r.headers[i].1));
  }

  // ---------- injectivity ----------

  /** The header names that a list signs. */
  function SignedNames(headerList: seq<string>): seq<string> {
    if headerList == [] then []
    else
      var before, header := SignedNames(headerList[..|headerList| - 1]), NameOf(headerList[|headerList| - 1]);
      if header == "" then before else before + [header]
  }

  ghost predicate HasValues(r: Incoming, names: seq<string>, lines: seq<string>) {
    && |lines| == |names|
    && forall k :: 0 <= k < |names| ==>
         EffectiveValue(r, names[k]).Some? && lines[k] == names[k] + ": " + EffectiveValue(r, names[k]).value
  }

  lemma {:induction false} CollectedValues(r: Incoming, headerList: seq<string>)
    ensures Collected(r, headerList).Lines? ==> HasValues(r, SignedNames(headerList), Collected(r, headerList).lines)
  {
    if headerList != [] {
      hide EffectiveValue, NameOf;
      CollectedValues(r, headerList[..|headerList| - 1]);
    }
  }

  lemma {:induction false} AgreementCollects(r: Incoming, q: Incoming, headerList: seq<string>)
    requires forall k :: 0 <= k < |SignedNames(headerList)| ==>
      EffectiveValue(r, SignedNames(headerList)[k]) == EffectiveValue(q, SignedNames(headerList)[k])
    ensures Collected(r, headerList) == Collected(q, headerList)
  {
    if headerList != [] {
      hide EffectiveValue, NameOf;
      var rest := headerList[..|headerList| - 1];
      assert forall k :: 0 <= k < |SignedNames(rest)| ==> SignedNames(headerList)[k] == SignedNames(rest)[k];
      AgreementCollects(r, q, rest);
      var names := SignedNames(headerList);
      assert NameOf(headerList[|headerList| - 1]) != "" ==> names[|names| - 1] == NameOf(headerList[|headerList| - 1]);
    }
  }

  // ---------- line breaks ----------

  /** The number of line breaks of a text. */
  function Breaks(s: string): nat {
    if s == "" then 0 else (if s[0] == '\n' then 1 else 0) + Breaks(s[1..])
  }

  lemma {:induction false} BreaksConcat(s: string, t: string)
    ensures Breaks(s + t) == Breaks(s) + Breaks(t)
  {
    if s == "" {
      assert s + t == t;
    } else {
      assert (s + t)[1..] == s[1..] + t;
      BreaksConcat(s[1..], t);
    }
  }

  lemma {:induction false} NoBreaks(s: string)
    ensures Breaks(s) == 0 <==> '\n' !in s
  {
    if s != "" {
      NoBreaks(s[1..]);
      assert s == [s[0]] + s[1..];
    }
  }

  function TotalBreaks(vs: seq<string>): nat {
    if vs == [] then 0 else Breaks(vs[0]) + TotalBreaks(vs[1..])
  }

  lemma {:induction false} TotalOrder(v: seq<string>, w: seq<string>)
    requires |v| == |w| && forall k :: 0 <= k < |v| ==> Breaks(v[k]) <= Breaks(w[k])
    ensures TotalBreaks(v) <= TotalBreaks(w)
    ensures (exists k :: 0 <= k < |v| && Breaks(v[k]) < Breaks(w[k])) ==> TotalBreaks(v) < TotalBreaks(w)
  {
    if v != [] {
      TotalOrder(v[1..], w[1..]);
      if i :| 0 < i < |v| && Breaks(v[i]) < Breaks(w[i]) {
        assert v[1..][i - 1] == v[i] && w[1..][i - 1] == w[i];
      }
    }
  }

  /** Joined lines have the breaks of their beginnings and their rests, and one between two lines. */
  lemma {:induction false} BreaksOfLines(starts: seq<string>, a: seq<string>, v: seq<string>)
    requires |starts| == |a| == |v| && forall k :: 0 <= k < |starts| ==> a[k] == starts[k] + v[k]
    ensures Breaks(Join(a, "\n")) == TotalBreaks(starts) + TotalBreaks(v) + if a == [] then 0 else |a| - 1
  {
    if a != [] {
      BreaksConcat(starts[0], v[0]);
      if |a| > 1 {
        BreaksOfLines(starts[1..], a[1..], v[1..]);
        BreaksConcat(a[0], "\n");
        BreaksConcat(a[0] + "\n", Join(a[1..], "\n"));
        assert Breaks("\n") == 1 + Breaks("\n"[1..]);
      }
    }
  }

  /** Two texts that agree up to a line break are cut at the same one if as many come before it. */
  lemma CutDetermined(a: string, b: string, s: string, t: string)
    requires Breaks(a) == Breaks(b)
    requires a + "\n" + s == b + "\n" + t
    ensures a == b && s == t
  {
    if |a| < |b| {
      ShorterCut(a, b, s, t);
    } else if |b| < |a| {
      ShorterCut(b, a, t, s);
    }
    var x := a + "\n" + s;
    assert |a| == |b|;
    assert x[..|a|] == a && x[..|b|] == b && x[|a| + 1..] == s && x[|b| + 1..] == t;
  }

  lemma ShorterCut(a: string, b: string, s: string, t: string)
    requires a + "\n" + s == b + "\n" + t && |a| < |b|
    ensures Breaks(a) < Breaks(b)
  {
    var x := a + "\n" + s;
    var rest := b[|a| + 1..];
    assert x[..|b|] == b && x[..|a|] == a && x[|a|] == '\n';
    assert b == a + "\n" + rest;
    BreaksConcat(a, "\n");
    BreaksConcat(a + "\n", rest);
    assert Breaks("\n") == 1 + Breaks("\n"[1..]);
  }

  /** Lines with the same beginnings and as many breaks in their rests are determined by the joined text. */
  lemma {:induction false} LinesDetermined(
    starts: seq<string>, a: seq<string>, b: seq<string>, v: seq<string>, w: seq<string>)
    requires |starts| == |a| == |b| == |v| == |w|
    requires forall k :: 0 <= k < |starts| ==> a[k] == starts[k] + v[k] && b[k] == starts[k] + w[k]
    requires forall k :: 0 <= k < |starts| ==> Breaks(v[k]) == Breaks(w[k])
    requires Join(a, "\n") == Join(b, "\n")
    ensures v == w
  {
    hide Breaks;
    if |starts| == 1 {
      CommonPrefix(starts[0], v[0], w[0]);
    } else if |starts| > 1 {
      var s, t := Join(a[1..], "\n"), Join(b[1..], "\n");
      FirstOfLines(starts[0], v[0], w[0], s, t);
      LinesDetermined(starts[1..], a[1..], b[1..], v[1..], w[1..]);
      assert v == [v[0]] + v[1..] && w == [w[0]] + w[1..];
    }
  }

  lemma FirstOfLines(start: string, v: string, w: string, s: string, t: string)
    requires Breaks(v) == Breaks(w) && (start + v) + "\n" + s == (start + w) + "\n" + t
    ensures v == w && s == t
  {
    hide Breaks;
    assert (start + v) + "\n" + s == start + (v + "\n" + s);
    assert (start + w) + "\n" + t == start + (w + "\n" + t);
    CommonPrefix(start, v + "\n" + s, w + "\n" + t);
    CutDetermined(v, w, s, t);
  }

  /**
   When only the lines of one name can have breaks, and all of them have the same value, the total fixes the
   number in each.
   */
  lemma BreaksDetermined(names: seq<string>, free: string, v: seq<string>, w: seq<string>)
    requires |names| == |v| == |w| && TotalBreaks(v) == TotalBreaks(w)
    requires forall k :: 0 <= k < |names| && names[k] != free ==> Breaks(v[k]) == Breaks(w[k]) == 0
    requires forall i, k :: 0 <= i < |names| && 0 <= k < |names| && names[i] == names[k] ==>
      v[i] == v[k] && w[i] == w[k]
    ensures forall k :: 0 <= k < |names| ==> Breaks(v[k]) == Breaks(w[k])
  {
    hide Breaks, TotalBreaks;
    forall k | 0 <= k < |names| ensures Breaks(v[k]) == Breaks(w[k]) {
      if Breaks(v[k]) < Breaks(w[k]) {
        assert forall i :: 0 <= i < |names| && names[i] == free ==> v[i] == v[k] && w[i] == w[k];
        TotalOrder(v, w);
      } else if Breaks(w[k]) < Breaks(v[k]) {
        assert forall i :: 0 <= i < |names| && names[i] == free ==> v[i] == v[k] && w[i] == w[k];
        TotalOrder(w, v);
      }
    }
  }

  // ---------- what the signing string determines ----------

  /** If `name` is signed, its value is one line in both requests. */
  ghost predicate OneLineAt(r: Incoming, q: Incoming, names: seq<string>, name: string) {
    name in names ==>
      && (EffectiveValue(r, name).Some? ==> '\n' !in EffectiveValue(r, name).value)
      && (EffectiveValue(q, name).Some? ==> '\n' !in EffectiveValue(q, name).value)
  }

  /** Only the request target and the host can be more than one line, and here one of them is not. */
  ghost predicate Separable(r: Incoming, q: Incoming, names: seq<string>) {
    OneLineAt(r, q, names, REQUEST_TARGET) || OneLineAt(r, q, names, "host")
  }

  lemma ValueIsOneLine(r: Incoming, header: string)
    requires header != REQUEST_TARGET && header != "host" && EffectiveValue(r, header).Some?
    ensures '\n' !in EffectiveValue(r, header).value
  {
    hide Trim, NormalizeHeaderValue, SignedPath, SignedMethod;
    var found := HeaderValue(r.headers, header);
    if found.Some? {
      NormalFormIsOneLine(found.value);
    }
  }

  /** The name whose value may have line breaks. */
  ghost function FreeName(r: Incoming, q: Incoming, names: seq<string>): string {
    if OneLineAt(r, q, names, REQUEST_TARGET) then "host" else REQUEST_TARGET
  }

  ghost predicate Agree(r: Incoming, q: Incoming, names: seq<string>) {
    forall k :: 0 <= k < |names| ==> EffectiveValue(r, names[k]) == EffectiveValue(q, names[k])
  }

  ghost function Values(r: Incoming, names: seq<string>): (vs: seq<string>)
    requires forall k :: 0 <= k < |names| ==> EffectiveValue(r, names[k]).Some?
    ensures |vs| == |names| && forall k :: 0 <= k < |names| ==> Some(vs[k]) == EffectiveValue(r, names[k])
  {
    seq(|names|, k requires 0 <= k < |names| => EffectiveValue(r, names[k]).value)
  }

  lemma OthersAreOneLine(r: Incoming, q: Incoming, names: seq<string>, k: nat)
    requires Separable(r, q, names) && k < |names| && names[k] != FreeName(r, q, names)
    requires EffectiveValue(r, names[k]).Some? && EffectiveValue(q, names[k]).Some?
    ensures Breaks(EffectiveValue(r, names[k]).value) == Breaks(EffectiveValue(q, names[k]).value) == 0
  {
    hide EffectiveValue, Breaks;
    assert names[k] in names;
    if names[k] != REQUEST_TARGET && names[k] != "host" {
      ValueIsOneLine(r, names[k]);
      ValueIsOneLine(q, names[k]);
    }
    NoBreaks(EffectiveValue(r, names[k]).value);
    NoBreaks(EffectiveValue(q, names[k]).value);
  }

  lemma EqualLinesAgree(r: Incoming, q: Incoming, names: seq<string>, a: seq<string>, b: seq<string>)
    requires Separable(r, q, names) && HasValues(r, names, a) && HasValues(q, names, b)
    requires Join(a, "\n") == Join(b, "\n")
    ensures Agree(r, q, names)
  {
    hide EffectiveValue, Separable, Join, Breaks, TotalBreaks, FreeName;
    var v, w := Values(r, names), Values(q, names);
    var starts := seq(|names|, k requires 0 <= k < |names| => names[k] + ": ");
    BreaksOfLines(starts, a, v);
    BreaksOfLines(starts, b, w);
    var free := FreeName(r, q, names);
    forall k | 0 <= k < |names| && names[k] != free ensures Breaks(v[k]) == Breaks(w[k]) == 0 {
      OthersAreOneLine(r, q, names, k);
    }
    BreaksDetermined(names, free, v, w);
    LinesDetermined(starts, a, b, v, w);
    forall k | 0 <= k < |names| ensures EffectiveValue(r, names[k]) == EffectiveValue(q, names[k]) {
      assert v[k] == w[k];
    }
  }

  /**
   Canonicalisation is injective: for one list of signed headers, two requests that can be signed have the same
   signing string exactly when they have the same effective value of every signed header, unless both the request
   target and the host are signed and each has a line break in one of the requests.
   */
  lemma SigningInjective(r: Incoming, q: Incoming, headerList: seq<string>)
    requires Separable(r, q, SignedNames(headerList))
    requires SigningText(r, headerList).Signed? && SigningText(q, headerList).Signed?
    ensures SigningText(r, headerList) == SigningText(q, headerList) <==> Agree(r, q, SignedNames(headerList))
  {
    hide EffectiveValue, Separable, Join, HasValues;
    CollectedValues(r, headerList);
    CollectedValues(q, headerList);
    if SigningText(r, headerList) == SigningText(q, headerList) {
      EqualLinesAgree(r, q, SignedNames(headerList), Collected(r, headerList).lines, Collected(q, headerList).lines);
    }
    if Agree(r, q, SignedNames(headerList)) {
      AgreementCollects(r, q, headerList);
    }
  }

  /** When the request target is signed, agreement on it is agreement on the method and the path. */
  lemma TargetDetermined(r: Incoming, q: Incoming)
    requires ' ' !in SignedMethod(r) && ' ' !in SignedMethod(q)
    ensures EffectiveValue(r, REQUEST_TARGET) == EffectiveValue(q, REQUEST_TARGET) <==>
      SignedMethod(r) == SignedMethod(q) && SignedPath(r) == SignedPath(q)
  {
    var m, n := SignedMethod(r), SignedMethod(q);
    var s, t := SignedPath(r), SignedPath(q);
    if m + " " + s == n + " " + t {
      IndexOfIs(m, ' ', s);
      IndexOfIs(n, ' ', t);
      assert m + " " + s == m + [' '] + s && n + " " + t == n + [' '] + t;
      var x := m + " " + s;
      assert |m| == |n|;
      assert x[..|m|] == m && x[..|n|] == n && x[|m| + 1..] == s && x[|n| + 1..] == t;
    }
  }

  lemma OneName(r: Incoming, name: string)
    ensures Collected(r, [name]) ==
      var header := NameOf(name);
      if header == "" then Lines([])
      else if EffectiveValue(r, header).None? then Missing(header)
      else Lines([header + ": " + EffectiveValue(r, header).value])
  {
    hide EffectiveValue, NameOf;
    assert [name][..0] == [];
  }

  lemma NamesAreNormal()
    ensures NameOf(REQUEST_TARGET) == REQUEST_TARGET && NameOf("host") == "host"
  {
    AlreadyTrimmed("host");
    AlreadyTrimmed(REQUEST_TARGET);
    assert Lower("host") == "host" && Lower(REQUEST_TARGET) == REQUEST_TARGET;
  }

  /** The method must have no space: a space can end the method or belong to it, and the text is the same. */
  lemma SpaceInMethodCollides(r: Incoming, q: Incoming, m: string, x: string, y: string)
    requires SignedMethod(r) == m + " " + x && SignedPath(r) == y
    requires SignedMethod(q) == m && SignedPath(q) == x + " " + y && m != ""
    ensures SigningText(r, [REQUEST_TARGET]) == SigningText(q, [REQUEST_TARGET])
    ensures SigningText(r, [REQUEST_TARGET]).Signed? && SignedMethod(r) != SignedMethod(q)
  {
    hide SignedMethod, SignedPath, NameOf;
    assert m + " " + x + " " + y == m + " " + (x + " " + y);
    NamesAreNormal();
    OneName(r, REQUEST_TARGET);
    OneName(q, REQUEST_TARGET);
    assert |SignedMethod(r)| > |SignedMethod(q)|;
  }

  /**
   With a break in the target of one request and in the host of the other, the line of the host can start in two
   places.
   */
  lemma LineBreaksCollide(r: Incoming, q: Incoming, x: string, y: string, z: string)
    requires SignedMethod(r) == SignedMethod(q) != ""
    requires HeaderValue(r.headers, "host").None? && HeaderValue(q.headers, "host").None?
    requires SignedPath(r) == x + "\nhost: " + y && Trim(r.host) == z != ""
    requires SignedPath(q) == x && Trim(q.host) == y + "\nhost: " + z
    ensures SigningText(r, [REQUEST_TARGET, "host"]) == SigningText(q, [REQUEST_TARGET, "host"])
    ensures SigningText(r, [REQUEST_TARGET, "host"]).Signed? && SignedPath(r) != SignedPath(q)
  {
    hide SignedMethod, SignedPath, NameOf, Trim, Collected;
    var m := SignedMethod(r) + " ";
    NamesAreNormal();
    TwoLines(r, m + (x + "\nhost: " + y), z);
    TwoLines(q, m + x, y + "\nhost: " + z);
    Regroup(REQUEST_TARGET + ": ", m, x, "\nhost: ", y, z);
    assert |SignedPath(r)| > |SignedPath(q)|;
  }

  lemma Regroup(a: string, m: string, x: string, sep: string, y: string, z: string)
    ensures a + (m + (x + sep + y)) + sep + z == a + (m + x) + sep + (y + sep + z)
  {}

  lemma TwoLines(r: Incoming, target: string, host: string)
    requires NameOf(REQUEST_TARGET) == REQUEST_TARGET && NameOf("host") == "host"
    requires EffectiveValue(r, REQUEST_TARGET) == Some(target) && EffectiveValue(r, "host") == Some(host)
    ensures Collected(r, [REQUEST_TARGET, "host"]) == Lines([REQUEST_TARGET + ": " + target, "host: " + host])
    ensures Join([REQUEST_TARGET + ": " + target, "host: " + host], "\n") ==
      REQUEST_TARGET + ": " + target + "\nhost: " + host
  {
    hide EffectiveValue, NameOf;
    OneName(r, REQUEST_TARGET);
    assert [REQUEST_TARGET, "host"][..1] == [REQUEST_TARGET];
    var first := REQUEST_TARGET + ": " + target;
    assert [first, "host: " + host][1..] == ["host: " + host];
    assert "host" + ": " == "host: ";
    NewlineThen(first, host);
  }

  lemma NewlineThen(first: string, host: string)
    ensures first + "\n" + ("host: " + host) == first + "\nhost: " + host
  {
    assert "\n" + "host: " == "\nhost: ";
    assert first + "\n" + ("host: " + host) == first + ("\n" + "host: ") + host;
  }

  // ---------- what is signed ----------

  /** The first header of this name, in any case. */
  ghost predicate FirstHeader(headers: seq<(string, string)>, name: string, i: nat) {
    && i < |headers| && Lower(headers[i].0) == Lower(name)
    && forall k :: 0 <= k < i ==> Lower(headers[k].0) != Lower(name)
  }

  lemma {:induction false} HeaderFound(headers: seq<(string, string)>, name: string)
    ensures HeaderValue(headers, name).None? ==> forall i: nat :: !FirstHeader(headers, name, i)
    ensures HeaderValue(headers, name).Some? ==>
      exists i: nat :: FirstHeader(headers, name, i) && HeaderValue(headers, name) == Some(headers[i].1)
  {
    hide Lower;
    if headers != [] {
      var rest := headers[1..];
      HeaderFound(rest, name);
      if EqualFold(headers[0].0, name) {
        assert FirstHeader(headers, name, 0);
      } else if HeaderValue(rest, name).Some? {
        var i: nat :| FirstHeader(rest, name, i) && HeaderValue(rest, name) == Some(rest[i].1);
        assert forall k :: 0 < k < i + 1 ==> headers[k] == rest[k - 1];
        assert FirstHeader(headers, name, i + 1) && headers[i + 1] == rest[i];
      } else {
        forall i: nat ensures !FirstHeader(headers, name, i) {
          LaterFirst(headers, name, i);
        }
      }
    }
  }

  lemma LaterFirst(headers: seq<(string, string)>, name: string, i: nat)
    requires headers != [] && Lower(headers[0].0) != Lower(name)
    ensures FirstHeader(headers, name, i) ==> i > 0 && FirstHeader(headers[1..], name, i - 1)
  {
    hide Lower;
    assert forall k :: 0 < k < |headers| ==> headers[k] == headers[1..][k - 1];
  }

  lemma OneFirst(headers: seq<(string, string)>, name: string, i: nat, k: nat)
    requires FirstHeader(headers, name, i) && FirstHeader(headers, name, k)
    ensures i == k
  {
    hide Lower;
  }

  /** The request target is the lower-cased method and the path, which is a slash when it is blank. */
  lemma TargetMeans(r: Incoming)
    ensures EffectiveValue(r, REQUEST_TARGET)
      == Some(Trim(Lower(r.method_)) + " " + if Trim(r.path) == "" then "/" else Trim(r.path))
  {
    hide Trim, Lower;
  }

  /**
   Any other header contributes the words of the first header of its name, with one space between them; a host header
   that is missing or blank gives way to the host of the request, and any other is missing.
   */
  lemma HeaderMeans(r: Incoming, header: string)
    requires header != REQUEST_TARGET
    ensures forall i: nat :: FirstHeader(r.headers, header, i) && Trim(r.headers[i].1) != "" ==>
      EffectiveValue(r, header) == Some(Join(Fields(r.headers[i].1), " "))
    ensures (forall i: nat :: FirstHeader(r.headers, header, i) ==> Trim(r.headers[i].1) == "") ==>
      EffectiveValue(r, header) == if header == "host" && Trim(r.host) != "" then Some(Trim(r.host)) else None
  {
    hide Trim, Lower, Fields, Join, FirstHeader;
    HeaderFound(r.headers, header);
    forall i: nat, k: nat | FirstHeader(r.headers, header, i) && FirstHeader(r.headers, header, k) ensures i == k {
      OneFirst(r.headers, header, i, k);
    }
  }

  /** The names that are signed: those of the list, trimmed and in lower case, without blanks. */
  lemma {:induction false} NamesMean(a: seq<string>, b: seq<string>)
    ensures SignedNames(a + b) == SignedNames(a) + SignedNames(b)
    ensures |a| == 1 ==> SignedNames(a) == if Trim(a[0]) == "" then [] else [Lower(Trim(a[0]))]
  {
    if |a| == 1 {
      assert a[..0] == [];
      assert |Lower(Trim(a[0]))| == |Trim(a[0])|;
    }
    hide NameOf, Trim, Lower;
    if b == [] {
      assert a + b == a;
    } else {
      assert (a + b)[..|a + b| - 1] == a + b[..|b| - 1];
      NamesMean(a, b[..|b| - 1]);
    }
  }

  ghost predicate AllPresent(r: Incoming, names: seq<string>) {
    forall k :: 0 <= k < |names| ==> EffectiveValue(r, names[k]).Some?
  }

  ghost predicate FirstMissing(r: Incoming, names: seq<string>, k: nat) {
    k < |names| && EffectiveValue(r, names[k]).None? && AllPresent(r, names[..k])
  }

  lemma {:induction false} CollectedMeans(r: Incoming, headerList: seq<string>)
    ensures Collected(r, headerList).Lines? <==> AllPresent(r, SignedNames(headerList))
    ensures Collected(r, headerList).Missing? ==>
      exists k: nat ::
        FirstMissing(r, SignedNames(headerList), k) && SignedNames(headerList)[k] == Collected(r, headerList).name
  {
    hide EffectiveValue, NameOf;
    if headerList != [] {
      var init := headerList[..|headerList| - 1];
      var names, before := SignedNames(headerList), SignedNames(init);
      CollectedMeans(r, init);
      if Collected(r, init).Missing? {
        var k: nat :| FirstMissing(r, before, k) && before[k] == Collected(r, init).name;
        assert names[..k] == before[..k] && names[k] == before[k];
        assert FirstMissing(r, names, k);
      } else if NameOf(headerList[|headerList| - 1]) != "" {
        assert names[..|before|] == before;
        if EffectiveValue(r, names[|before|]).None? {
          assert FirstMissing(r, names, |before|);
        }
      }
    }
  }

  /**
   A request can be signed exactly when it has a method, the list names something, and everything that it names has a
   value; otherwise the fault says which of these fails, and names the first header that is missing.
   */
  lemma SignedExactly(r: Incoming, headerList: seq<string>)
    ensures
      var names, t := SignedNames(headerList), SigningText(r, headerList);
      && (t.MissingMethod? <==> Trim(Lower(r.method_)) == "")
      && (t.Signed? <==> Trim(Lower(r.method_)) != "" && names != [] && AllPresent(r, names))
      && (t.NoHeaders? <==> Trim(Lower(r.method_)) != "" && names == [])
      && (t.MissingHeader? ==> exists k: nat :: FirstMissing(r, names, k) && names[k] == t.name)
      && (t.Signed? ==> exists lines :: HasValues(r, names, lines) && t.text == Join(lines, "\n"))
  {
    CollectedMeans(r, headerList);
    CollectedValues(r, headerList);
    NoNames(r, headerList);
    hide EffectiveValue, NameOf, Join, Trim, Lower, Collected, SignedNames, HasValues, AllPresent;
  }

  lemma NoNames(r: Incoming, headerList: seq<string>)
    ensures Collected(r, headerList).Lines? ==> |Collected(r, headerList).lines| == |SignedNames(headerList)|
    ensures SignedNames(headerList) == [] ==> AllPresent(r, SignedNames(headerList))
  {
    hide EffectiveValue, NameOf;
    CollectedValues(r, headerList);
  }
}
