/**
 Go strings as the service uses them. A Go string is a sequence of bytes, so every `char` of a
 Dafny `string` stands for one byte here: lengths are byte lengths and the order is the byte order.
 */
module Text {

  datatype Option<+T> = None | Some(value: T)

  // ---------- white space ----------

  /** Length of the white-space rune that `s` starts with, 0 when it starts with none. */
  function SpacePrefix(s: string): (n: nat)
    ensures n <= |s|
  {
    if |s| >= 1 && IsAsciiSpace(s[0]) then 1
    else if |s| >= 2 && IsSpace2(s[0], s[1]) then 2
    else if |s| >= 3 && IsSpace3(s[0], s[1], s[2]) then 3
    else 0
  }

  /** Length of the white-space rune that `s` ends with, 0 when it ends with none. */
  function SpaceSuffix(s: string): (n: nat)
    ensures n <= |s|
  {
    var e := |s|;
    if e >= 1 && IsAsciiSpace(s[e - 1]) then 1
    else if e >= 2 && IsSpace2(s[e - 2], s[e - 1]) then 2
    else if e >= 3 && IsSpace3(s[e - 3], s[e - 2], s[e - 1]) then 3
    else 0
  }

  predicate IsAsciiSpace(c: char) {
    c == ' ' || '\U{9}' <= c <= '\U{D}'
  }

  /** U+0085 and U+00A0 in UTF-8. */
  predicate IsSpace2(a: char, b: char) {
    a == '\U{C2}' && (b == '\U{85}' || b == '\U{A0}')
  }

  /** U+1680, U+2000..U+200A, U+2028, U+2029, U+202F, U+205F and U+3000 in UTF-8. */
  predicate IsSpace3(a: char, b: char, c: char) {
    || (a == '\U{E1}' && b == '\U{9A}' && c == '\U{80}')
    || (a == '\U{E2}' && b == '\U{80}'
        && ('\U{80}' <= c <= '\U{8A}' || c == '\U{A8}' || c == '\U{A9}' || c == '\U{AF}'))
    || (a == '\U{E2}' && b == '\U{81}' && c == '\U{9F}')
    || (a == '\U{E3}' && b == '\U{80}' && c == '\U{80}')
  }

  function TrimLeft(s: string): (t: string)
    decreases |s|
  {
    if SpacePrefix(s) == 0 then s else TrimLeft(s[SpacePrefix(s)..])
  }

  function TrimRight(s: string): (t: string)
    decreases |s|
  {
    if SpaceSuffix(s) == 0 then s else TrimRight(s[..|s| - SpaceSuffix(s)])
  }

  /** strings.TrimSpace */
  function Trim(s: string): string {
    TrimRight(TrimLeft(s))
  }

  predicate IsBlank(s: string) {
    Trim(s) == ""
  }

  lemma {:induction false} TrimLeftStops(s: string)
    ensures SpacePrefix(TrimLeft(s)) == 0
    decreases |s|
  {
    if SpacePrefix(s) != 0 {
      TrimLeftStops(s[SpacePrefix(s)..]);
    }
  }

  lemma {:induction false} TrimRightStops(s: string)
    ensures SpaceSuffix(TrimRight(s)) == 0
    ensures TrimRight(s) <= s
    decreases |s|
  {
    if SpaceSuffix(s) != 0 {
      TrimRightStops(s[..|s| - SpaceSuffix(s)]);
    }
  }

  /** A trimmed string neither starts nor ends with white space, and trimming it again changes nothing. */
  lemma TrimIsTight(s: string)
    ensures SpacePrefix(Trim(s)) == 0 && SpaceSuffix(Trim(s)) == 0
    ensures Trim(Trim(s)) == Trim(s)
  {
    TrimLeftStops(s);
    TrimRightStops(TrimLeft(s));
  }

  lemma AlreadyTrimmed(s: string)
    requires SpacePrefix(s) == 0 && SpaceSuffix(s) == 0
    ensures Trim(s) == s
  {}

  // ---------- case ----------

  function LowerChar(c: char): char {
    if 'A' <= c <= 'Z' then c - 'A' + 'a' else c
  }

  function UpperChar(c: char): char {
    if 'a' <= c <= 'z' then c - 'a' + 'A' else c
  }

  /** strings.ToLower on ASCII letters. */
  function Lower(s: string): (t: string)
    ensures |t| == |s|
  {
    seq(|s|, i requires 0 <= i < |s| => LowerChar(s[i]))
  }

  /** strings.ToUpper on ASCII letters. */
  function Upper(s: string): (t: string)
    ensures |t| == |s|
  {
    seq(|s|, i requires 0 <= i < |s| => UpperChar(s[i]))
  }

  /** strings.EqualFold on ASCII letters. */
  predicate EqualFold(a: string, b: string) {
    Lower(a) == Lower(b)
  }

  lemma CaseIsIdempotent(s: string)
    ensures Lower(Lower(s)) == Lower(s)
    ensures Upper(Upper(s)) == Upper(s)
  {}

  /** A byte changed by a case mapping is a letter before and after. */
  lemma CaseChangesLetters(c: char)
    ensures LowerChar(c) == c || ('A' <= c <= 'Z' && 'a' <= LowerChar(c) <= 'z')
    ensures UpperChar(c) == c || ('a' <= c <= 'z' && 'A' <= UpperChar(c) <= 'Z')
  {}

  /** Mapping letters to letters keeps both ends free of white space. */
  lemma LettersKeepTrimmed(s: string, t: string)
    requires |t| == |s| && SpacePrefix(s) == 0 && SpaceSuffix(s) == 0
    requires forall i :: 0 <= i < |s| ==> t[i] == s[i] || ('A' <= s[i] <= 'z' && 'A' <= t[i] <= 'z')
    ensures Trim(t) == t
  {
    assert SpacePrefix(t) == 0;
    assert SpaceSuffix(t) == 0;
  }

  /** Changing the case of a trimmed string leaves it trimmed. */
  lemma CaseKeepsTrimmed(s: string)
    requires SpacePrefix(s) == 0 && SpaceSuffix(s) == 0
    ensures Trim(Lower(s)) == Lower(s)
    ensures Trim(Upper(s)) == Upper(s)
  {
    forall i | 0 <= i < |s|
      ensures Lower(s)[i] == s[i] || ('A' <= s[i] <= 'z' && 'A' <= Lower(s)[i] <= 'z')
      ensures Upper(s)[i] == s[i] || ('A' <= s[i] <= 'z' && 'A' <= Upper(s)[i] <= 'z')
    {
      CaseChangesLetters(s[i]);
    }
    LettersKeepTrimmed(s, Lower(s));
    LettersKeepTrimmed(s, Upper(s));
  }

  // ---------- order ----------

  /** Byte-wise lexicographic order, the order of sort.Strings. */
  predicate Leq(a: string, b: string) {
    a == "" || (b != "" && (a[0] < b[0] || (a[0] == b[0] && Leq(a[1..], b[1..]))))
  }

  lemma {:induction false} LeqRefl(a: string)
    ensures Leq(a, a)
  {
    if a != "" {
      LeqRefl(a[1..]);
    }
  }

  lemma {:induction false} LeqTotal(a: string, b: string)
    ensures Leq(a, b) || Leq(b, a)
  {
    if a != "" && b != "" {
      LeqTotal(a[1..], b[1..]);
    }
  }

  lemma {:induction false} LeqAntisymmetric(a: string, b: string)
    requires Leq(a, b) && Leq(b, a)
    ensures a == b
  {
    if a != "" && b != "" {
      LeqAntisymmetric(a[1..], b[1..]);
      assert a == [a[0]] + a[1..] && b == [b[0]] + b[1..];
    }
  }

  lemma {:induction false} LeqTrans(a: string, b: string, c: string)
    requires Leq(a, b) && Leq(b, c)
    ensures Leq(a, c)
  {
    if a != "" && a[0] == b[0] == c[0] {
      LeqTrans(a[1..], b[1..], c[1..]);
    }
  }

  // ---------- splitting and joining ----------

  lemma CommonPrefix(p: string, a: string, b: string)
    requires p + a == p + b
    ensures a == b
  {
    assert (p + a)[|p|..] == a && (p + b)[|p|..] == b;
  }

  /** strings.Join */
  function Join(parts: seq<string>, sep: string): string {
    if |parts| == 0 then ""
    else if |parts| == 1 then parts[0]
    else parts[0] + sep + Join(parts[1..], sep)
  }

  /** strings.IndexByte, with |s| for "not found". */
  function IndexOf(s: string, c: char): (i: nat)
    ensures i <= |s|
    ensures c !in s[..i]
    ensures i < |s| ==> s[i] == c
  {
    if s == "" then 0
    else if s[0] == c then 0
    else
      var i := 1 + IndexOf(s[1..], c);
      assert s[..i] == [s[0]] + s[1..][..i - 1];
      i
  }

  lemma {:induction false} IndexOfIs(pre: string, c: char, post: string)
    requires c !in pre
    ensures IndexOf(pre + [c] + post, c) == |pre|
  {
    if pre != "" {
      assert (pre + [c] + post)[1..] == pre[1..] + [c] + post;
      IndexOfIs(pre[1..], c, post);
    }
  }

  lemma {:induction false} IndexOfNone(s: string, c: char)
    requires c !in s
    ensures IndexOf(s, c) == |s|
  {
    if s != "" {
      IndexOfNone(s[1..], c);
    }
  }
}
