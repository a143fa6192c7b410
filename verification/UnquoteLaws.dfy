/**
 What quoted values may contain and what it stands for: every kind of escape, well-formed and stray bytes, and the
 texts that are refused; and the parameters that are written without quotes.
 */
module UnquoteLaws {
  import opened Text
  import opened SignatureHeader

  // ---------- runes ----------

  /** The code point that a sequence of UTF-8 bytes encodes. */
  function Decode(s: string): nat
    requires 1 <= |s| <= 4
  {
    var b := (k: nat) requires k < |s| => s[k] as nat;
    if |s| == 1 then b(0)
    else if |s| == 2 then b(0) % 0x20 * 0x40 + b(1) % 0x40
    else if |s| == 3 then b(0) % 0x10 * 0x1000 + b(1) % 0x40 * 0x40 + b(2) % 0x40
    else b(0) % 8 * 0x40000 + b(1) % 0x40 * 0x1000 + b(2) % 0x40 * 0x40 + b(3) % 0x40
  }

  /** The bytes of a code point decode to it, and there are as few of them as possible. */
  lemma RuneDecodes(v: nat)
    requires IsScalar(v)
    ensures 1 <= |EncodeRune(v)| <= 4 && Decode(EncodeRune(v)) == v
    ensures |EncodeRune(v)| == if v < 0x80 then 1 else if v < 0x800 then 2 else if v < 0x10000 then 3 else 4
  {
    if v < 0x80 {
    } else if v < 0x800 {
      TwoBytes(v);
    } else if v < 0x10000 {
      ThreeBytes(v);
    } else {
      FourBytes(v);
    }
    hide Decode;
  }

  lemma Bits(v: nat)
    ensures v == v / 0x40 * 0x40 + v % 0x40
  {}

  lemma TwoBytes(v: nat)
    requires 0x80 <= v < 0x800
    ensures Decode([(0xC0 + v / 0x40) as char, (0x80 + v % 0x40) as char]) == v
  {
    Bits(v);
    Low(v % 0x40);
    assert (0xC0 + v / 0x40) % 0x20 == v / 0x40;
  }

  lemma Low(b: nat)
    requires b < 0x40
    ensures (0x80 + b) % 0x40 == b
  {}

  lemma ThreeBytes(v: nat)
    requires 0x800 <= v < 0x10000
    ensures
      Decode([(0xE0 + v / 0x1000) as char, (0x80 + v / 0x40 % 0x40) as char, (0x80 + v % 0x40) as char]) == v
  {
    var a, b, c := v / 0x1000, v / 0x40 % 0x40, v % 0x40;
    Bits(v);
    Bits(v / 0x40);
    assert v / 0x40 / 0x40 == a;
    Low(b);
    Low(c);
    assert (0xE0 + a) % 0x10 == a;
    Three(0xE0 + a, 0x80 + b, 0x80 + c);
  }

  lemma Three(x: nat, y: nat, z: nat)
    requires x < 256 && y < 256 && z < 256
    ensures Decode([x as char, y as char, z as char]) == x % 0x10 * 0x1000 + y % 0x40 * 0x40 + z % 0x40
  {}

  lemma FourBytes(v: nat)
    requires 0x10000 <= v <= 0x10FFFF
    ensures Decode([(0xF0 + v / 0x40000) as char, (0x80 + v / 0x1000 % 0x40) as char, (0x80 + v / 0x40 % 0x40) as char,
                    (0x80 + v % 0x40) as char]) == v
  {
    var a, b, c, d := v / 0x40000, v / 0x1000 % 0x40, v / 0x40 % 0x40, v % 0x40;
    Bits(v);
    Bits(v / 0x40);
    Bits(v / 0x1000);
    assert v / 0x40 / 0x40 == v / 0x1000 && v / 0x1000 / 0x40 == a;
    Low(b);
    Low(c);
    Low(d);
    assert (0xF0 + a) % 8 == a;
    Four(0xF0 + a, 0x80 + b, 0x80 + c, 0x80 + d);
  }

  lemma Four(w: nat, x: nat, y: nat, z: nat)
    requires w < 256 && x < 256 && y < 256 && z < 256
    ensures Decode([w as char, x as char, y as char, z as char])
      == w % 8 * 0x40000 + x % 0x40 * 0x1000 + y % 0x40 * 0x40 + z % 0x40
  {}

  /** The bytes of a code point beyond ASCII are recognised as one rune, whatever follows. */
  lemma RuneIsOne(v: nat, rest: string)
    requires IsScalar(v) && v >= 0x80
    ensures RuneLength(EncodeRune(v) + rest) == |EncodeRune(v)|
    ensures EncodeRune(v)[0] >= '\U{80}'
  {
    var s := EncodeRune(v);
    RuneAlone(v);
    LongerRune(s, rest);
  }

  lemma RuneAlone(v: nat)
    requires IsScalar(v) && v >= 0x80
    ensures RuneLength(EncodeRune(v)) == |EncodeRune(v)| && EncodeRune(v)[0] >= '\U{80}'
  {}

  /** A rune is recognised by its own bytes. */
  lemma LongerRune(s: string, rest: string)
    requires RuneLength(s) > 0
    ensures RuneLength(s + rest) == RuneLength(s)
  {
    var t := s + rest;
    assert t[0] == s[0] && t[1] == s[1];
    assert |s| >= 3 ==> t[2] == s[2];
    assert |s| >= 4 ==> t[3] == s[3];
  }

  // ---------- pieces of a quoted text ----------

  /** One piece of a quoted text, by what it is written for. */
  datatype Piece =
    | Plain(c: char)
    | Named(letter: char)
    | Octal(value: nat)
    | Hex(value: nat)
    | Short(rune: nat)
    | Long(rune: nat)
    | Encoded(rune: nat)

  const NAMES := map[
    'a' := '\U{7}', 'b' := '\U{8}', 'f' := '\U{C}', 'n' := '\n', 'r' := '\r', 't' := '\t', 'v' := '\U{B}',
    '\\' := '\\', '"' := '"']

  predicate Proper(p: Piece) {
    match p
    case Plain(c) => c < '\U{80}' && c != '"' && c != '\\' && c != '\n'
    case Named(letter) => letter in NAMES
    case Octal(value) => value < 256
    case Hex(value) => value < 256
    case Short(rune) => rune < 0x10000 && IsScalar(rune)
    case Long(rune) => IsScalar(rune)
    case Encoded(rune) => rune >= 0x80 && IsScalar(rune)
  }

  function Digits(value: nat, base: nat, count: nat): (s: string)
    requires 2 <= base <= 16
    ensures |s| == count
  {
    if count == 0 then "" else Digits(value / base, base, count - 1) + [HexDigit(value % base)]
  }

  function Written(p: Piece): string
    requires Proper(p)
  {
    match p
    case Plain(c) => [c]
    case Named(letter) => ['\\', letter]
    case Octal(value) => ['\\'] + Digits(value, 8, 3)
    case Hex(value) => ['\\', 'x'] + Digits(value, 16, 2)
    case Short(rune) => ['\\', 'u'] + Digits(rune, 16, 4)
    case Long(rune) => ['\\', 'U'] + Digits(rune, 16, 8)
    case Encoded(rune) => EncodeRune(rune)
  }

  /** The bytes that a piece stands for. */
  function Stands(p: Piece): string
    requires Proper(p)
  {
    match p
    case Plain(c) => [c]
    case Named(letter) => [NAMES[letter]]
    case Octal(value) => [value as char]
    case Hex(value) => [value as char]
    case Short(rune) => EncodeRune(rune)
    case Long(rune) => EncodeRune(rune)
    case Encoded(rune) => EncodeRune(rune)
  }

  predicate AllProper(ps: seq<Piece>) {
    forall i :: 0 <= i < |ps| ==> Proper(ps[i])
  }

  function WrittenAll(ps: seq<Piece>): string
    requires AllProper(ps)
  {
    if ps == [] then "" else Written(ps[0]) + WrittenAll(ps[1..])
  }

  function StandsAll(ps: seq<Piece>): string
    requires AllProper(ps)
  {
    if ps == [] then "" else Stands(ps[0]) + StandsAll(ps[1..])
  }

  function Power(base: nat, count: nat): nat {
    if count == 0 then 1 else base * Power(base, count - 1)
  }

  lemma DigitValue(n: nat)
    requires n < 16
    ensures HexValue(HexDigit(n)) == Some(n)
  {}

  lemma Quotient(value: nat, base: nat, rest: nat)
    requires base >= 2 && value < base * rest
    ensures value / base < rest && value == value / base * base + value % base
  {}

  lemma HighPart(value: nat, base: nat, count: nat) returns (high: nat)
    requires 2 <= base <= 16 && count > 0 && value < Power(base, count)
    ensures high == value / base && high < Power(base, count - 1)
  {
    PowerNext(base, count);
    hide Power;
    high := value / base;
    Quotient(value, base, Power(base, count - 1));
  }

  lemma LastDigit(value: nat, high: nat, base: nat, count: nat)
    requires 2 <= base <= 16 && count > 0 && high == value / base
    requires Number(Digits(high, base, count - 1), base) == Some(high)
    ensures Number(Digits(value, base, count), base) == Some(value)
  {
    hide *;
    DigitsLast(value, base, count);
    DigitValue(value % base);
    ShiftedBack(value, base);
  }

  lemma {:induction false} DigitsNumber(value: nat, base: nat, count: nat)
    requires 2 <= base <= 16 && value < Power(base, count)
    ensures Number(Digits(value, base, count), base) == Some(value)
  {
    hide *;
    if count == 0 {
      PowerZero(base);
      NoDigits(value, base);
    } else {
      var high := HighPart(value, base, count);
      DigitsNumber(high, base, count - 1);
      LastDigit(value, high, base, count);
    }
  }

  lemma ShiftedBack(value: nat, base: nat)
    requires base >= 2
    ensures Shifted(Some(value / base), Some(value % base), base) == Some(value)
  {}

  lemma PowerZero(base: nat)
    ensures Power(base, 0) == 1
  {}

  lemma NoDigits(value: nat, base: nat)
    requires 2 <= base <= 16
    ensures Number(Digits(value, base, 0), base) == Some(0)
  {}

  lemma PowerNext(base: nat, count: nat)
    requires count > 0
    ensures Power(base, count) == base * Power(base, count - 1)
  {}

  lemma DigitsLast(value: nat, base: nat, count: nat)
    requires 2 <= base <= 16 && count > 0
    ensures Number(Digits(value, base, count), base) ==
      Shifted(Number(Digits(value / base, base, count - 1), base), HexValue(HexDigit(value % base)), base)
  {
    hide HexValue, HexDigit, Shifted;
    var s := Digits(value, base, count);
    assert s[..|s| - 1] == Digits(value / base, base, count - 1);
  }

  lemma Powers()
    ensures Power(8, 3) == 512 && Power(16, 2) == 256 && Power(16, 4) == 0x10000 && Power(16, 8) == 0x1_0000_0000
  {
    assert Power(8, 1) == 8 && Power(8, 2) == 64;
    assert Power(16, 1) == 16 && Power(16, 3) == 4096;
    assert Power(16, 5) == 0x10_0000 && Power(16, 6) == 0x100_0000 && Power(16, 7) == 0x1000_0000;
  }

  lemma NumberRead(head: string, value: nat, base: nat, count: nat, rest: string, limit: nat)
    requires 2 <= base <= 16 && value < Power(base, count) && value < limit
    ensures NumericEscape(head + Digits(value, base, count) + rest, count, base, |head|, limit) == Some(value)
  {
    var digits := Digits(value, base, count);
    var s := head + digits + rest;
    assert s[|head|..|head| + count] == digits;
    DigitsNumber(value, base, count);
    hide Number, Digits;
  }

  lemma OctalRead(value: nat, rest: string)
    requires value < 256
    ensures Escaped(['\\'] + Digits(value, 8, 3) + rest) == Some(Unit([value as char], 4))
  {
    Powers();
    NumberRead(['\\'], value, 8, 3, rest, 256);
    OctalLead(value);
    hide Digits, NumericEscape, Power;
    var digits := Digits(value, 8, 3);
    assert (['\\'] + digits + rest)[1] == digits[0];
  }

  lemma OctalLead(value: nat)
    requires value < 256
    ensures '0' <= Digits(value, 8, 3)[0] <= '7'
  {
    assert Digits(value / 64, 8, 1) == Digits(value / 64 / 8, 8, 0) + [HexDigit(value / 64 % 8)];
    assert value / 8 / 8 == value / 64;
    assert Digits(value / 8, 8, 2)[0] == Digits(value / 64, 8, 1)[0];
    assert Digits(value, 8, 3)[0] == Digits(value / 8, 8, 2)[0];
  }

  lemma HexRead(value: nat, rest: string)
    requires value < 256
    ensures Escaped(['\\', 'x'] + Digits(value, 16, 2) + rest) == Some(Unit([value as char], 4))
  {
    Powers();
    NumberRead(['\\', 'x'], value, 16, 2, rest, 256);
    hide Digits, NumericEscape, Power;
  }

  lemma ShortRead(rune: nat, rest: string)
    requires rune < 0x10000 && IsScalar(rune)
    ensures Escaped(['\\', 'u'] + Digits(rune, 16, 4) + rest) == Some(Unit(EncodeRune(rune), 6))
  {
    Powers();
    NumberRead(['\\', 'u'], rune, 16, 4, rest, 0x110000);
    hide Digits, NumericEscape, Power, EncodeRune;
  }

  lemma LongRead(rune: nat, rest: string)
    requires IsScalar(rune)
    ensures Escaped(['\\', 'U'] + Digits(rune, 16, 8) + rest) == Some(Unit(EncodeRune(rune), 10))
  {
    Powers();
    NumberRead(['\\', 'U'], rune, 16, 8, rest, 0x110000);
    hide Digits, NumericEscape, Power, EncodeRune;
  }

  lemma NamedRead(letter: char, rest: string)
    requires letter in NAMES
    ensures Escaped(['\\', letter] + rest) == Some(Unit([NAMES[letter]], 2))
  {
    hide NumericEscape;
    assert (['\\', letter] + rest)[1] == letter;
  }

  /** One piece is read as one unit. */
  lemma PieceRead(p: Piece, rest: string)
    requires Proper(p)
    ensures Written(p) != "" && UnquoteChar(Written(p) + rest) == Some(Unit(Stands(p), |Written(p)|))
    ensures (Written(p) + rest)[0] != '"' && (Written(p) + rest)[0] != '\n'
  {
    hide Escaped, Digits, EncodeRune, RuneLength, IsScalar;
    var s := Written(p) + rest;
    match p
    case Plain(c) =>
    case Named(letter) => NamedRead(letter, rest);
    case Octal(value) => OctalRead(value, rest);
    case Hex(value) => HexRead(value, rest);
    case Short(rune) => ShortRead(rune, rest);
    case Long(rune) => LongRead(rune, rest);
    case Encoded(rune) =>
      RuneIsOne(rune, rest);
      assert s[0] == EncodeRune(rune)[0] && s[..|EncodeRune(rune)|] == EncodeRune(rune);
  }

  lemma {:induction false} PiecesRead(ps: seq<Piece>)
    requires AllProper(ps)
    ensures UnquoteRest(WrittenAll(ps) + "\"") == Some(StandsAll(ps))
  {
    hide Written, Stands, UnquoteChar, Proper;
    if ps != [] {
      var rest := WrittenAll(ps[1..]) + "\"";
      PieceRead(ps[0], rest);
      PiecesRead(ps[1..]);
      var w := Written(ps[0]);
      assert WrittenAll(ps) + "\"" == w + rest;
      assert (w + rest)[|w|..] == rest;
    }
  }

  /** A quoted text stands for what its pieces stand for: every escape of the notation, and UTF-8 as it is. */
  lemma QuotedPieces(ps: seq<Piece>)
    requires AllProper(ps)
    ensures Unquote("\"" + WrittenAll(ps) + "\"") == Some(StandsAll(ps))
  {
    hide WrittenAll, StandsAll, UnquoteRest;
    PiecesRead(ps);
    var s := "\"" + WrittenAll(ps) + "\"";
    assert s[1..] == WrittenAll(ps) + "\"";
  }

  // ---------- what is refused, and what is replaced ----------

  lemma {:induction false} AfterPieces(ps: seq<Piece>, tail: string)
    requires AllProper(ps)
    ensures UnquoteRest(WrittenAll(ps) + tail) == Prefixed(StandsAll(ps), UnquoteRest(tail))
  {
    hide Written, Stands, UnquoteChar, Proper;
    if ps == [] {
      assert "" + tail == tail;
      assert UnquoteRest(tail).Some? ==> "" + UnquoteRest(tail).value == UnquoteRest(tail).value;
    } else {
      var rest := WrittenAll(ps[1..]) + tail;
      PieceRead(ps[0], rest);
      AfterPieces(ps[1..], tail);
      var w := Written(ps[0]);
      assert WrittenAll(ps) + tail == w + rest;
      assert (w + rest)[|w|..] == rest;
      if UnquoteRest(tail).Some? {
        assert Stands(ps[0]) + (StandsAll(ps[1..]) + UnquoteRest(tail).value)
          == Stands(ps[0]) + StandsAll(ps[1..]) + UnquoteRest(tail).value;
      }
    }
  }

  /** The tail cannot be read: no closing quote, text after it, a bare line break, or an escape that is not one. */
  predicate BadTail(tail: string) {
    || tail == ""
    || (tail[0] == '"' && |tail| > 1)
    || tail[0] == '\n'
    || tail == "\\"
    || (|tail| >= 2 && tail[0] == '\\' && tail[1] !in NAMES && tail[1] !in {'x', 'u', 'U'} && !('0' <= tail[1] <= '7'))
  }

  /** Such a tail makes the whole text invalid, whatever comes before. */
  lemma QuotedRefused(ps: seq<Piece>, tail: string)
    requires AllProper(ps) && BadTail(tail)
    ensures Unquote("\"" + WrittenAll(ps) + tail).None?
  {
    hide WrittenAll, StandsAll, UnquoteRest, BadTail, Proper;
    AfterPieces(ps, tail);
    TailRefused(tail);
    var s := "\"" + WrittenAll(ps) + tail;
    assert s[1..] == WrittenAll(ps) + tail;
  }

  lemma TailRefused(tail: string)
    requires BadTail(tail)
    ensures UnquoteRest(tail).None?
  {
    hide NumericEscape;
  }

  /** A surrogate or a number beyond the last code point is no rune, and an octal number beyond a byte no byte. */
  lemma NumbersRefused(value: nat, rest: string)
    ensures 0xD800 <= value <= 0xDFFF ==> Escaped(['\\', 'u'] + Digits(value, 16, 4) + rest).None?
    ensures 0x10FFFF < value < 0x1_0000_0000 ==> Escaped(['\\', 'U'] + Digits(value, 16, 8) + rest).None?
    ensures 256 <= value < 512 ==> Escaped(['\\'] + Digits(value, 8, 3) + rest).None?
  {
    Powers();
    if 0xD800 <= value <= 0xDFFF {
      NumberRead(['\\', 'u'], value, 16, 4, rest, 0x110000);
    }
    if 0x10FFFF < value < 0x1_0000_0000 {
      NumberOver(['\\', 'U'], value, 16, 8, rest, 0x110000);
    }
    if 256 <= value < 512 {
      NumberOver(['\\'], value, 8, 3, rest, 256);
      OctalLeadOver(value);
      assert (['\\'] + Digits(value, 8, 3) + rest)[1] == Digits(value, 8, 3)[0];
    }
    hide Digits, NumericEscape, Power;
  }

  lemma OctalLeadOver(value: nat)
    requires 256 <= value < 512
    ensures '0' <= Digits(value, 8, 3)[0] <= '7'
  {
    assert Digits(value / 64, 8, 1) == Digits(value / 64 / 8, 8, 0) + [HexDigit(value / 64 % 8)];
    assert value / 8 / 8 == value / 64;
    assert Digits(value / 8, 8, 2)[0] == Digits(value / 64, 8, 1)[0];
    assert Digits(value, 8, 3)[0] == Digits(value / 8, 8, 2)[0];
  }

  lemma NumberOver(head: string, value: nat, base: nat, count: nat, rest: string, limit: nat)
    requires 2 <= base <= 16 && limit <= value < Power(base, count)
    ensures NumericEscape(head + Digits(value, base, count) + rest, count, base, |head|, limit).None?
  {
    var digits := Digits(value, base, count);
    var s := head + digits + rest;
    assert s[|head|..|head| + count] == digits;
    DigitsNumber(value, base, count);
    hide Number, Digits;
  }

  /** A byte that starts no well-formed rune is replaced by U+FFFD, and only that byte is. */
  lemma StrayReplaced(b: char, rest: string)
    requires b >= '\U{80}' && RuneLength([b] + rest) == 0
    ensures UnquoteRest([b] + rest) == Prefixed(EncodeRune(0xFFFD), UnquoteRest(rest))
  {
    hide RuneLength;
    assert ([b] + rest)[1..] == rest;
  }
}
