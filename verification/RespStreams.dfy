/**
 How a stream of replies is read as its bytes arrive: more bytes do not change what has been read, an incomplete reply
 is an error, and line ends are taken leniently.
 */
module RespStreams {
  import opened Text
  import opened Decimal
  import opened Resp
  import opened RespReplies

  /** The same result, with more input left over. */
  predicate Extends<T(==)>(p: Parsed<T>, q: Parsed<T>, t: string) {
    p.Good? ==> q == Good(p.value, p.rest + t)
  }

  lemma LineExtends(s: string, t: string)
    ensures Extends(ReadLine(s), ReadLine(s + t), t)
  {
    var i := IndexOf(s, '\n');
    if i < |s| {
      assert s + t == s[..i] + [s[i]] + (s[i + 1..] + t);
      IndexOfIs(s[..i], '\n', s[i + 1..] + t);
      assert (s + t)[..i] == s[..i] && (s + t)[i + 1..] == s[i + 1..] + t;
    }
  }

  lemma BulkExtends(n: nat, s: string, t: string)
    ensures Extends(ReadBulk(n, s), ReadBulk(n, s + t), t)
  {
    if n <= |s| {
      LineExtends(s[n..], t);
      assert (s + t)[n..] == s[n..] + t && (s + t)[..n] == s[..n];
    }
  }

  lemma {:induction false} ItemsExtend(n: nat, s: string, t: string)
    ensures Extends(ReadItems(n, s), ReadItems(n, s + t), t)
    decreases |s|, 1
  {
    hide ReadReply, ReadItems;
    if n == 0 {
      NoneRead(s);
      NoneRead(s + t);
    } else {
      ItemsNext(n, s);
      ItemsNext(n, s + t);
      ReplyExtends(s, t);
      if ReadReply(s).Good? {
        ItemsExtend(n - 1, ReadReply(s).rest, t);
      }
    }
  }

  lemma {:induction false} BodyExtends(kind: char, payload: string, s: string, t: string)
    ensures Extends(ReadBody(kind, payload, s), ReadBody(kind, payload, s + t), t)
    decreases |s|, 2
  {
    hide ReadItems, ReadBulk, Atoi;
    var n := Atoi(payload);
    if n.Some? && n.value >= 0 {
      ItemsExtend(n.value, s, t);
      BulkExtends(n.value, s, t);
    }
  }

  /** What has been read stays read when more bytes arrive, which are left for the next read. */
  lemma {:induction false} ReplyExtends(s: string, t: string)
    ensures Extends(ReadReply(s), ReadReply(s + t), t)
    decreases |s|, 0
  {
    hide ReadBody, ReadLine;
    if s != "" && ReadLine(s[1..]).Good? {
      var line := ReadLine(s[1..]);
      LineExtends(s[1..], t);
      assert (s + t)[1..] == s[1..] + t && (s + t)[0] == s[0];
      BodyExtends(s[0], Payload(line.value), line.rest, t);
    }
  }

  /** A reply that is not there to its last byte is an error: nothing is taken for an answer before it is complete. */
  lemma Incomplete(x: Sent, cut: nat)
    requires Sendable(x) && cut < |Print(x)|
    ensures ReadReply(Print(x)[..cut]) == Bad
  {
    hide ReadReply, Print, HasFailure, Meant, Sendable;
    var s, t := Print(x)[..cut], Print(x)[cut..];
    ReplyExtends(s, t);
    ReplyRoundTrip(x, "");
    assert s + t == Print(x) == Print(x) + "";
  }

  // ---------- lenient line ends ----------

  /** A line may end without its carriage return. */
  lemma BareLine(kind: char, line: string, after: string)
    requires '\n' !in line && (line == "" || line[|line| - 1] != '\r')
    ensures ReadReply([kind] + line + "\n" + after) == ReadReply([kind] + line + CRLF + after)
  {
    hide ReadBody;
    FirstLine(kind, line, after);
    var s := [kind] + line + "\n" + after;
    assert s[0] == kind && s[1..] == line + ['\n'] + after;
    IndexOfIs(line, '\n', after);
    assert (line + ['\n'] + after)[..|line|] == line && (line + ['\n'] + after)[|line| + 1..] == after;
  }

  /** Whatever follows the bytes of a bulk string on their last line is dropped. */
  lemma TrailerDropped(data: string, trailer: string, rest: string)
    requires |data| <= MAX_INT64 && '\n' !in trailer
    ensures ReadReply("$" + Itoa(|data|) + CRLF + data + trailer + "\n" + rest) == Good(Bulk(data), rest)
  {
    var body := data + trailer + "\n" + rest;
    var s := "$" + Itoa(|data|) + CRLF + data + trailer + "\n" + rest;
    assert s == ['$'] + Itoa(|data|) + CRLF + body;
    ReadHeaded(s, '$', |data|, body);
    assert body[..|data|] == data && body[|data|..] == trailer + ['\n'] + rest;
    IndexOfIs(trailer, '\n', rest);
    assert (trailer + ['\n'] + rest)[|trailer| + 1..] == rest;
    hide Itoa, ReadItems;
  }

  /** A first byte of another kind is an error, and so is a number or a length that is none. */
  lemma NotAReply(kind: char, line: string, after: string)
    requires '\n' !in line
    ensures kind !in {'+', '-', ':', '$', '*'} ==> ReadReply([kind] + line + CRLF + after) == Bad
    ensures kind in {':', '$', '*'} && Atoi(line).None? ==> ReadReply([kind] + line + CRLF + after) == Bad
  {
    FirstLine(kind, line, after);
    hide ReadItems, ReadBulk, ReadReply, Atoi;
  }
}
