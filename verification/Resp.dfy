/**
 The Redis wire format as the backend writes and reads it: commands as arrays of bulk strings, replies as
 simple strings, errors, integers, bulk strings and arrays (RESP2, "Bulk strings" and "Arrays").
 */
module Resp {
  import opened Text
  import opened Decimal

  const CRLF := "\r\n"

  // ---------- writing ----------

  function EncodeBulk(data: string): string {
    "$" + Itoa(|data|) + CRLF + data + CRLF
  }

  function EncodeBulks(args: seq<string>): string {
    if args == [] then "" else EncodeBulk(Trim(args[0])) + EncodeBulks(args[1..])
  }

  /** What `writeArrayCommand` puts on the wire. */
  function Encode(args: seq<string>): string {
    "*" + Itoa(|args|) + CRLF + EncodeBulks(args)
  }

  lemma {:induction false} EncodeBulksLast(args: seq<string>, arg: string)
    ensures EncodeBulks(args + [arg]) == EncodeBulks(args) + EncodeBulk(Trim(arg))
  {
    if args != [] {
      assert (args + [arg])[1..] == args[1..] + [arg];
      EncodeBulksLast(args[1..], arg);
    } else {
      assert ([] + [arg])[1..] == [];
    }
  }

  lemma Reassociate(a: string, b: string, c: string, d: string)
    ensures a + (b + c) + d == a + (b + (c + d))
  {}

  class Writer {
    var written: string

    method WriteArrayCommand(args: seq<string>)
      modifies this
      ensures written == old(written) + Encode(args)
    {
      var header := "*" + Itoa(|args|) + CRLF;
      written := written + header;
      var i := 0;
      while i < |args|
        invariant 0 <= i <= |args|
        invariant written == old(written) + (header + EncodeBulks(args[..i]))
      {
        hide *;
        var normalized := Trim(args[i]);
        ghost var before := EncodeBulks(args[..i]);
        EncodeBulksLast(args[..i], args[i]);
        assert args[..i + 1] == args[..i] + [args[i]];
        written := written + EncodeBulk(normalized);
        Reassociate(old(written), header, before, EncodeBulk(normalized));
        i := i + 1;
      }
      assert args[..i] == args;
    }
  }

  // ---------- reading, on values ----------

  datatype Reply =
    | Simple(value: string)
    | Integer(number: int)
    | Bulk(value: string)
    | NilBulk
    | Array(values: seq<string>)
    | NilArray

  /** A reply and the bytes after it, or an error. */
  datatype Parsed<T> = Bad | Good(value: T, rest: string)

  /** ReadString('\n'): the bytes before the line feed. */
  function ReadLine(s: string): (p: Parsed<string>)
    ensures p.Good? ==> |p.rest| < |s|
  {
    var i := IndexOf(s, '\n');
    if i == |s| then Bad else Good(s[..i], s[i + 1..])
  }

  /** The line without its line ending. */
  function Payload(line: string): string {
    if line != "" && line[|line| - 1] == '\r' then line[..|line| - 1] else line
  }

  /** The text that stands for an array item. */
  function ItemText(r: Reply): string {
    match r
    case Simple(v) => v
    case Bulk(v) => v
    case _ => ""
  }

  /** `readReply`. A successful read leaves less than it was given. */
  function ReadReply(s: string): (p: Parsed<Reply>)
    ensures p.Good? ==> |p.rest| < |s|
    decreases |s|, 0
  {
    if s == "" then Bad
    else
      match ReadLine(s[1..])
      case Bad => Bad
      case Good(line, rest) => ReadBody(s[0], Payload(line), rest)
  }

  /** What follows the first line of a reply. An error reply is reported as an error. */
  function ReadBody(kind: char, payload: string, s: string): (p: Parsed<Reply>)
    ensures p.Good? ==> |p.rest| <= |s|
    decreases |s|, 2
  {
    if kind == '+' then Good(Simple(payload), s)
    else if kind != ':' && kind != '$' && kind != '*' then Bad
    else
      match Atoi(payload)
      case None => Bad
      case Some(n) =>
        if kind == ':' then Good(Integer(n), s)
        else if n < 0 then Good(if kind == '$' then NilBulk else NilArray, s)
        else if kind == '$' then ReadBulk(n, s)
        else AsArray(ReadItems(n, s))
  }

  function AsArray(p: Parsed<seq<string>>): Parsed<Reply> {
    match p
    case Bad => Bad
    case Good(items, rest) => Good(Array(items), rest)
  }

  function Prepend(item: Reply, p: Parsed<seq<string>>): Parsed<seq<string>> {
    match p
    case Bad => Bad
    case Good(items, rest) => Good([ItemText(item)] + items, rest)
  }

  /** `n` bytes of data, then everything up to the next line feed. */
  function ReadBulk(n: nat, s: string): (p: Parsed<Reply>)
    ensures p.Good? ==> |p.rest| < |s|
  {
    if |s| < n then Bad
    else
      match ReadLine(s[n..])
      case Bad => Bad
      case Good(_, rest) => Good(Bulk(s[..n]), rest)
  }

  function ReadItems(n: nat, s: string): (p: Parsed<seq<string>>)
    ensures p.Good? ==> |p.rest| <= |s| && |p.value| == n
    decreases |s|, 1
  {
    if n == 0 then Good([], s)
    else
      match ReadReply(s)
      case Bad => Bad
      case Good(item, rest) => Prepend(item, ReadItems(n - 1, rest))
  }

  // ---------- a read takes a prefix ----------

  predicate Suffix(t: string, s: string) {
    |t| <= |s| && t == s[|s| - |t|..]
  }

  lemma SuffixTrans(a: string, b: string, c: string)
    requires Suffix(a, b) && Suffix(b, c)
    ensures Suffix(a, c)
  {}

  lemma ReadLineSuffix(s: string)
    ensures ReadLine(s).Good? ==> Suffix(ReadLine(s).rest, s)
  {}

  /** A successful read consumes a non-empty prefix of the stream and nothing else. */
  lemma {:induction false} ReadTakesPrefix(s: string)
    ensures ReadReply(s).Good? ==> |ReadReply(s).rest| < |s| && Suffix(ReadReply(s).rest, s)
    decreases |s|, 0
  {
    if s != "" && ReadReply(s).Good? {
      ReadLineSuffix(s[1..]);
      var line := ReadLine(s[1..]);
      BodyTakesPrefix(s[0], Payload(line.value), line.rest);
      SuffixTrans(line.rest, s[1..], s);
      SuffixTrans(ReadReply(s).rest, line.rest, s);
    }
  }

  lemma {:induction false} BodyTakesPrefix(kind: char, payload: string, s: string)
    ensures ReadBody(kind, payload, s).Good? ==> Suffix(ReadBody(kind, payload, s).rest, s)
    decreases |s|, 2
  {
    var n := Atoi(payload);
    if n.Some? && n.value >= 0 {
      ItemsTakePrefix(n.value, s);
      BulkTakesPrefix(n.value, s);
    }
  }

  lemma BulkTakesPrefix(n: nat, s: string)
    ensures ReadBulk(n, s).Good? ==> Suffix(ReadBulk(n, s).rest, s)
  {
    if n <= |s| {
      ReadLineSuffix(s[n..]);
    }
  }

  lemma {:induction false} ItemsTakePrefix(n: nat, s: string)
    ensures ReadItems(n, s).Good? ==> Suffix(ReadItems(n, s).rest, s)
    decreases |s|, 1
  {
    hide *;
    FirstItem(n, s);
    if n > 0 && ReadItems(n, s).Good? {
      var rest := ReadReply(s).rest;
      ReadTakesPrefix(s);
      ItemsTakePrefix(n - 1, rest);
      SuffixTrans(ReadItems(n - 1, rest).rest, rest, s);
    }
  }

  lemma FirstItem(n: nat, s: string)
    ensures n == 0 && ReadItems(n, s).Good? ==> Suffix(ReadItems(n, s).rest, s)
    ensures n > 0 && ReadItems(n, s).Good? ==>
      && ReadReply(s).Good? && ReadItems(n - 1, ReadReply(s).rest).Good?
      && ReadItems(n, s).rest == ReadItems(n - 1, ReadReply(s).rest).rest
  {}

  // ---------- the round trip ----------

  lemma ReadLineOf(text: string, rest: string)
    requires '\n' !in text
    ensures ReadLine(text + CRLF + rest) == Good(text + "\r", rest)
    ensures Payload(text + "\r") == text
  {
    var line := text + "\r";
    assert text + CRLF + rest == line + ['\n'] + rest;
    IndexOfIs(line, '\n', rest);
    assert (line + ['\n'] + rest)[..|line|] == line;
    assert (line + ['\n'] + rest)[|line| + 1..] == rest;
  }

  lemma DigitsHaveNoLineFeed(s: string)
    requires AllDigits(s)
    ensures '\n' !in s
  {}

  lemma ReadHeader(s: string, kind: char, n: nat, rest: string)
    requires n <= MAX_INT64 && s == [kind] + Itoa(n) + CRLF + rest
    ensures s[0] == kind && ReadLine(s[1..]) == Good(Itoa(n) + "\r", rest)
    ensures Payload(Itoa(n) + "\r") == Itoa(n) && Atoi(Itoa(n)) == Some(n)
  {
    assert s[1..] == Itoa(n) + CRLF + rest;
    DigitsHaveNoLineFeed(Itoa(n));
    ReadLineOf(Itoa(n), rest);
    AtoiOfItoa(n);
  }

  lemma ReadHeaded(s: string, kind: char, n: nat, body: string)
    requires n <= MAX_INT64 && s == [kind] + Itoa(n) + CRLF + body
    ensures ReadReply(s) == ReadBody(kind, Itoa(n), body) && Atoi(Itoa(n)) == Some(n)
  {
    ReadHeader(s, kind, n, body);
  }

  lemma ReadBulkOf(data: string, body: string, rest: string)
    requires body == data + CRLF + rest
    ensures ReadBulk(|data|, body) == Good(Bulk(data), rest)
  {
    assert body[..|data|] == data;
    assert body[|data|..] == "" + CRLF + rest;
    ReadLineOf("", rest);
  }

  /** A bulk string of any bytes, line feeds included, is read back whole. */
  lemma ReadOfBulk(data: string, s: string, rest: string)
    requires |data| <= MAX_INT64 && s == EncodeBulk(data) + rest
    ensures ReadReply(s) == Good(Bulk(data), rest)
  {
    var body := data + CRLF + rest;
    assert s == ['$'] + Itoa(|data|) + CRLF + body;
    ReadHeaded(s, '$', |data|, body);
    ReadBulkOf(data, body, rest);
  }

  predicate Writable(args: seq<string>) {
    |args| <= MAX_INT64 && forall i :: 0 <= i < |args| ==> |Trim(args[i])| <= MAX_INT64
  }

  function Trimmed(args: seq<string>): seq<string> {
    seq(|args|, i requires 0 <= i < |args| => Trim(args[i]))
  }

  lemma EncodeBulksCons(args: seq<string>, s: string, rest: string) returns (tail: string)
    requires args != [] && s == EncodeBulks(args) + rest
    ensures tail == EncodeBulks(args[1..]) + rest && s == EncodeBulk(Trim(args[0])) + tail
  {
    var head, more := EncodeBulk(Trim(args[0])), EncodeBulks(args[1..]);
    tail := more + rest;
    assert head + more + rest == head + tail;
  }

  lemma ReadItemsCons(n: nat, s: string, data: string, tail: string, items: seq<string>, rest: string)
    requires n > 0 && ReadReply(s) == Good(Bulk(data), tail) && ReadItems(n - 1, tail) == Good(items, rest)
    ensures ReadItems(n, s) == Good([data] + items, rest)
  {}

  lemma {:induction false} ReadOfItems(args: seq<string>, s: string, rest: string)
    requires forall i :: 0 <= i < |args| ==> |Trim(args[i])| <= MAX_INT64
    requires s == EncodeBulks(args) + rest
    ensures ReadItems(|args|, s) == Good(Trimmed(args), rest)
  {
    hide ReadReply, ReadItems, EncodeBulks, EncodeBulk, Trimmed, Trim;
    TrimmedCons(args);
    if args == [] {
      NoItems(s, rest);
    } else {
      var data := Trim(args[0]);
      var tail := EncodeBulksCons(args, s, rest);
      ReadOfBulk(data, s, tail);
      ReadOfItems(args[1..], tail, rest);
      ReadItemsCons(|args|, s, data, tail, Trimmed(args[1..]), rest);
    }
  }

  lemma NoItems(s: string, rest: string)
    requires s == EncodeBulks([]) + rest
    ensures ReadItems(0, s) == Good([], rest)
  {
    assert s == rest;
  }

  lemma TrimmedCons(args: seq<string>)
    ensures Trimmed(args) == if args == [] then [] else [Trim(args[0])] + Trimmed(args[1..])
  {
    hide Trim;
  }

  lemma ReadArrayOf(s: string, n: nat, body: string, items: seq<string>, rest: string)
    requires n <= MAX_INT64 && s == ['*'] + Itoa(n) + CRLF + body && ReadItems(n, body) == Good(items, rest)
    ensures ReadReply(s) == Good(Array(items), rest)
  {
    ReadHeaded(s, '*', n, body);
  }

  /** Reading what a command writer wrote gives the trimmed arguments and leaves the rest of the stream alone. */
  lemma RoundTrip(args: seq<string>, rest: string)
    requires Writable(args)
    ensures ReadReply(Encode(args) + rest) == Good(Array(Trimmed(args)), rest)
  {
    hide ReadReply, ReadItems, EncodeBulks;
    var bulks := EncodeBulks(args);
    var body := bulks + rest;
    ReadOfItems(args, body, rest);
    var s := Encode(args) + rest;
    var header := "*" + Itoa(|args|) + CRLF;
    assert header + bulks + rest == header + body;
    ReadArrayOf(s, |args|, body, Trimmed(args), rest);
  }

  function EncodeAll(commands: seq<seq<string>>): string {
    if commands == [] then "" else Encode(commands[0]) + EncodeAll(commands[1..])
  }

  /**
   The encoding is a code: no stream of commands is written in two ways. Commands that differ after trimming
   are told apart, whatever bytes their arguments hold and however many follow on the same connection.
   */
  lemma {:induction false} StreamsAreUnique(a: seq<seq<string>>, b: seq<seq<string>>)
    requires (forall i :: 0 <= i < |a| ==> Writable(a[i])) && (forall i :: 0 <= i < |b| ==> Writable(b[i]))
    requires EncodeAll(a) == EncodeAll(b)
    ensures |a| == |b| && forall i :: 0 <= i < |a| ==> Trimmed(a[i]) == Trimmed(b[i])
  {
    if a != [] && b != [] {
      RoundTrip(a[0], EncodeAll(a[1..]));
      RoundTrip(b[0], EncodeAll(b[1..]));
      StreamsAreUnique(a[1..], b[1..]);
      assert forall i :: 1 <= i < |a| ==> a[i] == a[1..][i - 1] && b[i] == b[1..][i - 1];
    }
  }

  // ---------- reading, as the program does it ----------

  /** A result and what is left to read; after an error nothing more is said about the stream. */
  function Taken<T>(r: Option<T>, rest: string): Parsed<T> {
    if r.None? then Bad else Good(r.value, rest)
  }

  /** A buffered reader over a finite stream. */
  class Reader {
    const stream: string
    var pos: nat

    ghost predicate Valid()
      reads this
    {
      pos <= |stream|
    }

    function Rest(): string
      requires Valid()
      reads this
    {
      stream[pos..]
    }

    constructor (stream: string)
      ensures Valid() && this.stream == stream && Rest() == stream
    {
      this.stream, pos := stream, 0;
    }

    method ReadByte() returns (b: Option<char>)
      requires Valid()
      modifies this
      ensures Valid()
      ensures if old(Rest()) == "" then b.None? else b == Some(old(Rest())[0]) && Rest() == old(Rest())[1..]
    {
      if pos == |stream| {
        return None;
      }
      b := Some(stream[pos]);
      pos := pos + 1;
    }

    method ReadString() returns (line: Option<string>)
      requires Valid()
      modifies this
      ensures Valid()
      ensures ReadLine(old(Rest())) == Taken(line, Rest())
    {
      var n := IndexOf(Rest(), '\n');
      if n == |Rest()| {
        pos := |stream|;
        return None;
      }
      line := Some(Rest()[..n]);
      pos := pos + n + 1;
    }

    method ReadFull(n: nat) returns (data: Option<string>)
      requires Valid()
      modifies this
      ensures Valid()
      ensures if |old(Rest())| < n then data.None?
              else data == Some(old(Rest())[..n]) && Rest() == old(Rest())[n..]
    {
      if |Rest()| < n {
        pos := |stream|;
        return None;
      }
      data := Some(Rest()[..n]);
      pos := pos + n;
    }

    /** `readReply`; `None` stands for every error. */
    method Read() returns (r: Option<Reply>)
      requires Valid()
      modifies this
      ensures Valid()
      ensures ReadReply(old(Rest())) == Taken(r, Rest())
      decreases |Rest()|, 0
    {
      var first := ReadByte();
      if first.None? {
        return None;
      }
      var line := ReadString();
      if line.None? {
        return None;
      }
      var payload := Payload(line.value);
      assert ReadReply(old(Rest())) == ReadBody(first.value, payload, Rest());
      if first.value == '+' {
        return Some(Simple(payload));
      }
      if first.value != ':' && first.value != '$' && first.value != '*' {
        return None;
      }
      var number := Atoi(payload);
      if number.None? {
        return None;
      }
      if first.value == ':' {
        return Some(Integer(number.value));
      }
      if number.value < 0 {
        return Some(if first.value == '$' then NilBulk else NilArray);
      }
      if first.value == '$' {
        r := ReadBulkBody(number.value);
      } else {
        r := ReadArrayBody(number.value);
      }
    }

    method ReadBulkBody(n: nat) returns (r: Option<Reply>)
      requires Valid()
      modifies this
      ensures Valid()
      ensures ReadBulk(n, old(Rest())) == Taken(r, Rest())
    {
      var data := ReadFull(n);
      if data.None? {
        return None;
      }
      var end := ReadString();
      if end.None? {
        return None;
      }
      return Some(Bulk(data.value));
    }

    /** The loop over the items of an array. */
    method ReadArrayBody(n: nat) returns (r: Option<Reply>)
      requires Valid()
      modifies this
      ensures Valid()
      ensures AsArray(ReadItems(n, old(Rest()))) == Taken(r, Rest())
      decreases |Rest()|, 1
    {
      hide ReadItems, ReadReply;
      var items: seq<string> := [];
      AppendNothing(ReadItems(n, Rest()));
      while |items| < n
        invariant Valid() && |items| <= n && |Rest()| <= |old(Rest())|
        invariant ReadItems(n, old(Rest())) == Append(items, ReadItems(n - |items|, Rest()))
        decreases n - |items|
      {
        ghost var before := Rest();
        var item := Read();
        OneItem(items, n - |items|, before, item, Rest());
        if item.None? {
          return None;
        }
        items := items + [ItemText(item.value)];
      }
      NoMoreItems(items, Rest());
      return Some(Array(items));
    }
  }

  /** The items read so far, followed by those still to be read. */
  function Append(items: seq<string>, p: Parsed<seq<string>>): Parsed<seq<string>> {
    match p
    case Bad => Bad
    case Good(more, rest) => Good(items + more, rest)
  }

  lemma AppendNothing(p: Parsed<seq<string>>)
    ensures Append([], p) == p
  {
    if p.Good? {
      assert [] + p.value == p.value;
    }
  }

  lemma NoMoreItems(items: seq<string>, s: string)
    ensures Append(items, ReadItems(0, s)) == Good(items, s)
  {
    assert items + [] == items;
  }

  /** One turn of the loop: an error ends the array, an item joins the items read so far. */
  lemma OneItem(items: seq<string>, n: nat, s: string, item: Option<Reply>, rest: string)
    requires n > 0 && ReadReply(s) == Taken(item, rest)
    ensures item.None? ==> Append(items, ReadItems(n, s)) == Bad
    ensures item.Some? ==>
      |rest| < |s| && Append(items, ReadItems(n, s)) == Append(items + [ItemText(item.value)], ReadItems(n - 1, rest))
  {
    if item.Some? {
      AppendPrepend(items, item.value, ReadItems(n - 1, rest));
    }
  }

  lemma AppendPrepend(items: seq<string>, item: Reply, p: Parsed<seq<string>>)
    ensures Append(items, Prepend(item, p)) == Append(items + [ItemText(item)], p)
  {
    if p.Good? {
      assert items + ([ItemText(item)] + p.value) == items + [ItemText(item)] + p.value;
    }
  }
}
