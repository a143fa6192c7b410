/**
 The replies of a Redis server and what the backend makes of them: whatever the server sends is read as it was meant,
 errors inside arrays included, and the answers of SET, ZCARD and ZRANGE are taken for what they are.
 */
module RespReplies {
  import opened Text
  import opened Decimal
  import opened Resp

  // ---------- what a server sends ----------

  datatype Sent =
    | Status(line: string)
    | Failure(line: string)
    | Number(n: int)
    | Content(bytes: string)
    | NoContent
    | NoItems
    | Items(items: seq<Sent>)

  function SignedItoa(n: int): string {
    if n < 0 then "-" + Itoa(-n) else Itoa(n)
  }

  function Print(x: Sent): string {
    match x
    case Status(line) => "+" + line + CRLF
    case Failure(line) => "-" + line + CRLF
    case Number(n) => ":" + SignedItoa(n) + CRLF
    case Content(bytes) => "$" + Itoa(|bytes|) + CRLF + bytes + CRLF
    case NoContent => "$-1" + CRLF
    case NoItems => "*-1" + CRLF
    case Items(items) => "*" + Itoa(|items|) + CRLF + PrintAll(items)
  }

  function PrintAll(items: seq<Sent>): string {
    if items == [] then "" else Print(items[0]) + PrintAll(items[1..])
  }

  /** Lines are one line; numbers and lengths have 64 bits. */
  predicate Sendable(x: Sent) {
    match x
    case Status(line) => '\n' !in line
    case Failure(line) => '\n' !in line
    case Number(n) => MIN_INT64 <= n <= MAX_INT64
    case Content(bytes) => |bytes| <= MAX_INT64
    case NoContent => true
    case NoItems => true
    case Items(items) => |items| <= MAX_INT64 && forall i :: 0 <= i < |items| ==> Sendable(items[i])
  }

  /** An error, or an array that has one in it at any depth. */
  predicate HasFailure(x: Sent) {
    match x
    case Failure(_) => true
    case Items(items) => exists i :: 0 <= i < |items| && HasFailure(items[i])
    case _ => false
  }

  /** The text that an item of an array is taken for. */
  function TextOf(x: Sent): string {
    match x
    case Status(line) => line
    case Content(bytes) => bytes
    case _ => ""
  }

  function Texts(items: seq<Sent>): seq<string> {
    seq(|items|, i requires 0 <= i < |items| => TextOf(items[i]))
  }

  function Meant(x: Sent): Reply {
    match x
    case Status(line) => Simple(line)
    case Failure(_) => NilBulk
    case Number(n) => Integer(n)
    case Content(bytes) => Bulk(bytes)
    case NoContent => NilBulk
    case NoItems => NilArray
    case Items(items) => Array(Texts(items))
  }

  // ---------- reading it ----------

  lemma SignedRoundTrip(n: int)
    requires MIN_INT64 <= n <= MAX_INT64
    ensures Atoi(SignedItoa(n)) == Some(n) && '\n' !in SignedItoa(n)
  {
    if n < 0 {
      DigitsValueOfItoa(-n);
      DigitsHaveNoLineFeed(Itoa(-n));
      assert SignedItoa(n)[1..] == Itoa(-n);
    } else {
      AtoiOfItoa(n);
      DigitsHaveNoLineFeed(Itoa(n));
    }
  }

  /** A reply is read by its first line, up to what follows it. */
  lemma FirstLine(kind: char, line: string, after: string)
    requires '\n' !in line
    ensures ReadReply([kind] + line + CRLF + after) == ReadBody(kind, line, after)
  {
    var s := [kind] + line + CRLF + after;
    assert s[0] == kind && s[1..] == line + CRLF + after;
    ReadLineOf(line, after);
  }

  lemma ReadsStatus(line: string, rest: string)
    requires '\n' !in line
    ensures ReadReply("+" + line + CRLF + rest) == Good(Simple(line), rest)
    ensures ReadReply("-" + line + CRLF + rest) == Bad
  {
    FirstLine('+', line, rest);
    FirstLine('-', line, rest);
    assert ['+'] == "+" && ['-'] == "-";
  }

  lemma ReadsNumber(n: int, rest: string)
    requires MIN_INT64 <= n <= MAX_INT64
    ensures ReadReply(":" + SignedItoa(n) + CRLF + rest) == Good(Integer(n), rest)
  {
    SignedRoundTrip(n);
    FirstLine(':', SignedItoa(n), rest);
    assert [':'] == ":";
    hide SignedItoa, Atoi;
  }

  lemma ReadsNil(rest: string)
    ensures ReadReply("$-1" + CRLF + rest) == Good(NilBulk, rest)
    ensures ReadReply("*-1" + CRLF + rest) == Good(NilArray, rest)
  {
    hide ReadItems, ReadBulk, ReadReply;
    MinusOne();
    FirstLine('$', "-1", rest);
    FirstLine('*', "-1", rest);
    assert ['$'] + "-1" == "$-1" && ['*'] + "-1" == "*-1";
  }

  lemma MinusOne()
    ensures Atoi("-1") == Some(-1) && '\n' !in "-1"
  {
    SignedRoundTrip(-1);
    assert SignedItoa(-1) == "-1";
  }

  lemma ReadsItems(n: nat, body: string)
    requires n <= MAX_INT64
    ensures ReadReply("*" + Itoa(n) + CRLF + body) == AsArray(ReadItems(n, body))
  {
    hide ReadItems, Itoa, Atoi;
    AtoiOfItoa(n);
    DigitsHaveNoLineFeed(Itoa(n));
    FirstLine('*', Itoa(n), body);
    assert ['*'] == "*";
  }

  /** What is read of one item, and then of the rest. */
  lemma ItemsNext(n: nat, s: string)
    requires n > 0
    ensures ReadItems(n, s) == match ReadReply(s)
      case Bad => Bad
      case Good(item, rest) => Prepend(item, ReadItems(n - 1, rest))
  {
    hide ReadReply;
  }

  lemma TextSeen(x: Sent)
    ensures !x.Failure? ==> ItemText(Meant(x)) == TextOf(x)
  {}

  /**
   Whatever the server sends is read back as it was meant, and the rest of the stream is left alone; an error, alone
   or inside an array, makes the whole read fail.
   */
  lemma {:induction false} ReplyRoundTrip(x: Sent, rest: string)
    requires Sendable(x)
    ensures ReadReply(Print(x) + rest) == if HasFailure(x) then Bad else Good(Meant(x), rest)
    decreases x, 1, 0
  {
    hide ReadReply, ReadItems, Itoa, SignedItoa;
    match x
    case Status(line) =>
      ReadsStatus(line, rest);
      assert Print(x) + rest == "+" + line + CRLF + rest;
    case Failure(line) =>
      ReadsStatus(line, rest);
      assert Print(x) + rest == "-" + line + CRLF + rest;
    case Number(n) =>
      ReadsNumber(n, rest);
      assert Print(x) + rest == ":" + SignedItoa(n) + CRLF + rest;
    case Content(bytes) =>
      ReadOfBulk(bytes, Print(x) + rest, rest);
    case NoContent => ReadsNil(rest);
    case NoItems => ReadsNil(rest);
    case Items(items) =>
      ItemsRoundTrip(x, items, rest);
      ReadsItems(|items|, PrintAll(items) + rest);
      var header := "*" + Itoa(|items|) + CRLF;
      assert header + PrintAll(items) + rest == header + (PrintAll(items) + rest);
  }

  lemma {:induction false} ItemsRoundTrip(x: Sent, items: seq<Sent>, rest: string)
    requires forall i :: 0 <= i < |items| ==> items[i] < x && Sendable(items[i])
    ensures ReadItems(|items|, PrintAll(items) + rest) ==
      if exists i :: 0 <= i < |items| && HasFailure(items[i]) then Bad
      else Good(Texts(items), rest)
    decreases x, 0, |items|
  {
    hide ReadReply, ReadItems, Print, Sendable, HasFailure, TextOf, Meant, ItemText;
    if items == [] {
      NoneRead(PrintAll(items) + rest);
      assert PrintAll(items) + rest == rest;
    } else {
      var tail := items[1..];
      var after := PrintAll(tail) + rest;
      assert PrintAll(items) + rest == Print(items[0]) + after;
      ReplyRoundTrip(items[0], after);
      ItemsRoundTrip(x, tail, rest);
      ItemsNext(|items|, PrintAll(items) + rest);
      assert forall i :: 0 < i < |items| ==> items[i] == tail[i - 1];
      assert (exists i :: 0 <= i < |items| && HasFailure(items[i])) <==>
        HasFailure(items[0]) || exists i :: 0 <= i < |tail| && HasFailure(tail[i]) by {
        if i :| 0 < i < |items| && HasFailure(items[i]) {
          assert HasFailure(tail[i - 1]);
        }
        if i :| 0 <= i < |tail| && HasFailure(tail[i]) {
          assert HasFailure(items[i + 1]);
        }
      }
      assert Texts(items) == [TextOf(items[0])] + Texts(tail);
      NotFailure(items[0]);
      TextSeen(items[0]);
    }
  }

  lemma NoneRead(s: string)
    ensures ReadItems(0, s) == Good([], s)
  {}

  lemma NotFailure(x: Sent)
    ensures !HasFailure(x) ==> !x.Failure?
  {}

  // ---------- what the backend makes of it ----------

  /** The answer to SET NX: refused, accepted, or an error. */
  function SetAnswer(p: Parsed<Reply>): Option<bool> {
    match p
    case Bad => None
    case Good(reply, _) =>
      if reply.NilBulk? || reply.NilArray? then Some(false)
      else if reply.Simple? && EqualFold(reply.value, "OK") then Some(true)
      else None
  }

  /** The answer to ZCARD, if it is a number. */
  function CountAnswer(p: Parsed<Reply>): Option<int> {
    match p
    case Bad => None
    case Good(reply, _) => if reply.Integer? then Some(reply.number) else None
  }

  /** The victims that ZRANGE names. */
  function VictimsAnswer(p: Parsed<Reply>): seq<string> {
    match p
    case Bad => []
    case Good(reply, _) => if reply.Array? then reply.values else []
  }

  /** A nil reply is a refusal, OK in any case is an acceptance, and everything else is an error. */
  lemma SetAnswered(x: Sent, rest: string)
    requires Sendable(x)
    ensures SetAnswer(ReadReply(Print(x) + rest)) == Some(false) <==> x.NoContent? || x.NoItems?
    ensures SetAnswer(ReadReply(Print(x) + rest)) == Some(true) <==> x.Status? && Lower(x.line) == "ok"
  {
    hide ReadReply, Print, Lower;
    ReplyRoundTrip(x, rest);
    OkWord();
  }

  lemma OkWord()
    ensures Lower("OK") == "ok"
  {}

  /** Only an integer reply is a count, and it is the count that was sent. */
  lemma CountAnswered(x: Sent, rest: string)
    requires Sendable(x)
    ensures forall n :: CountAnswer(ReadReply(Print(x) + rest)) == Some(n) <==> x == Number(n)
  {
    hide ReadReply, Print;
    ReplyRoundTrip(x, rest);
  }

  /** The members that the server lists are the victims, in its order; any other reply names none. */
  lemma VictimsAnswered(names: seq<string>, x: Sent, rest: string)
    requires Sendable(x)
    ensures x == Items(seq(|names|, i requires 0 <= i < |names| => Content(names[i]))) ==>
      VictimsAnswer(ReadReply(Print(x) + rest)) == names
    ensures !x.Items? ==> VictimsAnswer(ReadReply(Print(x) + rest)) == []
  {
    hide ReadReply, Print;
    ReplyRoundTrip(x, rest);
    if x == Items(seq(|names|, i requires 0 <= i < |names| => Content(names[i]))) {
      assert forall i :: 0 <= i < |names| ==> !HasFailure(x.items[i]) && TextOf(x.items[i]) == names[i];
    }
  }
}
