/**
 What a signature header is read as, in terms of its text: which headers are accepted, which parameters they have,
 and why the others are rejected.
 */
module HeaderLaws {
  import opened Text
  import opened SignatureHeader

  // ---------- one part ----------

  /** The part is `left=right` up to white space around it, split at the first equals sign. */
  ghost predicate Assigns(part: string, left: string, right: string) {
    Trim(part) == left + "=" + right && '=' !in left
  }

  /** The text after the equals sign stands for this value, with quotes or without. */
  ghost predicate Denotes(text: string, value: string) {
    text != "" && if text[0] == '"' then Unquote(text) == Some(value) else value == text
  }

  /** The part gives this parameter this value. */
  ghost predicate Reads(part: string, key: string, value: string) {
    key != "" && exists left, right :: Assigns(part, left, right) && Trim(left) == key && Denotes(Trim(right), value)
  }

  /** The part gives a parameter a quoted value that is not well formed. */
  ghost predicate Misquotes(part: string) {
    exists left, right ::
      && Assigns(part, left, right) && Trim(left) != ""
      && Trim(right) != "" && Trim(right)[0] == '"' && Unquote(Trim(right)).None?
  }

  lemma AssignsOnce(part: string, left: string, right: string)
    requires Assigns(part, left, right)
    ensures var p := Trim(part);
      IndexOf(p, '=') == |left| < |p| && p[..|left|] == left && p[|left| + 1..] == right
  {
    assert Trim(part) == left + ['='] + right;
    IndexOfIs(left, '=', right);
    hide Trim;
  }

  lemma SomeAssigns(part: string)
    ensures var p := Trim(part); var i := IndexOf(p, '=');
      i < |p| ==> Assigns(part, p[..i], p[i + 1..])
  {
    hide Trim, IndexOf;
    var p := Trim(part);
    var i := IndexOf(p, '=');
    assert i < |p| ==> p == p[..i] + [p[i]] + p[i + 1..];
  }

  /** How a part with these sides is parsed. */
  lemma ParsedSides(part: string, left: string, right: string)
    requires Assigns(part, left, right)
    ensures ParsePart(part) ==
      if left == "" then Malformed(InvalidHeader) else Assignment(Trim(left), Trim(right))
  {
    AssignsOnce(part, left, right);
    hide Trim, IndexOf, Assignment;
  }

  lemma ReadsParsed(part: string, key: string, value: string)
    requires Reads(part, key, value)
    ensures ParsePart(part) == Entry(key, value)
  {
    var left, right :| Assigns(part, left, right) && Trim(left) == key && Denotes(Trim(right), value);
    ParsedSides(part, left, right);
    hide ParsePart, Assigns, Unquote;
  }

  lemma MisquotesParsed(part: string)
    requires Misquotes(part)
    ensures ParsePart(part) == Malformed(InvalidQuoting)
  {
    var left, right :|
      && Assigns(part, left, right) && Trim(left) != ""
      && Trim(right) != "" && Trim(right)[0] == '"' && Unquote(Trim(right)).None?;
    ParsedSides(part, left, right);
    hide ParsePart, Assigns, Unquote;
  }

  lemma ParsedReads(part: string)
    ensures Trim(part) == "" <==> ParsePart(part) == Blank
    ensures ParsePart(part).Entry? ==> Reads(part, ParsePart(part).key, ParsePart(part).value)
    ensures ParsePart(part) == Malformed(InvalidQuoting) ==> Misquotes(part)
  {
    var p := Trim(part);
    var i := IndexOf(p, '=');
    if i < |p| {
      SomeAssigns(part);
      ParsedSides(part, p[..i], p[i + 1..]);
    }
    hide Trim, IndexOf, Unquote, Assigns;
  }

  /** A part is blank, or gives one parameter one value, or is refused, for its quotes or for its form. */
  lemma PartMeans(part: string)
    ensures ParsePart(part) == Blank <==> Trim(part) == ""
    ensures forall key, value :: ParsePart(part) == Entry(key, value) <==> Reads(part, key, value)
    ensures ParsePart(part) == Malformed(InvalidQuoting) <==> Misquotes(part)
    ensures ParsePart(part) == Malformed(InvalidHeader) <==>
      Trim(part) != "" && !Misquotes(part) && forall key, value :: !Reads(part, key, value)
  {
    hide ParsePart, Trim, Reads, Misquotes;
    ParsedReads(part);
    forall key, value | Reads(part, key, value) ensures ParsePart(part) == Entry(key, value) {
      ReadsParsed(part, key, value);
    }
    if Misquotes(part) {
      MisquotesParsed(part);
    }
    ParsedFault(part);
  }

  lemma ParsedFault(part: string)
    ensures ParsePart(part).Malformed? ==> ParsePart(part).fault in {InvalidHeader, InvalidQuoting}
  {
    hide Trim, IndexOf, Unquote;
  }

  // ---------- all the parts ----------

  ghost predicate Fine(part: string) {
    Trim(part) == "" || exists key, value :: Reads(part, key, value)
  }

  /** Part `i` is the last one that gives the parameter a value, and it gives it this one. */
  ghost predicate LastReads(parts: seq<string>, i: nat, key: string, value: string) {
    && i < |parts| && Reads(parts[i], key, value)
    && forall j, v :: i < j < |parts| ==> !Reads(parts[j], key, v)
  }

  /** The value that the parts give the parameter in the end. */
  ghost predicate Gives(parts: seq<string>, key: string, value: string) {
    exists i :: LastReads(parts, i, key, value)
  }

  ghost predicate Has(values: map<string, string>, key: string, value: string) {
    key in values && values[key] == value
  }

  /** The first part that is not fine. */
  ghost predicate FirstBad(parts: seq<string>, i: nat) {
    i < |parts| && !Fine(parts[i]) && forall j :: 0 <= j < i ==> Fine(parts[j])
  }

  /** A part that is refused, and for what: its quotes or its form. */
  ghost predicate RefusedFor(parts: seq<string>, i: nat, fault: Fault) {
    FirstBad(parts, i) && fault == if Misquotes(parts[i]) then InvalidQuoting else InvalidHeader
  }

  lemma FineParsed(part: string)
    ensures Fine(part) <==> !ParsePart(part).Malformed?
    ensures !Fine(part) ==> ParsePart(part) == Malformed(if Misquotes(part) then InvalidQuoting else InvalidHeader)
  {
    PartMeans(part);
    hide ParsePart, Trim, Reads, Misquotes;
  }

  lemma ReadsOnce(part: string, key: string, value: string, v: string)
    requires Reads(part, key, value) && Reads(part, key, v)
    ensures v == value
  {
    ReadsParsed(part, key, value);
    ReadsParsed(part, key, v);
    hide *;
  }

  lemma LastGrows(parts: seq<string>, part: string, i: nat, key: string, value: string)
    ensures LastReads(parts + [part], i, key, value) <==>
      if i == |parts| then Reads(part, key, value)
      else LastReads(parts, i, key, value) && forall v :: !Reads(part, key, v)
  {
    hide Reads;
    var all := parts + [part];
    if i < |parts| && LastReads(parts, i, key, value) && forall v :: !Reads(part, key, v) {
      forall j, v | i < j < |all| ensures !Reads(all[j], key, v) {
        assert all[j] == if j < |parts| then parts[j] else part;
      }
    }
    if i < |parts| && LastReads(all, i, key, value) {
      forall j, v | i < j < |parts| ensures !Reads(parts[j], key, v) {
        assert all[j] == parts[j];
      }
      assert all[|parts|] == part;
    }
  }

  /** What the parts are collected into. */
  ghost predicate Holds(parts: seq<string>, values: map<string, string>) {
    forall key, value :: Has(values, key, value) <==> Gives(parts, key, value)
  }

  lemma HoldsNext(parts: seq<string>, part: string, values: map<string, string>, p: Parameter)
    requires Holds(parts, values) && ParsePart(part) == p && !p.Malformed?
    ensures Holds(parts + [part], if p.Blank? then values else values[p.key := p.value])
  {
    PartMeans(part);
    hide ParsePart, Reads, Misquotes, Trim, LastReads;
    var after := if p.Blank? then values else values[p.key := p.value];
    forall key, value ensures Has(after, key, value) <==> Gives(parts + [part], key, value) {
      GivesNext(parts, part, key, value);
      assert Has(values, key, value) <==> Gives(parts, key, value);
      assert (exists v :: Reads(part, key, v)) <==> p.Entry? && p.key == key;
    }
  }

  lemma GivesNext(parts: seq<string>, part: string, key: string, value: string)
    ensures Gives(parts + [part], key, value) <==>
      Reads(part, key, value) || (Gives(parts, key, value) && forall v :: !Reads(part, key, v))
  {
    hide Reads, LastReads;
    forall i: nat
      ensures LastReads(parts + [part], i, key, value) <==>
        if i == |parts| then Reads(part, key, value)
        else LastReads(parts, i, key, value) && forall v :: !Reads(part, key, v)
    {
      LastGrows(parts, part, i, key, value);
    }
    BeyondTheEnd(parts, key, value);
  }

  lemma BeyondTheEnd(parts: seq<string>, key: string, value: string)
    ensures !LastReads(parts, |parts|, key, value)
  {}

  lemma {:induction false} CollectMeans(parts: seq<string>)
    ensures Collect(parts).Params? <==> forall i :: 0 <= i < |parts| ==> Fine(parts[i])
    ensures Collect(parts).Params? ==> Holds(parts, Collect(parts).values)
    ensures Collect(parts).Rejected? ==> exists i: nat :: RefusedFor(parts, i, Collect(parts).fault)
  {
    hide Fine, Misquotes, ParsePart, Holds;
    if parts == [] {
      NothingHolds();
    } else {
      var before, part := parts[..|parts| - 1], parts[|parts| - 1];
      assert parts == before + [part];
      CollectMeans(before);
      FineParsed(part);
      if Collect(before).Rejected? {
        var i: nat :| RefusedFor(before, i, Collect(before).fault);
        assert parts[i] == before[i] && RefusedFor(parts, i, Collect(parts).fault);
      } else if Fine(part) {
        HoldsNext(before, part, Collect(before).values, ParsePart(part));
      } else {
        assert RefusedFor(parts, |before|, Collect(parts).fault);
      }
    }
  }

  lemma NothingHolds()
    ensures Holds([], map[])
  {}

  // ---------- the header ----------

  /**
   A header is accepted exactly when it is not blank, each part between its commas is blank or gives a parameter a
   value, and some part gives `signature` one; a parameter then has the value that the last part with its key gives.
   */
  lemma HeaderAccepted(raw: string, parts: seq<string>)
    requires IsSplit(Trim(raw), parts)
    ensures ParseHeader(raw).Params? <==>
      && Trim(raw) != "" && (forall i :: 0 <= i < |parts| ==> Fine(parts[i]))
      && exists value :: Gives(parts, "signature", value)
    ensures ParseHeader(raw).Params? ==> Holds(parts, ParseHeader(raw).values)
  {
    SplitCharacterised(Trim(raw), parts);
    CollectMeans(parts);
    hide Trim, Split, IsSplit, Collect, Fine, Gives, FirstBad, Misquotes;
    var collected := Collect(Split(Trim(raw)));
    if collected.Params? {
      assert forall value :: Has(collected.values, "signature", value) <==> Gives(parts, "signature", value);
      assert "signature" in collected.values ==>
        Has(collected.values, "signature", collected.values["signature"]);
    }
  }

  /**
   Why a header is rejected: it is blank; or its first part that is not fine has bad quotes or a bad form; or all are
   fine and none gives a signature.
   */
  lemma HeaderRejected(raw: string, parts: seq<string>)
    requires IsSplit(Trim(raw), parts) && ParseHeader(raw).Rejected?
    ensures ParseHeader(raw).fault == MissingHeader <==> Trim(raw) == ""
    ensures Trim(raw) != "" ==>
      if exists i: nat :: FirstBad(parts, i) then exists i: nat :: RefusedFor(parts, i, ParseHeader(raw).fault)
      else ParseHeader(raw).fault == MissingSignature
  {
    SplitCharacterised(Trim(raw), parts);
    CollectMeans(parts);
    hide Trim, Split, IsSplit, Collect, Fine, LastReads, Misquotes, Holds;
  }
}
