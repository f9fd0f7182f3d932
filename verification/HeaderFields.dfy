/** The header block of a frame: which of its fields gives the length. */
module HeaderFields {
  import opened Requests
  import opened Text
  import opened Decimal
  import opened LineReader
  import opened TransportTheorems

  predicate HasNoCr(s: string) {
    forall i | 0 <= i < |s| :: s[i] != '\r'
  }

  /** Fields with CR LF between them. */
  function Block(fields: seq<string>): string {
    if fields == [] then []
    else if |fields| == 1 then fields[0]
    else fields[0] + ("\r\n" + Block(fields[1..]))
  }

  /** The first length that a field gives, or -1. */
  function FirstLength(fields: seq<string>): int {
    if fields == [] then -1
    else if FieldLength(fields[0]).Some? then FieldLength(fields[0]).value
    else FirstLength(fields[1..])
  }

  lemma EndOfField(field: string, rest: string)
    requires HasNoCr(field)
    ensures Find(field, "\r\n", 0) == None
    ensures Find(field + ("\r\n" + rest), "\r\n", 0) == Some(|field|)
  {
    NoCrlfIn(field);
    CrlfBehind(field, field + ("\r\n" + rest));
  }

  lemma NoCrlfIn(field: string)
    requires HasNoCr(field)
    ensures Find(field, "\r\n", 0) == None
  {
    var p := Find(field, "\r\n", 0);
    if p.Some? { CrlfAt(field, "\r\n", p.value); }
  }

  lemma CrlfBehind(field: string, whole: string)
    requires HasNoCr(field) && |whole| >= |field| + 2 && whole[..|field|] == field
    requires whole[|field|] == '\r' && whole[|field| + 1] == '\n'
    ensures Find(whole, "\r\n", 0) == Some(|field|)
  {
    assert whole[|field|..|field| + 2] == "\r\n";
    assert OccursAt(whole, "\r\n", |field|);
    forall i | 0 <= i < |field| ensures whole[i] == field[i] { assert whole[..|field|][i] == whole[i]; }
    CrlfAt(whole, "\r\n", Find(whole, "\r\n", 0).value);
  }

  lemma NoFieldInNothing()
    ensures FieldLength([]) == None
  {
  }

  /** Whatever fields stand before and after it, the first length field decides; a
      block without one has none. */
  lemma {:induction false} ContentLengthIsFirst(fields: seq<string>)
    requires forall i | 0 <= i < |fields| :: HasNoCr(fields[i])
    ensures ContentLength(Block(fields)) == FirstLength(fields)
  {
    if fields == [] {
    } else if |fields| == 1 {
      EndOfField(fields[0], []);
      NoFieldInNothing();
      assert fields[0][..|fields[0]|] == fields[0];
    } else {
      var field, rest := fields[0], Block(fields[1..]);
      EndOfField(field, rest);
      ContentLengthIsFirst(fields[1..]);
      FirstOfBlock(field, rest);
    }
  }

  lemma FirstOfBlock(field: string, rest: string)
    requires HasNoCr(field)
    ensures ContentLength(field + ("\r\n" + rest)) ==
            if FieldLength(field).Some? then FieldLength(field).value else ContentLength(rest)
  {
    EndOfField(field, rest);
    var whole := field + ("\r\n" + rest);
    assert whole[..|field|] == field && whole[|field| + 2..] == rest;
  }

  predicate AllPadding(s: string) {
    forall i | 0 <= i < |s| :: s[i] == ' ' || s[i] == '\t'
  }

  lemma {:induction false} PaddingIsSkipped(pad: string, digits: string)
    requires AllPadding(pad) && digits != [] && digits[0] != ' ' && digits[0] != '\t'
    ensures TrimLeft(pad + digits) == digits
  {
    if pad == [] {
      assert pad + digits == digits;
    } else {
      assert (pad + digits)[1..] == pad[1..] + digits;
      PaddingIsSkipped(pad[1..], digits);
    }
  }

  lemma OneColon(s: string, i: nat)
    ensures OccursAt(s, ":", i) <==> i < |s| && s[i] == ':'
  {
    if i < |s| { assert s[i..i + 1] == [s[i]]; }
  }

  lemma FirstColonIs(s: string, p: nat)
    requires p < |s| && s[p] == ':' && forall i | 0 <= i < p :: s[i] != ':'
    ensures Find(s, ":", 0) == Some(p)
  {
    forall i: nat ensures OccursAt(s, ":", i) <==> i < |s| && s[i] == ':' { OneColon(s, i); }
  }

  lemma ColonAt(name: string, value: string)
    requires forall i | 0 <= i < |name| :: name[i] != ':'
    ensures Find(name + (":" + value), ":", 0) == Some(|name|)
  {
    FirstColonIs(name + (":" + value), |name|);
  }

  /** The length field in any spelling of its name and with any blanks before the
      number gives the number; a field of another name gives nothing. */
  lemma FieldGivesItsNumber(name: string, pad: string, n: nat)
    requires (forall i | 0 <= i < |name| :: name[i] != ':') && AllPadding(pad) && n < 0x8000_0000
    ensures FieldLength(name + (":" + (pad + ToString(n)))) == if IsLengthName(name) then Some(n) else None
  {
    var digits := ToString(n);
    ToStringDigits(n);
    ColonAt(name, pad + digits);
    NameAndValue(name, pad + digits);
    PaddingIsSkipped(pad, digits);
    AtoiOfToString(n);
  }

  lemma NameAndValue(name: string, value: string)
    ensures var field := name + (":" + value);
            field[..|name|] == name && field[|name| + 1..] == value
  {
  }

  lemma AnySpelling()
    ensures IsLengthName("Content-Length") && IsLengthName("content-length") && IsLengthName("CONTENT-LENGTH")
    ensures !IsLengthName("Content-Type") && !IsLengthName("Content_Length")
  {
    assert "Content_Length"[7] == '_' && NAME[7] == '-';
  }
}
