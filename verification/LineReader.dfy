/** The reader of both transports: newline-delimited lines with a "known to hold
    no newline" prefix, and Content-Length frames. */
module LineReader {
  import opened Requests
  import opened Text
  import opened Decimal

  const MAX_BUFFERED: nat := 64 * 1024 * 1024
  const PREFIX := "Content-Length:"
  const NAME := "content-length"

  datatype Read = Data(chunk: string) | EndOfFile | Interrupted | WouldBlock | Failed

  datatype Reader = Reader(buf: string, scanned: nat, eof: bool, framed: bool,
                           detected: bool, overflowed: bool)

  const Initial := Reader([], 0, false, false, false, false)

  // ---- fill --------------------------------------------------------------------

  /** Takes what the descriptor delivers; false at its end, on an error, or when
      the buffer would exceed its bound (the chunk is then not taken). */
  function Fill(r: Reader, results: seq<Read>): (Reader, bool)
    decreases |results|
  {
    if results == [] then (r, true)
    else match results[0]
         case Data(chunk) =>
           if |r.buf| + |chunk| > MAX_BUFFERED then (r.(overflowed := true, eof := true), false)
           else Fill(r.(buf := r.buf + chunk), results[1..])
         case EndOfFile => (r.(eof := true), false)
         case Interrupted => Fill(r, results[1..])
         case WouldBlock => (r, true)
         case Failed => (r.(eof := true), false)
  }

  // ---- mode detection -----------------------------------------------------------

  predicate IsBlank(c: char) {
    c == ' ' || c == '\t' || c == '\r' || c == '\n'
  }

  function Blanks(s: string): (n: nat)
    ensures n <= |s| && (n < |s| ==> !IsBlank(s[n]))
    ensures forall i | 0 <= i < n :: IsBlank(s[i])
  {
    if s != [] && IsBlank(s[0]) then 1 + Blanks(s[1..]) else 0
  }

  datatype Mode = Undecided | Newline | Framed

  /** What the bytes seen so far say about the transport. */
  function ModeOf(s: string): Mode {
    var i := Blanks(s);
    if i == |s| then Undecided
    else if OccursAt(s, PREFIX, i) then Framed
    else Newline
  }

  function Detect(r: Reader): Reader {
    if r.detected || ModeOf(r.buf).Undecided? then r
    else r.(detected := true, framed := ModeOf(r.buf).Framed? || r.framed)
  }

  // ---- newline mode --------------------------------------------------------------

  function TrimCr(line: string): string {
    if line != [] && line[|line| - 1] == '\r' then line[..|line| - 1] else line
  }

  /** The complete lines of a text, without their LF and one CR before it. */
  function Lines(s: string): seq<string>
    decreases |s|
  {
    match Find(s, "\n", 0)
    case None => []
    case Some(p) => [TrimCr(s[..p])] + Lines(s[p + 1..])
  }

  /** What follows the last LF. */
  function Tail(s: string): string
    decreases |s|
  {
    match Find(s, "\n", 0)
    case None => s
    case Some(p) => Tail(s[p + 1..])
  }

  function AtLeastZero(n: int): nat {
    if n > 0 then n else 0
  }

  function HasNewline(r: Reader): (Reader, bool) {
    if Find(r.buf, "\n", r.scanned).None? then (r.(scanned := |r.buf|), false) else (r, true)
  }

  function GetNewline(r: Reader): (Reader, Option<string>) {
    match Find(r.buf, "\n", r.scanned)
    case None => (r.(scanned := |r.buf|), None)
    case Some(p) =>
      (r.(buf := r.buf[p + 1..], scanned := AtLeastZero(r.scanned - (p + 1))),
       Some(TrimCr(r.buf[..p])))
  }

  // ---- framed mode ----------------------------------------------------------------

  function Lower(c: char): char {
    if 'A' <= c <= 'Z' then c + ' ' else c
  }

  predicate IsLengthName(name: string) {
    |name| == 14 && forall i | 0 <= i < 14 :: Lower(name[i]) == NAME[i]
  }

  function TrimLeft(s: string): string {
    if s != [] && (s[0] == ' ' || s[0] == '\t') then TrimLeft(s[1..]) else s
  }

  /** The length a header field carries, if it is the length field. */
  function FieldLength(field: string): Option<int> {
    match Find(field, ":", 0)
    case None => None
    case Some(colon) =>
      if !IsLengthName(field[..colon]) then None
      else var val := field[colon + 1..];
           Some(Atoi(if TrimLeft(val) == [] then val else TrimLeft(val)))
  }

  /** The first length field of a header block, or -1. */
  function ContentLength(hdr: string): int
    decreases |hdr|
  {
    if hdr == [] then -1
    else
      var eol := if Find(hdr, "\r\n", 0).Some? then Find(hdr, "\r\n", 0).value else |hdr|;
      match FieldLength(hdr[..eol])
      case Some(n) => n
      case None => if eol + 2 <= |hdr| then ContentLength(hdr[eol + 2..]) else -1
  }

  datatype Frame = NoHeader | Malformed(headerEnd: nat) | Incomplete | Complete(body: nat, len: nat)

  function NextFrame(buf: string): (f: Frame)
    ensures f.Complete? ==> f.body + f.len <= |buf|
    ensures f.Malformed? ==> f.headerEnd <= |buf|
  {
    match Find(buf, "\r\n\r\n", 0)
    case None => NoHeader
    case Some(p) =>
      var n := ContentLength(buf[..p]);
      if n < 0 then Malformed(p + 4)
      else if |buf| < p + 4 + n then Incomplete
      else Complete(p + 4, n)
  }

  function GetFramed(r: Reader): (Reader, Option<string>) {
    match NextFrame(r.buf)
    case Malformed(end) => (r.(buf := r.buf[end..]), None)
    case Complete(body, len) => (r.(buf := r.buf[body + len..]), Some(r.buf[body..body + len]))
    case _ => (r, None)
  }

  // ---- has_line / get_line ---------------------------------------------------------

  function HasLine(r: Reader): (Reader, bool) {
    var d := Detect(r);
    if d.framed then (d, NextFrame(d.buf).Complete?) else HasNewline(d)
  }

  function GetLine(r: Reader): (Reader, Option<string>) {
    var d := Detect(r);
    if d.framed then GetFramed(d) else GetNewline(d)
  }

  /** What the server writes: the other side of the same framing. */
  function Message(framed: bool, body: string): string {
    if framed then Header(body) + "\r\n\r\n" + body else body + "\n"
  }

  function Header(body: string): string {
    "Content-Length: " + ToString(|body|)
  }

  // ---- The object -------------------------------------------------------------------

  class LineSource {
    var buf: string
    var scanned: nat
    var eof: bool
    var framed: bool
    var detected: bool
    var overflowed: bool

    ghost function Now(): Reader
      reads this
    {
      Reader(buf, scanned, eof, framed, detected, overflowed)
    }

    constructor ()
      ensures Now() == Initial
    {
      buf, scanned, eof, framed, detected, overflowed := [], 0, false, false, false, false;
    }

    /** Reads until the descriptor has no more for now. */
    method FillFrom(results: seq<Read>) returns (more: bool)
      modifies this
      ensures (Now(), more) == Fill(old(Now()), results)
    {
      var n := 0;
      assert results[0..] == results;
      while n < |results|
        invariant 0 <= n <= |results|
        invariant Fill(Now(), results[n..]) == Fill(old(Now()), results)
      {
        var result := results[n];
        assert results[n..][1..] == results[n + 1..];
        n := n + 1;
        match result {
          case Data(chunk) =>
            if |buf| + |chunk| > MAX_BUFFERED {
              overflowed, eof := true, true;
              return false;
            }
            buf := buf + chunk;
          case EndOfFile => eof := true; return false;
          case Interrupted =>
          case WouldBlock => return true;
          case Failed => eof := true; return false;
        }
      }
      return true;
    }

    method DetectMode()
      modifies this
      ensures Now() == Detect(old(Now()))
    {
      if detected || buf == [] { return; }
      var i := 0;
      while i < |buf| && IsBlank(buf[i])
        invariant 0 <= i <= |buf|
        invariant Blanks(buf) == i + Blanks(buf[i..])
      {
        assert buf[i..][1..] == buf[i + 1..];
        i := i + 1;
      }
      if i == |buf| { return; }
      if i + |PREFIX| <= |buf| && buf[i..i + |PREFIX|] == PREFIX {
        framed := true;
      }
      detected := true;
    }

    method FindLine() returns (found: bool)
      modifies this
      ensures (Now(), found) == HasLine(old(Now()))
    {
      DetectMode();
      if framed {
        var f := FindFrame();
        return f.Complete?;
      }
      if Find(buf, "\n", scanned).None? {
        scanned := |buf|;
        return false;
      }
      return true;
    }

    method TakeLine() returns (line: Option<string>)
      modifies this
      ensures (Now(), line) == GetLine(old(Now()))
    {
      DetectMode();
      if framed { line := TakeFramed(); } else { line := TakeNewline(); }
    }

    method TakeFramed() returns (line: Option<string>)
      modifies this`buf
      ensures (Now(), line) == GetFramed(old(Now()))
    {
      var f := FindFrame();
      match f
      case NoHeader => line := None;
      case Incomplete => line := None;
      case Malformed(end) => buf := buf[end..]; line := None;
      case Complete(body, len) =>
        line := Some(buf[body..body + len]);
        buf := buf[body + len..];
    }

    method TakeNewline() returns (line: Option<string>)
      modifies this`buf, this`scanned
      ensures (Now(), line) == GetNewline(old(Now()))
    {
      var pos := Find(buf, "\n", scanned);
      if pos.None? {
        scanned := |buf|;
        return None;
      }
      var p := pos.value;
      var end := if p > 0 && buf[p - 1] == '\r' then p - 1 else p;
      line := Some(buf[..end]);
      assert buf[..end] == TrimCr(buf[..p]);
      buf := buf[p + 1..];
      scanned := AtLeastZero(scanned - (p + 1));
    }

    method FindFrame() returns (f: Frame)
      ensures f == NextFrame(buf)
    {
      var p := Find(buf, "\r\n\r\n", 0);
      if p.None? { return NoHeader; }
      var n := ParseContentLength(buf[..p.value]);
      if n < 0 { return Malformed(p.value + 4); }
      if |buf| < p.value + 4 + n { return Incomplete; }
      return Complete(p.value + 4, n);
    }

    static method ParseContentLength(hdr: string) returns (n: int)
      ensures n == ContentLength(hdr)
    {
      var rest := hdr;
      while rest != []
        invariant ContentLength(hdr) == ContentLength(rest)
        decreases |rest|
      {
        var eol := Find(rest, "\r\n", 0);
        var end := if eol.Some? then eol.value else |rest|;
        var length := FieldLength(rest[..end]);
        if length.Some? { return length.value; }
        rest := if end + 2 <= |rest| then rest[end + 2..] else [];
      }
      return -1;
    }
  }
}
