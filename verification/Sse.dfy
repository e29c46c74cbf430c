/** Server-sent events (internal/proxy/sse.go; WHATWG HTML sections 9.2.5 and 9.2.6): a scanner and a writer. A char
    stands for one byte. */
module Sse {
  import opened Wrappers
  import opened Splitting

  datatype Event = Event(event: string, id: string, data: string, retry: string, comment: bool)

  const EMPTY := Event("", "", "", "", false)

  datatype StreamError = EOF | EventTooLarge

  /** How long an event may be, and how long the read buffer is. */
  datatype Limits = Limits(maxSize: nat, bufSize: nat)
  {
    predicate Ok() { bufSize >= 16 }

    /** The longest line: it is read in pieces of the buffer's length, and given up when maxSize is passed without its end. */
    function Line(): nat
      requires Ok()
    {
      (maxSize / bufSize + 1) * bufSize
    }
  }

  // ---------------------------------------------------------------------------------------------
  // Lines.
  // ---------------------------------------------------------------------------------------------

  function TrimCR(line: string): string {
    if line != "" && line[|line| - 1] == '\r' then line[..|line| - 1] else line
  }

  /** The optional space after the colon of a field. */
  function TrimFieldValue(v: string): string { if v != "" && v[0] == ' ' then v[1..] else v }

  /** Where the first line ends: after its newline, or at the end of the input. */
  function LineEnd(s: string): (n: nat)
    ensures n <= |s| && (s != "" ==> n > 0)
  {
    if s == "" then 0 else if s[0] == '\n' then 1 else 1 + LineEnd(s[1..])
  }

  function TrimEOL(line: string): string {
    TrimCR(if line != "" && line[|line| - 1] == '\n' then line[..|line| - 1] else line)
  }

  datatype Reading = Line(line: string, rest: string) | Failed(error: StreamError)

  function ReadLine(input: string, limits: Limits): (r: Reading)
    requires limits.Ok()
    ensures r.Line? ==> |r.rest| < |input|
  {
    var n := LineEnd(input);
    if input == "" then Failed(EOF)
    else if n > limits.Line() || (n == limits.Line() && input[n - 1] != '\n') then Failed(EventTooLarge)
    else Line(TrimEOL(input[..n]), input[n..])
  }

  datatype PieceEnd = Newline | BufferFull | AtEOF

  /** One piece: up to the newline, a buffer full, or what is left. */
  function ReadSlice(input: string, bufSize: nat): (r: (string, string, PieceEnd))
    requires bufSize > 0
    ensures r.0 + r.1 == input
  {
    var n := LineEnd(input);
    if 0 < n <= bufSize && input[n - 1] == '\n' then (input[..n], input[n..], Newline)
    else if |input| >= bufSize then (input[..bufSize], input[bufSize..], BufferFull)
    else (input, "", AtEOF)
  }

  lemma {:induction false} LineEndBounds(s: string)
    ensures '\n' !in s[..LineEnd(s)] ==> LineEnd(s) == |s|
    ensures s != "" && '\n' in s[..LineEnd(s)] ==> s[LineEnd(s) - 1] == '\n'
    ensures forall k :: 0 <= k < LineEnd(s) - 1 ==> s[k] != '\n'
  {
    if s != "" && s[0] != '\n' {
      LineEndBounds(s[1..]);
      assert s[..LineEnd(s)] == [s[0]] + s[1..][..LineEnd(s[1..])];
    }
  }

  lemma {:induction false} LineEndAfter(a: string, b: string)
    requires '\n' !in a
    ensures LineEnd(a + b) == |a| + LineEnd(b)
  {
    if a == "" {
      assert a + b == b;
    } else {
      assert (a + b)[1..] == a[1..] + b;
      LineEndAfter(a[1..], b);
    }
  }

  /** A piece that is full, or ends the input, holds no newline. */
  lemma PieceText(input: string, bufSize: nat)
    requires bufSize > 0
    ensures var (piece, rest, end) := ReadSlice(input, bufSize);
            && (end.BufferFull? ==> |piece| == bufSize && '\n' !in piece)
            && (end.AtEOF? ==> |piece| < bufSize && '\n' !in piece && rest == "")
            && (end.Newline? ==> 0 < |piece| == LineEnd(input) <= bufSize && piece[|piece| - 1] == '\n')
  {
    LineEndBounds(input);
  }

  /** The largest multiple of the buffer's length that passes the limit by no more than one piece. */
  lemma WholePieces(size: nat, pieces: nat, limits: Limits)
    requires limits.Ok() && size == pieces * limits.bufSize
    ensures size <= limits.maxSize ==> size + limits.bufSize <= limits.Line()
    ensures size > limits.maxSize ==> size >= limits.Line()
  {
    var q, b := limits.maxSize / limits.bufSize, limits.bufSize;
    if pieces <= q {
      Times(pieces, q, b);
    } else {
      Times(q + 1, pieces, b);
    }
    assert q * b <= limits.maxSize < q * b + b && (q + 1) * b == q * b + b;
  }

  lemma Times(x: nat, y: nat, b: nat)
    requires x <= y
    ensures x * b <= y * b
  {
  }

  /** Whole pieces without a newline have been read, and no more of them than the limit lets pass. */
  ghost predicate InPieces(input: string, buf: string, rest: string, limits: Limits) {
    && limits.Ok() && buf + rest == input && '\n' !in buf && exists pieces: nat :: |buf| == Pieces(pieces, limits)
  }

  function Pieces(n: nat, limits: Limits): nat { n * limits.bufSize }

  lemma LastPiece(input: string, buf: string, rest: string, limits: Limits)
    requires InPieces(input, buf, rest, limits) && |buf| <= limits.maxSize
    ensures var (piece, left, end) := ReadSlice(rest, limits.bufSize);
            end != BufferFull ==> ReadLine(input, limits) == if buf + piece == "" then Failed(EOF) else Line(TrimEOL(buf + piece), left)
  {
    var (piece, left, end) := ReadSlice(rest, limits.bufSize);
    var pieces: nat :| |buf| == Pieces(pieces, limits);
    WholePieces(|buf|, pieces, limits);
    LineEndAfter(buf, rest);
    PieceText(rest, limits.bufSize);
    LineEndBounds(rest);
    if end != BufferFull {
      assert input == (buf + piece) + left;
      assert input[..|buf + piece|] == buf + piece && input[|buf + piece|..] == left;
      assert piece != "" ==> input[|buf| + |piece| - 1] == piece[|piece| - 1];
    }
  }

  lemma FullPiece(input: string, buf: string, rest: string, limits: Limits)
    requires InPieces(input, buf, rest, limits)
    ensures var (piece, left, end) := ReadSlice(rest, limits.bufSize);
            end == BufferFull ==> InPieces(input, buf + piece, left, limits) && |left| < |rest|
  {
    var (piece, left, end) := ReadSlice(rest, limits.bufSize);
    var pieces: nat :| |buf| == Pieces(pieces, limits);
    PieceText(rest, limits.bufSize);
    assert input == (buf + piece) + left;
    assert end == BufferFull ==> |buf + piece| == Pieces(pieces + 1, limits);
  }

  lemma TooLong(input: string, buf: string, rest: string, limits: Limits)
    requires InPieces(input, buf, rest, limits) && |buf| > limits.maxSize
    ensures ReadLine(input, limits) == Failed(EventTooLarge)
  {
    var pieces: nat :| |buf| == Pieces(pieces, limits);
    WholePieces(|buf|, pieces, limits);
    LineEndAfter(buf, rest);
  }

  /** The first line, read as the buffered reader hands it out. */
  method ReadLineInPieces(input: string, limits: Limits) returns (r: Reading)
    requires limits.Ok()
    ensures r == ReadLine(input, limits)
  {
    assert |""| == Pieces(0, limits);
    LastPiece(input, "", input, limits);
    FullPiece(input, "", input, limits);
    var (piece, rest, end) := ReadSlice(input, limits.bufSize);
    var buf := "" + piece;
    while end == BufferFull
      invariant end == BufferFull ==> InPieces(input, buf, rest, limits)
      invariant end != BufferFull ==> ReadLine(input, limits) == if buf == "" then Failed(EOF) else Line(TrimEOL(buf), rest)
      decreases |rest|, if end == BufferFull then 1 else 0
    {
      if |buf| > limits.maxSize {
        TooLong(input, buf, rest, limits);
        return Failed(EventTooLarge);
      }
      LastPiece(input, buf, rest, limits);
      FullPiece(input, buf, rest, limits);
      var (more, left, next) := ReadSlice(rest, limits.bufSize);
      buf, rest, end := buf + more, left, next;
    }
    r := if buf == "" then Failed(EOF) else Line(TrimEOL(buf), rest);
  }

  lemma {:induction false} LineEndIs(l: string, rest: string)
    requires '\n' !in l
    ensures LineEnd(l + "\n" + rest) == |l| + 1
  {
    if l != "" {
      assert (l + "\n" + rest)[1..] == l[1..] + "\n" + rest;
      LineEndIs(l[1..], rest);
    }
  }

  lemma LineIs(l: string, rest: string, limits: Limits)
    requires limits.Ok() && '\n' !in l
    ensures ReadLine(l + "\n" + rest, limits) == if |l| + 1 > limits.Line() then Failed(EventTooLarge) else Line(TrimCR(l), rest)
  {
    LineEndIs(l, rest);
    var s := l + "\n" + rest;
    assert s[..|l| + 1] == l + "\n" && s[|l| + 1..] == rest && (l + "\n")[..|l|] == l;
  }

  // ---------------------------------------------------------------------------------------------
  // The scanner.
  // ---------------------------------------------------------------------------------------------

  /** What has been read of an event: its fields, the data lines so far, and whether there was any line. */
  datatype Partial = Partial(event: Event, buf: string, hasField: bool)

  const START := Partial(EMPTY, "", false)

  function Finished(p: Partial): Event { if p.event.comment then p.event else p.event.(data := p.buf) }

  /** A data line joins the ones before it; the newline between them depends on there being any text. */
  function Joined(buf: string, value: string): string { (if buf == "" then "" else buf + "\n") + value }

  /** One line that is not empty; none if the event becomes too large. */
  function TakeLine(p: Partial, line: string, maxSize: nat): Option<Partial> {
    var q := p.(hasField := true);
    if HasPrefix(line, ":") then Some(q.(event := p.event.(comment := true, data := line), buf := line))
    else if HasPrefix(line, "data:") then
      var buf := Joined(p.buf, TrimFieldValue(line[5..]));
      if |buf| > maxSize then None else Some(q.(buf := buf))
    else if HasPrefix(line, "event:") then Some(q.(event := p.event.(event := TrimFieldValue(line[6..]))))
    else if HasPrefix(line, "id:") then Some(q.(event := p.event.(id := TrimFieldValue(line[3..]))))
    else if HasPrefix(line, "retry:") then Some(q.(event := p.event.(retry := TrimFieldValue(line[6..]))))
    else Some(q)
  }

  /** The next event and what is left, or why there is none. At the end of the input an event may be cut short. */
  datatype Outcome = Got(event: Event, rest: string, last: bool) | Stopped(error: StreamError)

  function Scan(input: string, p: Partial, limits: Limits): (r: Outcome)
    requires limits.Ok()
    ensures r.Got? ==> |r.rest| < |input| || r.last
    decreases |input|
  {
    match ReadLine(input, limits)
    case Failed(e) => if e == EOF && p.hasField then Got(Finished(p), "", true) else Stopped(e)
    case Line(line, rest) =>
      if line == "" then (if p.hasField then Got(Finished(p), rest, false) else Scan(rest, p, limits))
      else
        match TakeLine(p, line, limits.maxSize)
        case None => Stopped(EventTooLarge)
        case Some(q) => Scan(rest, q, limits)
  }

  /** All events of an input and why it ended. */
  function ScanAll(input: string, limits: Limits): (seq<Event>, StreamError)
    requires limits.Ok()
    decreases |input|
  {
    match Scan(input, START, limits)
    case Stopped(e) => ([], e)
    case Got(event, rest, last) =>
      if last then ([event], EOF) else var tail := ScanAll(rest, limits); ([event] + tail.0, tail.1)
  }

  class Scanner {
    const limits: Limits
    var input: string
    var event: Event
    var err: Option<StreamError>

    constructor (input: string, maxEventSize: nat, bufSize: nat)
      ensures this.input == input && err == None && limits.Ok()
      ensures limits == Limits(if maxEventSize == 0 then 1048576 else maxEventSize,
                               if bufSize == 0 then 16384 else if bufSize < 16 then 16 else bufSize)
    {
      this.input, event, err := input, EMPTY, None;
      limits := Limits(if maxEventSize == 0 then 1048576 else maxEventSize,
                       if bufSize == 0 then 16384 else if bufSize < 16 then 16 else bufSize);
    }

    /** Reads the next event. */
    method Next() returns (ok: bool)
      requires limits.Ok()
      modifies this
      ensures old(err).Some? ==> !ok && err == old(err) && input == old(input)
      ensures old(err).None? ==>
                match Scan(old(input), START, limits)
                case Got(e, rest, last) => ok && event == e && input == rest && err == (if last then Some(EOF) else None)
                case Stopped(e) => !ok && err == Some(e)
    {
      if err.Some? {
        return false;
      }
      var p := START;
      while true
        invariant err == None && Scan(input, p, limits) == Scan(old(input), START, limits)
        decreases |input|
      {
        var reading := ReadLineInPieces(input, limits);
        match reading
        case Failed(e) =>
          err := Some(e);
          if e == EOF && p.hasField {
            event, input := Finished(p), "";
            return true;
          }
          return false;
        case Line(line, rest) =>
          input := rest;
          if line == "" {
            if p.hasField {
              event := Finished(p);
              return true;
            }
          } else {
            var next := TakeLine(p, line, limits.maxSize);
            if next == None {
              err := Some(EventTooLarge);
              return false;
            }
            p := next.value;
          }
      }
    }
  }

  // ---------------------------------------------------------------------------------------------
  // The writer.
  // ---------------------------------------------------------------------------------------------

  function FieldText(name: string, value: string): string { name + " " + value }

  function Field(name: string, value: string): string { FieldText(name, value) + "\n" }

  function OptionalField(name: string, value: string): string { if value == "" then "" else Field(name, value) }

  function DataLines(lines: seq<string>): string {
    if lines == [] then "" else Field("data:", lines[0]) + DataLines(lines[1..])
  }

  /** An event as it goes out. */
  function Wire(e: Event): string {
    if e.comment then e.data + "\n\n"
    else OptionalField("event:", e.event) + (OptionalField("id:", e.id) + (OptionalField("retry:", e.retry)
         + (DataLines(Split(e.data, '\n')) + "\n")))
  }

  function WireAll(events: seq<Event>): string { if events == [] then "" else Wire(events[0]) + WireAll(events[1..]) }

  lemma {:induction false} DataLinesAppend(lines: seq<string>, line: string)
    ensures DataLines(lines + [line]) == DataLines(lines) + Field("data:", line)
  {
    if lines == [] {
      assert DataLines([line][1..]) == "";
    } else {
      assert (lines + [line])[1..] == lines[1..] + [line];
      DataLinesAppend(lines[1..], line);
    }
  }

  method WriteOptional(out: string, name: string, value: string) returns (w: string)
    ensures w == out + OptionalField(name, value)
  {
    if value == "" {
      assert out + "" == out;
      return out;
    }
    w := out + Field(name, value);
  }

  method WriteData(out: string, data: string) returns (w: string)
    ensures w == out + DataLines(Split(data, '\n'))
  {
    w := out;
    var lines := Split(data, '\n');
    assert out + "" == out;
    for i := 0 to |lines|
      invariant w == out + DataLines(lines[..i])
    {
      DataLinesAppend(lines[..i], lines[i]);
      assert lines[..i + 1] == lines[..i] + [lines[i]];
      assert out + (DataLines(lines[..i]) + Field("data:", lines[i])) == w + Field("data:", lines[i]);
      w := w + Field("data:", lines[i]);
    }
    assert lines[..|lines|] == lines;
  }

  lemma Regroup(out: string, a: string, b: string, c: string, d: string)
    ensures out + (a + (b + (c + (d + "\n")))) == out + a + b + c + d + "\n"
  {
  }

  method WriteEvent(out: string, e: Event) returns (written: string)
    ensures written == out + Wire(e)
  {
    if e.comment {
      return out + (e.data + "\n\n");
    }
    var w := WriteOptional(out, "event:", e.event);
    w := WriteOptional(w, "id:", e.id);
    w := WriteOptional(w, "retry:", e.retry);
    w := WriteData(w, e.data);
    Regroup(out, OptionalField("event:", e.event), OptionalField("id:", e.id), OptionalField("retry:", e.retry),
            DataLines(Split(e.data, '\n')));
    written := w + "\n";
  }

  // ---------------------------------------------------------------------------------------------
  // What comes back.
  // ---------------------------------------------------------------------------------------------

  predicate EndsInCR(s: string) { s != "" && s[|s| - 1] == '\r' }

  /** A field value that a line can carry. */
  predicate FieldSafe(value: string) { '\n' !in value && !EndsInCR(value) }

  /** The data lines as the scanner joins them. */
  function Folded(buf: string, lines: seq<string>): string
    decreases |lines|
  {
    if lines == [] then buf else Folded(Joined(buf, TrimCR(lines[0])), lines[1..])
  }

  /** What becomes of data on its way out and in. */
  function Recovered(data: string): string { Folded("", Split(data, '\n')) }

  predicate Fits(line: string, limits: Limits)
    requires limits.Ok()
  {
    |line| + 1 <= limits.Line()
  }

  lemma FieldLine(name: string, value: string, rest: string, p: Partial, limits: Limits)
    requires limits.Ok() && '\n' !in name && '\n' !in value && name != "" && name[|name| - 1] == ':' && Fits(FieldText(name, value), limits)
    ensures Scan(Field(name, value) + rest, p, limits) ==
            match TakeLine(p, FieldText(name, TrimCR(value)), limits.maxSize)
            case None => Stopped(EventTooLarge)
            case Some(q) => Scan(rest, q, limits)
  {
    var l := FieldText(name, value);
    LineIs(l, rest, limits);
    assert Field(name, value) + rest == l + "\n" + rest;
    assert TrimCR(l) == FieldText(name, TrimCR(value));
  }

  /** A written field is recognised as what it is, and its value comes out without the space before it. */
  lemma WhichField(name: string, value: string)
    requires name == "data:" || name == "event:" || name == "id:" || name == "retry:"
    ensures var line := FieldText(name, value);
            && !HasPrefix(line, ":") && (HasPrefix(line, "data:") <==> name == "data:") && (HasPrefix(line, "event:") <==> name == "event:")
            && (HasPrefix(line, "id:") <==> name == "id:") && (HasPrefix(line, "retry:") <==> name == "retry:")
            && TrimFieldValue(line[|name|..]) == value
  {
    var line := FieldText(name, value);
    assert line[..|name|] == name && line[|name|..] == " " + value && (" " + value)[1..] == value;
    OtherField(line, ":");
    OtherField(line, "data:");
    OtherField(line, "event:");
    OtherField(line, "id:");
    OtherField(line, "retry:");
  }

  /** The space after the colon of a field may be left out. */
  lemma SpaceOptional(name: string, value: string, p: Partial, maxSize: nat)
    requires name == "data:" || name == "event:" || name == "id:" || name == "retry:"
    requires value == "" || value[0] != ' '
    ensures TakeLine(p, name + value, maxSize) == TakeLine(p, name + " " + value, maxSize)
  {
    var line := name + value;
    WhichField(name, value);
    assert line[..|name|] == name && line[|name|..] == value;
    OtherField(line, ":");
    OtherField(line, "data:");
    OtherField(line, "event:");
    OtherField(line, "id:");
    OtherField(line, "retry:");
  }

  lemma OtherField(line: string, prefix: string)
    requires line != "" && prefix != ""
    ensures HasPrefix(line, prefix) ==> line[0] == prefix[0]
  {
    if HasPrefix(line, prefix) {
      assert line[..|prefix|][0] == line[0];
    }
  }

  lemma TakeData(p: Partial, value: string, maxSize: nat)
    ensures TakeLine(p, FieldText("data:", value), maxSize) ==
            if |Joined(p.buf, value)| > maxSize then None else Some(p.(hasField := true, buf := Joined(p.buf, value)))
  {
    WhichField("data:", value);
  }

  lemma DataLine(line: string, rest: string, p: Partial, limits: Limits)
    requires limits.Ok() && '\n' !in line && Fits(FieldText("data:", line), limits)
    ensures Scan(Field("data:", line) + rest, p, limits) ==
            var buf := Joined(p.buf, TrimCR(line));
            if |buf| > limits.maxSize then Stopped(EventTooLarge) else Scan(rest, p.(hasField := true, buf := buf), limits)
  {
    FieldLine("data:", line, rest, p, limits);
    TakeData(p, TrimCR(line), limits.maxSize);
  }

  /** The data lines of an event are read as their fold, unless it is too large. */
  lemma {:induction false} DataScan(lines: seq<string>, rest: string, p: Partial, limits: Limits)
    requires limits.Ok() && !p.event.comment && |p.buf| <= limits.maxSize
    requires forall i :: 0 <= i < |lines| ==> '\n' !in lines[i] && Fits(FieldText("data:", lines[i]), limits)
    ensures Scan(DataLines(lines) + rest, p, limits) ==
            if |Folded(p.buf, lines)| > limits.maxSize then Stopped(EventTooLarge)
            else Scan(rest, p.(hasField := p.hasField || lines != [], buf := Folded(p.buf, lines)), limits)
  {
    if lines == [] {
      assert DataLines(lines) + rest == rest;
    } else {
      var more, value := DataLines(lines[1..]) + rest, TrimCR(lines[0]);
      assert DataLines(lines) + rest == Field("data:", lines[0]) + more;
      DataLine(lines[0], more, p, limits);
      var buf := Joined(p.buf, value);
      FoldGrows(buf, lines[1..]);
      if |buf| <= limits.maxSize {
        DataScan(lines[1..], rest, p.(hasField := true, buf := buf), limits);
      }
    }
  }

  lemma {:induction false} FoldGrows(buf: string, lines: seq<string>)
    ensures |buf| <= |Folded(buf, lines)|
    decreases |lines|
  {
    if lines != [] {
      FoldGrows(Joined(buf, TrimCR(lines[0])), lines[1..]);
    }
  }

  /** Each optional field is read back into its place. */
  lemma EventField(value: string, rest: string, p: Partial, limits: Limits)
    requires limits.Ok() && FieldSafe(value) && Fits(FieldText("event:", value), limits) && p.event.event == ""
    ensures Scan(OptionalField("event:", value) + rest, p, limits) ==
            Scan(rest, p.(event := p.event.(event := value), hasField := p.hasField || value != ""), limits)
  {
    if value == "" {
      assert OptionalField("event:", value) + rest == rest;
    } else {
      FieldLine("event:", value, rest, p, limits);
      WhichField("event:", value);
    }
  }

  lemma IdField(value: string, rest: string, p: Partial, limits: Limits)
    requires limits.Ok() && FieldSafe(value) && Fits(FieldText("id:", value), limits) && p.event.id == ""
    ensures Scan(OptionalField("id:", value) + rest, p, limits) ==
            Scan(rest, p.(event := p.event.(id := value), hasField := p.hasField || value != ""), limits)
  {
    if value == "" {
      assert OptionalField("id:", value) + rest == rest;
    } else {
      FieldLine("id:", value, rest, p, limits);
      WhichField("id:", value);
    }
  }

  lemma RetryField(value: string, rest: string, p: Partial, limits: Limits)
    requires limits.Ok() && FieldSafe(value) && Fits(FieldText("retry:", value), limits) && p.event.retry == ""
    ensures Scan(OptionalField("retry:", value) + rest, p, limits) ==
            Scan(rest, p.(event := p.event.(retry := value), hasField := p.hasField || value != ""), limits)
  {
    if value == "" {
      assert OptionalField("retry:", value) + rest == rest;
    } else {
      FieldLine("retry:", value, rest, p, limits);
      WhichField("retry:", value);
    }
  }

  /** The fields fit on lines of their own, and the lines into the buffer. */
  predicate Writable(e: Event, limits: Limits)
    requires limits.Ok()
  {
    if e.comment then
      e.event == e.id == e.retry == "" && FieldSafe(e.data) && HasPrefix(e.data, ":") && Fits(e.data, limits)
    else
      && FieldSafe(e.event) && FieldSafe(e.id) && FieldSafe(e.retry)
      && Fits(FieldText("event:", e.event), limits) && Fits(FieldText("id:", e.id), limits) && Fits(FieldText("retry:", e.retry), limits)
      && forall i {:trigger Split(e.data, '\n')[i]} :: 0 <= i < |Split(e.data, '\n')| ==> Fits(FieldText("data:", Split(e.data, '\n')[i]), limits)
  }

  lemma CommentScan(line: string, rest: string, limits: Limits)
    requires limits.Ok() && FieldSafe(line) && HasPrefix(line, ":") && Fits(line, limits)
    ensures Scan(line + "\n\n" + rest, START, limits) == Got(EMPTY.(comment := true, data := line), rest, false)
  {
    var p := Partial(EMPTY.(comment := true, data := line), line, true);
    assert line + "\n\n" + rest == line + "\n" + ("\n" + rest);
    LineIs(line, "\n" + rest, limits);
    assert line[..1] == ":";
    LineIs("", rest, limits);
    assert "" + "\n" + rest == "\n" + rest;
    assert Scan("\n" + rest, p, limits) == Got(p.event, rest, false);
  }

  lemma EmptyLine(rest: string, p: Partial, limits: Limits)
    requires limits.Ok() && p.hasField
    ensures Scan("\n" + rest, p, limits) == Got(Finished(p), rest, false)
  {
    LineIs("", rest, limits);
    assert "" + "\n" + rest == "\n" + rest;
  }

  /** What the scanner makes of a written event: the event with its data recovered, or an error when that is too large. */
  lemma WrittenIs(e: Event, rest: string, limits: Limits)
    requires limits.Ok() && Writable(e, limits)
    ensures Scan(Wire(e) + rest, START, limits) ==
            if e.comment then Got(e, rest, false)
            else if |Recovered(e.data)| > limits.maxSize then Stopped(EventTooLarge)
            else Got(e.(data := Recovered(e.data)), rest, false)
  {
    if e.comment {
      CommentScan(e.data, rest, limits);
    } else {
      var lines := Split(e.data, '\n');
      JoinSplit(e.data, '\n', "");
      var tail := "\n" + rest;
      var w3 := DataLines(lines) + tail;
      var w2 := OptionalField("retry:", e.retry) + w3;
      var w1 := OptionalField("id:", e.id) + w2;
      assert Wire(e) + rest == OptionalField("event:", e.event) + w1;
      EventField(e.event, w1, START, limits);
      var p1 := Partial(EMPTY.(event := e.event), "", e.event != "");
      IdField(e.id, w2, p1, limits);
      var p2 := p1.(event := p1.event.(id := e.id), hasField := p1.hasField || e.id != "");
      RetryField(e.retry, w3, p2, limits);
      var p3 := p2.(event := p2.event.(retry := e.retry), hasField := p2.hasField || e.retry != "");
      DataScan(lines, tail, p3, limits);
      EmptyLine(rest, p3.(hasField := true, buf := Folded("", lines)), limits);
    }
  }

  // ---------------------------------------------------------------------------------------------
  // The round trip.
  // ---------------------------------------------------------------------------------------------

  /** The data does not begin with a newline, and no line of it ends in a carriage return. */
  predicate Clean(data: string) {
    && (data != "" ==> data[0] != '\n')
    && forall i {:trigger Split(data, '\n')[i]} :: 0 <= i < |Split(data, '\n')| ==> !EndsInCR(Split(data, '\n')[i])
  }

  /** The lengths of the lines, each with its newline. */
  function Total(lines: seq<string>): nat { if lines == [] then 0 else |lines[0]| + 1 + Total(lines[1..]) }

  lemma {:induction false} TotalOfJoin(lines: seq<string>)
    requires lines != []
    ensures |Join(lines, '\n')| + 1 == Total(lines)
  {
    if |lines| > 1 {
      TotalOfJoin(lines[1..]);
    } else {
      assert lines[1..] == [];
    }
  }

  /** After some text nothing but carriage returns is lost. */
  lemma {:induction false} FoldedLength(buf: string, lines: seq<string>)
    requires buf != ""
    ensures |Folded(buf, lines)| <= |buf| + Total(lines)
    ensures |Folded(buf, lines)| == |buf| + Total(lines) ==> forall i :: 0 <= i < |lines| ==> !EndsInCR(lines[i])
    ensures (forall i :: 0 <= i < |lines| ==> !EndsInCR(lines[i])) ==>
              Folded(buf, lines) == buf + if lines == [] then "" else "\n" + Join(lines, '\n')
    decreases |lines|
  {
    if lines != [] {
      var next := Joined(buf, TrimCR(lines[0]));
      FoldedLength(next, lines[1..]);
      if forall i :: 0 <= i < |lines| ==> !EndsInCR(lines[i]) {
        assert forall i :: 0 <= i < |lines[1..]| ==> !EndsInCR(lines[1..][i]);
        JoinParts(buf, lines[0], lines[1..]);
      }
    }
  }

  lemma JoinParts(buf: string, first: string, rest: seq<string>)
    ensures (buf + "\n" + first) + (if rest == [] then "" else "\n" + Join(rest, '\n')) == buf + ("\n" + Join([first] + rest, '\n'))
  {
    if rest != [] {
      JoinCons(first, rest, '\n');
    }
  }

  /** A first line that is empty, once trimmed, is lost with its newline unless it is the only one. */
  lemma {:induction false} FirstLength(lines: seq<string>)
    requires lines != []
    ensures |Folded("", lines)| + 1 <= Total(lines)
    ensures |Folded("", lines)| + 1 == Total(lines) ==>
              (|lines| == 1 || lines[0] != "") && forall i :: 0 <= i < |lines| ==> !EndsInCR(lines[i])
    decreases |lines|
  {
    var t := TrimCR(lines[0]);
    assert Joined("", t) == t;
    if t != "" {
      FoldedLength(t, lines[1..]);
    } else if |lines| > 1 {
      FirstLength(lines[1..]);
    }
  }

  lemma FoldFirst(first: string, rest: seq<string>)
    requires !EndsInCR(first)
    ensures Folded("", [first] + rest) == Folded(first, rest)
  {
    assert ([first] + rest)[1..] == rest && Joined("", first) == first;
  }

  lemma JoinFirst(first: string, rest: seq<string>)
    ensures Join([first] + rest, '\n') == first + if rest == [] then "" else "\n" + Join(rest, '\n')
  {
    if rest != [] {
      JoinCons(first, rest, '\n');
    } else {
      assert [first] + rest == [first] && first + "" == first;
    }
  }

  lemma CleanLinesFold(first: string, rest: seq<string>)
    requires (rest == [] || first != "") && !EndsInCR(first) && forall i :: 0 <= i < |rest| ==> !EndsInCR(rest[i])
    ensures Folded("", [first] + rest) == Join([first] + rest, '\n')
  {
    FoldFirst(first, rest);
    JoinFirst(first, rest);
    if rest != [] {
      FoldedLength(first, rest);
    }
  }

  /** Data comes back as it was if and only if it is clean. */
  lemma RecoveredIff(data: string)
    ensures Recovered(data) == data <==> Clean(data)
  {
    var lines := Split(data, '\n');
    JoinSplit(data, '\n', "");
    assert "" + data == data;
    FirstLine(data);
    if Clean(data) {
      assert lines == [lines[0]] + lines[1..];
      CleanLinesFold(lines[0], lines[1..]);
    } else {
      TotalOfJoin(lines);
      FirstLength(lines);
    }
  }

  lemma FirstLine(data: string)
    ensures var lines := Split(data, '\n');
            (|lines| == 1 || lines[0] != "") <==> (data == "" || data[0] != '\n')
  {
    JoinSplit(data, '\n', "");
    if data != "" && data[0] != '\n' {
      JoinSplit(data[1..], '\n', [data[0]]);
      assert "" + [data[0]] == [data[0]];
    } else if data != "" {
      JoinSplit(data[1..], '\n', "");
    }
  }

  /** An event that is written comes back as it was, with what follows it untouched, exactly if its data is clean and
      within the limit. */
  lemma EventRoundTrip(e: Event, rest: string, limits: Limits)
    requires limits.Ok() && Writable(e, limits)
    ensures Scan(Wire(e) + rest, START, limits) == Got(e, rest, false) <==> e.comment || (Clean(e.data) && |e.data| <= limits.maxSize)
  {
    WrittenIs(e, rest, limits);
    RecoveredIff(e.data);
  }

  lemma ScanNext(input: string, e: Event, rest: string, limits: Limits)
    requires limits.Ok() && Scan(input, START, limits) == Got(e, rest, false)
    ensures var tail := ScanAll(rest, limits); ScanAll(input, limits) == ([e] + tail.0, tail.1)
  {
  }

  lemma WrittenNext(e: Event, rest: string, limits: Limits, events: seq<Event>)
    requires limits.Ok() && Writable(e, limits) && (e.comment || (Clean(e.data) && |e.data| <= limits.maxSize))
    requires ScanAll(rest, limits) == (events, EOF)
    ensures ScanAll(Wire(e) + rest, limits) == ([e] + events, EOF)
  {
    EventRoundTrip(e, rest, limits);
    ScanNext(Wire(e) + rest, e, rest, limits);
  }

  /** A stream of written events is scanned as those events. */
  lemma {:induction false} StreamRoundTrip(events: seq<Event>, limits: Limits)
    requires limits.Ok()
    requires forall e :: e in events ==> Writable(e, limits) && (e.comment || (Clean(e.data) && |e.data| <= limits.maxSize))
    ensures ScanAll(WireAll(events), limits) == (events, EOF)
  {
    if events != [] {
      assert events[0] in events && events == [events[0]] + events[1..];
      StreamRoundTrip(events[1..], limits);
      WrittenNext(events[0], WireAll(events[1..]), limits, events[1..]);
    }
  }

  /** Data within the limit fits on its lines if and only if the name of its field and the newline fit into what the read
      buffer has beyond the limit. The default buffer divides the default limit, so there it does. */
  lemma DataFits(limits: Limits)
    requires limits.Ok()
    ensures (forall value: string {:trigger FieldText("data:", value)} ::
               |value| <= limits.maxSize ==> Fits(FieldText("data:", value), limits)) <==>
            limits.maxSize % limits.bufSize + 7 <= limits.bufSize
  {
    var spare := limits.bufSize - limits.maxSize % limits.bufSize;
    assert limits.maxSize / limits.bufSize * limits.bufSize == limits.maxSize - limits.maxSize % limits.bufSize;
    assert limits.Line() == limits.maxSize + spare;
    if spare < 7 {
      var value := seq(limits.maxSize, _ => 'x');
      assert |FieldText("data:", value)| == limits.maxSize + 6;
    }
  }

  /** With another buffer it may not: a line of data just within the limit is given up. */
  lemma DataMayNotFit(value: string)
    requires |value| == 95
    ensures !Fits(FieldText("data:", value), Limits(95, 16))
  {
  }

  /** Data that begins with a newline, or has a line that ends in a carriage return, comes back shorter. */
  lemma NotRecovered()
    ensures Recovered("\nx") == "x" && Recovered("x\r") == "x" && !Clean("\nx") && !Clean("x\r")
  {
    SplitPart("", "x", '\n', "");
    SplitPart("x", "", '\n', "");
    SplitPart("x\r", "", '\n', "");
    assert "" + ['\n'] + "x" == "\nx" && "" + "x" == "x" && "" + "x\r" == "x\r" && "" + "" == "";
    assert Split("\nx", '\n') == ["", "x"] && Split("x\r", '\n') == ["x\r"];
    assert Folded("", ["", "x"]) == Folded("", ["x"]) == "x";
    assert EndsInCR(Split("x\r", '\n')[0]);
    assert TrimCR("x\r") == "x" && Folded("", ["x\r"]) == "x";
  }
}
