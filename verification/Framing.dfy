/** Segments of length-prefixed chunks, as local mode reads and writes them. */
module Framing {

  // ---- decimal numbers

  predicate IsDigit(c: char) {
    '0' <= c <= '9'
  }

  function Decimal(n: nat): (s: string)
    ensures s != "" && forall i | 0 <= i < |s| :: IsDigit(s[i])
  {
    if n < 10 then ['0' + n as char] else Decimal(n / 10) + ['0' + (n % 10) as char]
  }

  function Value(digits: string): int
    requires forall i | 0 <= i < |digits| :: IsDigit(digits[i])
  {
    if digits == "" then 0 else 10 * Value(digits[..|digits| - 1]) + (digits[|digits| - 1] as int - '0' as int)
  }

  /** Reading a printed number gives the number. */
  lemma {:induction false} DecimalReadsBack(n: nat)
    ensures Value(Decimal(n)) == n
  {
    if n >= 10 {
      DecimalReadsBack(n / 10);
      assert Decimal(n)[..|Decimal(n)| - 1] == Decimal(n / 10);
    } else {
      assert Decimal(n)[..0] == "";
    }
  }

  /** The digits at the head of the input. */
  function Run(s: string): (n: nat)
    ensures n <= |s| && (forall i | 0 <= i < n :: IsDigit(s[i])) && (n < |s| ==> !IsDigit(s[n]))
  {
    if s == "" || !IsDigit(s[0]) then 0 else 1 + Run(s[1..])
  }

  lemma {:induction false} RunStops(digits: string, rest: string)
    requires forall i | 0 <= i < |digits| :: IsDigit(digits[i])
    requires rest == "" || !IsDigit(rest[0])
    ensures Run(digits + rest) == |digits|
  {
    if digits == "" {
      assert digits + rest == rest;
    } else {
      assert (digits + rest)[1..] == digits[1..] + rest;
      RunStops(digits[1..], rest);
    }
  }

  // ---- what is written

  /** A result of length 0 writes nothing. */
  function Chunk(s: string): string {
    if s == "" then "" else Decimal(|s|) + ("\n" + s)
  }

  const END := "0\n"

  function Written(chunks: seq<string>): string {
    if chunks == [] then END else Chunk(chunks[0]) + Written(chunks[1..])
  }

  function Joined(chunks: seq<string>): string {
    if chunks == [] then "" else chunks[0] + Joined(chunks[1..])
  }

  // ---- what is read

  datatype Outcome = Segment(data: string, rest: string) | EndOfInput | Invalid

  /** What get_input makes of the input when `buffer` is already read.  Leading zeros
      of a length are accepted. */
  function ReadFrom(input: string, buffer: string): (r: Outcome)
    ensures r.Segment? ==> |r.rest| < |input|
    decreases |input|
  {
    if input == "" then if buffer == "" then EndOfInput else Invalid
    else
      var n := Run(input);
      if n == 0 || n == |input| || input[n] != '\n' then Invalid
      else
        var len := Value(input[..n]);
        var tail := input[n + 1..];
        if len == 0 then Segment(buffer, tail)
        else if len < 0 || len > |tail| then Invalid
        else ReadFrom(tail[len..], buffer + tail[..len])
  }

  /** A length, its newline, and what follows. */
  lemma {:induction false} ReadsDigits(digits: string, tail: string, buffer: string)
    requires digits != "" && forall i | 0 <= i < |digits| :: IsDigit(digits[i])
    ensures ReadFrom(digits + ("\n" + tail), buffer)
      == if Value(digits) == 0 then Segment(buffer, tail)
         else if Value(digits) < 0 || Value(digits) > |tail| then Invalid
         else ReadFrom(tail[Value(digits)..], buffer + tail[..Value(digits)])
  {
    var input := digits + ("\n" + tail);
    RunStops(digits, "\n" + tail);
    assert input[..|digits|] == digits && input[|digits| + 1..] == tail;
  }

  lemma {:induction false} ReadsHeader(n: nat, tail: string, buffer: string)
    ensures ReadFrom(Decimal(n) + ("\n" + tail), buffer)
      == if n == 0 then Segment(buffer, tail)
         else if n > |tail| then Invalid
         else ReadFrom(tail[n..], buffer + tail[..n])
  {
    hide ReadFrom, Value;
    DecimalReadsBack(n);
    ReadsDigits(Decimal(n), tail, buffer);
  }

  lemma Zero()
    ensures Decimal(0) == "0"
  {
  }

  lemma Regroup(a: string, b: string, c: string)
    ensures a + b + c == a + (b + c)
    ensures a + "" == a && "" + a == a
  {
  }

  /** How a written sequence of chunks begins. */
  lemma WrittenShape(chunks: seq<string>, rest: string)
    ensures chunks == [] ==> Written(chunks) + rest == Decimal(0) + ("\n" + rest)
    ensures chunks != [] && chunks[0] == "" ==> Written(chunks) == Written(chunks[1..])
    ensures chunks != [] && chunks[0] != "" ==>
      Written(chunks) + rest == Decimal(|chunks[0]|) + ("\n" + (chunks[0] + (Written(chunks[1..]) + rest)))
  {
    hide Decimal;
    Zero();
    if chunks == [] {
      Regroup("0", "\n", rest);
      assert END == "0" + "\n";
    } else {
      var c, w := chunks[0], Written(chunks[1..]);
      Regroup(w, "", "");
      Regroup(Chunk(c), w, rest);
      Regroup(Decimal(|c|), "\n" + c, w + rest);
      Regroup("\n", c, w + rest);
    }
  }

  lemma Cut(a: string, b: string)
    ensures (a + b)[..|a|] == a && (a + b)[|a|..] == b
  {
  }

  /** What is written for any chunks reads back as what they hold, whatever follows. */
  lemma {:induction false} WrittenReadsBack(chunks: seq<string>, buffer: string, rest: string)
    ensures ReadFrom(Written(chunks) + rest, buffer) == Segment(buffer + Joined(chunks), rest)
    decreases chunks
  {
    hide ReadFrom, Decimal, Written;
    WrittenShape(chunks, rest);
    if chunks == [] {
      ReadsHeader(0, rest, buffer);
      Regroup(buffer, "", "");
    } else {
      var c, more := chunks[0], Written(chunks[1..]) + rest;
      WrittenReadsBack(chunks[1..], buffer + c, rest);
      Regroup(buffer, c, Joined(chunks[1..]));
      if c != "" {
        ReadsHeader(|c|, c + more, buffer);
        Cut(c, more);
      }
    }
  }

  function WrittenAll(segments: seq<seq<string>>): string {
    if segments == [] then "" else Written(segments[0]) + WrittenAll(segments[1..])
  }

  /** Segment after segment until the input ends; nothing when one is invalid. */
  function ReadAll(input: string): (r: (seq<string>, bool))
    decreases |input|
  {
    match ReadFrom(input, "")
    case EndOfInput => ([], true)
    case Invalid => ([], false)
    case Segment(data, rest) => var (more, ok) := ReadAll(rest); ([data] + more, ok)
  }

  function JoinedAll(segments: seq<seq<string>>): seq<string> {
    if segments == [] then [] else [Joined(segments[0])] + JoinedAll(segments[1..])
  }

  /** A whole conversation reads back segment by segment. */
  lemma {:induction false} ConversationReadsBack(segments: seq<seq<string>>)
    ensures ReadAll(WrittenAll(segments)) == (JoinedAll(segments), true)
    decreases segments
  {
    if segments != [] {
      hide ReadFrom, Written, Joined;
      WrittenReadsBack(segments[0], "", WrittenAll(segments[1..]));
      assert "" + Joined(segments[0]) == Joined(segments[0]);
      ConversationReadsBack(segments[1..]);
    }
  }

  lemma NumberAlone(digits: string, buffer: string)
    requires digits != "" && forall i | 0 <= i < |digits| :: IsDigit(digits[i])
    ensures ReadFrom(digits, buffer) == Invalid
  {
    RunStops(digits, "");
    assert digits + "" == digits;
  }

  /** Where a cut falls in a chunk and what follows it. */
  lemma CutChunk(head: string, c: string, w: string, cut: nat)
    requires cut <= |head + ("\n" + (c + w))|
    ensures var all := head + ("\n" + (c + w));
      && (cut <= |head| ==> all[..cut] == head[..cut])
      && (|head| < cut <= |head| + |c| ==> all[..cut] == head + ("\n" + c[..cut - |head| - 1]))
      && (|head| + |c| < cut ==> all[..cut] == head + ("\n" + (c + w[..cut - |head| - |c| - 1])))
  {
  }

  /** A segment that is cut short anywhere is never taken for data. */
  lemma {:induction false} TruncationIsNoticed(chunks: seq<string>, cut: nat, buffer: string)
    requires cut < |Written(chunks)|
    ensures ReadFrom(Written(chunks)[..cut], buffer) == if cut == 0 && buffer == "" then EndOfInput else Invalid
    decreases chunks
  {
    hide Decimal, Written, Run, Value;
    WrittenShape(chunks, "");
    Regroup(Written(chunks), "", "");
    if cut == 0 {
      assert Written(chunks)[..cut] == "";
    } else if chunks == [] {
      Zero();
      assert (Decimal(0) + ("\n" + ""))[..cut] == "0";
      NumberAlone("0", buffer);
    } else if chunks[0] == "" {
      TruncationIsNoticed(chunks[1..], cut, buffer);
    } else {
      CutInChunk(chunks, cut, buffer);
    }
  }

  lemma {:induction false} CutInChunk(chunks: seq<string>, cut: nat, buffer: string)
    requires chunks != [] && chunks[0] != "" && 0 < cut < |Written(chunks)|
    ensures ReadFrom(Written(chunks)[..cut], buffer) == Invalid
    decreases chunks, 0
  {
    hide Decimal, Written, ReadFrom;
    var c, w := chunks[0], Written(chunks[1..]);
    var head := Decimal(|c|);
    WrittenShape(chunks, "");
    Regroup(Written(chunks), "", "");
    Regroup(w, "", "");
    CutChunk(head, c, w, cut);
    if cut <= |head| {
      NumberAlone(head[..cut], buffer);
    } else if cut <= |head| + |c| {
      ReadsHeader(|c|, c[..cut - |head| - 1], buffer);
    } else {
      var cut' := cut - |head| - |c| - 1;
      ReadsHeader(|c|, c + w[..cut'], buffer);
      Cut(c, w[..cut']);
      assert |Written(chunks)| == |head| + 1 + |c| + |w|;
      TruncationIsNoticed(chunks[1..], cut', buffer + c);
    }
  }

  // ---- exactly what is accepted

  /** A chunk as it may stand in the input: its length may have leading zeros. */
  datatype Piece = Piece(digits: string, data: string)

  predicate IsNumber(digits: string) {
    digits != "" && forall i | 0 <= i < |digits| :: IsDigit(digits[i])
  }

  predicate IsSegment(pieces: seq<Piece>, end: string) {
    && IsNumber(end) && Value(end) == 0
    && forall p | p in pieces :: IsNumber(p.digits) && Value(p.digits) == |p.data| > 0
  }

  function TextOf(pieces: seq<Piece>, end: string): string {
    if pieces == [] then end + "\n" else pieces[0].digits + ("\n" + (pieces[0].data + TextOf(pieces[1..], end)))
  }

  function DataOf(pieces: seq<Piece>): string {
    if pieces == [] then "" else pieces[0].data + DataOf(pieces[1..])
  }

  lemma {:induction false} SegmentIsRead(pieces: seq<Piece>, end: string, buffer: string, rest: string)
    requires IsSegment(pieces, end)
    ensures ReadFrom(TextOf(pieces, end) + rest, buffer) == Segment(buffer + DataOf(pieces), rest)
    decreases pieces
  {
    hide ReadFrom, Value;
    if pieces == [] {
      Regroup(end, "\n", rest);
      ReadsDigits(end, rest, buffer);
      Regroup(buffer, "", "");
    } else {
      var p, more := pieces[0], TextOf(pieces[1..], end);
      Regroup(p.digits, "\n" + (p.data + more), rest);
      Regroup("\n", p.data + more, rest);
      Regroup(p.data, more, rest);
      ReadsDigits(p.digits, p.data + (more + rest), buffer);
      Cut(p.data, more + rest);
      SegmentIsRead(pieces[1..], end, buffer + p.data, rest);
      Regroup(buffer, p.data, DataOf(pieces[1..]));
    }
  }

  lemma {:induction false} ReadIsSegment(input: string, buffer: string) returns (pieces: seq<Piece>, end: string)
    requires ReadFrom(input, buffer).Segment?
    ensures IsSegment(pieces, end) && input == TextOf(pieces, end) + ReadFrom(input, buffer).rest
    ensures ReadFrom(input, buffer).data == buffer + DataOf(pieces)
    decreases |input|
  {
    hide ReadFrom, TextOf, DataOf, Value, Run;
    HeaderOf(input, buffer);
    var n := Run(input);
    var digits, tail := input[..n], input[n + 1..];
    ReadsDigits(digits, tail, buffer);
    Regroup(buffer, "", "");
    if Value(digits) == 0 {
      pieces, end := [], digits;
      EndOnly(digits, tail);
    } else {
      var p := Piece(digits, tail[..Value(digits)]);
      var more;
      more, end := ReadIsSegment(tail[Value(digits)..], buffer + p.data);
      pieces := [p] + more;
      SplitPiece(p, more, end, tail, ReadFrom(input, buffer).rest);
      Regroup(buffer, p.data, DataOf(more));
    }
  }

  lemma HeaderOf(input: string, buffer: string)
    requires ReadFrom(input, buffer).Segment?
    ensures var n := Run(input);
      && n < |input| && IsNumber(input[..n]) && input == input[..n] + ("\n" + input[n + 1..])
      && 0 <= Value(input[..n]) <= |input[n + 1..]|
  {
    hide Run, Value;
    Around(input, Run(input));
  }

  lemma Around(s: string, n: nat)
    ensures n < |s| && s[n] == '\n' ==> s == s[..n] + ("\n" + s[n + 1..])
  {
  }

  lemma EndOnly(digits: string, tail: string)
    ensures digits + ("\n" + tail) == TextOf([], digits) + tail && DataOf([]) == ""
  {
    Regroup(digits, "\n", tail);
  }

  lemma SplitPiece(p: Piece, more: seq<Piece>, end: string, tail: string, rest: string)
    requires p.data <= tail && tail[|p.data|..] == TextOf(more, end) + rest
    ensures TextOf([p] + more, end) + rest == p.digits + ("\n" + tail)
    ensures DataOf([p] + more) == p.data + DataOf(more)
  {
    assert ([p] + more)[1..] == more;
    var text := TextOf(more, end);
    assert tail == p.data + (text + rest);
    Regroup(p.digits, "\n" + (p.data + text), rest);
    Regroup("\n", p.data + text, rest);
    Regroup(p.data, text, rest);
  }

  /** An input is read as a segment exactly when it begins with chunks, each its
      length, a newline and that many octets, and a length of 0. */
  lemma {:induction false} AcceptsExactly(input: string, data: string, rest: string)
    ensures ReadFrom(input, "") == Segment(data, rest)
      <==> exists pieces, end :: IsSegment(pieces, end) && input == TextOf(pieces, end) + rest && data == DataOf(pieces)
  {
    hide ReadFrom, IsSegment, TextOf, DataOf;
    if ReadFrom(input, "") == Segment(data, rest) {
      var pieces, end := ReadIsSegment(input, "");
      Regroup(DataOf(pieces), "", "");
    }
    if pieces, end :| IsSegment(pieces, end) && input == TextOf(pieces, end) + rest && data == DataOf(pieces) {
      SegmentIsRead(pieces, end, "", rest);
      Regroup(data, "", "");
    }
  }

  /** The segments that a conversation's pieces and ends spell. */
  function TextsOf(segments: seq<(seq<Piece>, string)>): string {
    if segments == [] then "" else TextOf(segments[0].0, segments[0].1) + TextsOf(segments[1..])
  }

  /** A conversation is read without an error exactly when its input is a sequence of
      segments. */
  lemma {:induction false} ConversationExactlyWhen(input: string)
    ensures ReadAll(input).1 <==>
      exists segments: seq<(seq<Piece>, string)> ::
        (forall s | s in segments :: IsSegment(s.0, s.1)) && input == TextsOf(segments)
    decreases |input|
  {
    hide ReadFrom, IsSegment, TextOf, DataOf;
    if ReadAll(input).1 {
      var segments := SegmentsRead(input);
    }
    if segments: seq<(seq<Piece>, string)> :|
       (forall s | s in segments :: IsSegment(s.0, s.1)) && input == TextsOf(segments) {
      SegmentsAreRead(segments);
    }
  }

  lemma {:induction false} EndIsEmpty(input: string, buffer: string)
    requires ReadFrom(input, buffer) == EndOfInput
    ensures input == "" && buffer == ""
    decreases |input|
  {
    hide Run, Value;
    if input != "" {
      var n := Run(input);
      var len, tail := Value(input[..n]), input[n + 1..];
      assert |buffer + tail[..len]| > 0;
      EndIsEmpty(tail[len..], buffer + tail[..len]);
    }
  }

  lemma {:induction false} SegmentsRead(input: string) returns (segments: seq<(seq<Piece>, string)>)
    requires ReadAll(input).1
    ensures (forall s | s in segments :: IsSegment(s.0, s.1)) && input == TextsOf(segments)
    decreases |input|
  {
    hide IsSegment, TextOf, DataOf, Run, Value;
    segments := [];
    if ReadFrom(input, "").Segment? {
      var pieces, end := ReadIsSegment(input, "");
      var more := SegmentsRead(ReadFrom(input, "").rest);
      segments := [(pieces, end)] + more;
      assert segments[1..] == more;
    } else {
      EndIsEmpty(input, "");
    }
  }

  lemma {:induction false} SegmentsAreRead(segments: seq<(seq<Piece>, string)>)
    requires forall s | s in segments :: IsSegment(s.0, s.1)
    ensures ReadAll(TextsOf(segments)).1
    decreases segments
  {
    hide IsSegment, TextOf, DataOf, Run, Value;
    if segments != [] {
      SegmentIsRead(segments[0].0, segments[0].1, "", TextsOf(segments[1..]));
      SegmentsAreRead(segments[1..]);
    }
  }

  // ---- the server

  lemma {:induction false} RunStep(s: string, i: nat)
    requires i <= Run(s)
    ensures i < |s| && IsDigit(s[i]) <==> i < Run(s)
  {
  }

  lemma {:induction false} NotNegative(digits: string)
    requires forall i | 0 <= i < |digits| :: IsDigit(digits[i])
    ensures Value(digits) >= 0
  {
    if digits != "" {
      NotNegative(digits[..|digits| - 1]);
    }
  }

  class LocalServer {
    var input: string
    var buffer: string
    var out: string
    var eof: bool
    var fatal: bool

    constructor (input: string)
      ensures this.input == input && out == "" && !eof && !fatal
    {
      this.input, buffer, out, eof, fatal := input, "", "", false, false;
    }

    method WriteResult(result: string)
      modifies this`out
      ensures out == old(out) + Chunk(result)
    {
      if |result| > 0 {
        out := out + (Decimal(|result|) + "\n");
        out := out + result;
      }
    }

    method WriteEnd()
      modifies this`out
      ensures out == old(out) + END
    {
      out := out + "0\n";
    }

    /** fgetc: the next octet, or none at the end. */
    method GetChar() returns (c: string)
      modifies this`input
      ensures old(input) == "" ==> c == "" && input == ""
      ensures old(input) != "" ==> c == [old(input)[0]] && input == old(input)[1..]
    {
      if input == "" {
        return "";
      }
      c := [input[0]];
      input := input[1..];
    }

    /** fscanf of a decimal number, all of whose digits are consumed. */
    method ScanNumber() returns (n: int)
      modifies this`input
      ensures n == Value(old(input)[..Run(old(input))]) && input == old(input)[Run(old(input))..]
    {
      n := 0;
      ghost var i := 0;
      while input != "" && IsDigit(input[0])
        invariant 0 <= i <= Run(old(input)) && input == old(input)[i..]
        invariant n == Value(old(input)[..i])
        decreases |input|
      {
        RunStep(old(input), i);
        assert old(input)[..i + 1][..i] == old(input)[..i];
        n := 10 * n + (input[0] as int - '0' as int);
        input := input[1..];
        i := i + 1;
      }
      RunStep(old(input), i);
    }

    /** The octets of one chunk, onto the buffer. */
    method ReadChunk(len: nat) returns (ok: bool)
      modifies this`input, this`buffer
      ensures ok <==> len <= |old(input)|
      ensures ok ==> input == old(input)[len..] && buffer == old(buffer) + old(input)[..len]
    {
      var left := len;
      ghost var i := 0;
      while left > 0
        invariant 0 <= left && left + i == len && i <= |old(input)| && input == old(input)[i..]
        invariant buffer == old(buffer) + old(input)[..i]
        decreases left
      {
        var c := GetChar();
        if c == "" {
          return false;
        }
        assert old(input)[..i + 1] == old(input)[..i] + c;
        buffer := buffer + c;
        left := left - 1;
        i := i + 1;
      }
      ok := true;
    }

    /** get_input: one segment, nothing at the end of the input, or a fatal error. */
    method GetInput() returns (r: Outcome)
      modifies this`input, this`buffer, this`fatal
      ensures old(eof) ==> r == EndOfInput && input == old(input)
      ensures !old(eof) ==> r == ReadFrom(old(input), "") && (r.Segment? ==> input == r.rest)
      ensures fatal <==> old(fatal) || r == Invalid
    {
      if eof {
        return EndOfInput;
      }
      buffer := "";
      while true
        invariant ReadFrom(old(input), "") == ReadFrom(input, buffer) && fatal == old(fatal)
        decreases |input|
      {
        if input == "" {
          if buffer != "" {
            fatal := true;
            return Invalid;
          }
          return EndOfInput;
        }
        if !IsDigit(input[0]) {
          fatal := true;
          return Invalid;
        }
        ghost var before := input;
        var len := ScanNumber();
        var c := GetChar();
        if c != "\n" {
          fatal := true;
          return Invalid;
        }
        if len == 0 {
          return Segment(buffer, input);
        }
        NotNegative(before[..Run(before)]);
        var ok := ReadChunk(len);
        if !ok {
          fatal := true;
          return Invalid;
        }
      }
    }
  }
}
