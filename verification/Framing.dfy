/** BinaryFILE framing: a two-byte big-endian length before every message, checked against the message's type. */
module Framing {
  import opened Core
  import opened Endian

  datatype FrameStatus = Ok | EndOfInput | NeedMore | Malformed

  datatype FrameError = NoError | TruncatedLengthPrefix | TruncatedBody | ZeroLength | UnknownType | LengthMismatch

  const PREFIX: nat := 2
  const MAX_MESSAGE: nat := 50
  const MIN_BUFFER: nat := 52

  /** The body length of each of the 23 message types; 0 for anything else. */
  function MessageLength(t: u8): (n: nat)
    ensures n <= MAX_MESSAGE
  {
    match t as char
    case 'S' => 12
    case 'R' => 39
    case 'H' => 25
    case 'Y' => 20
    case 'L' => 26
    case 'V' => 35
    case 'W' => 12
    case 'K' => 28
    case 'J' => 35
    case 'h' => 21
    case 'A' => 36
    case 'F' => 40
    case 'E' => 31
    case 'C' => 36
    case 'X' => 23
    case 'D' => 19
    case 'U' => 35
    case 'P' => 44
    case 'Q' => 40
    case 'B' => 19
    case 'I' => 50
    case 'N' => 20
    case 'O' => 48
    case _ => 0
  }

  /** What the cursor makes of the bytes that remain: the body of a frame if there is one, and how much it takes. */
  datatype Parsed = Parsed(status: FrameStatus, error: FrameError, body: Bytes) {
    function Size(): nat {
      if status.Ok? then PREFIX + |body| else 0
    }
  }

  function Parse(rest: Bytes): (r: Parsed)
    ensures r.Size() <= |rest|
  {
    if rest == [] then Parsed(EndOfInput, NoError, [])
    else if |rest| < PREFIX then Parsed(NeedMore, TruncatedLengthPrefix, [])
    else
      var len := FromBig(rest[..PREFIX]);
      if len == 0 then Parsed(Malformed, ZeroLength, [])
      else if |rest| - PREFIX < len then Parsed(NeedMore, TruncatedBody, [])
      else
        var declared := MessageLength(rest[PREFIX]);
        if declared == 0 then Parsed(Malformed, UnknownType, [])
        else if declared != len then Parsed(Malformed, LengthMismatch, [])
        else Parsed(Ok, NoError, rest[PREFIX..PREFIX + len])
  }

  /** The length that the first two bytes announce. */
  function Announced(rest: Bytes): nat
    requires |rest| >= 2
  {
    var high: nat := rest[0];
    0x100 * high + rest[1]
  }

  /** Exactly when the parser answers what: the four verdicts. */
  lemma Verdicts(rest: Bytes)
    ensures Parse(rest).status == EndOfInput <==> rest == []
    ensures Parse(rest).status == NeedMore <==>
              |rest| == 1 || (|rest| >= 2 && Announced(rest) > 0 && |rest| < 2 + Announced(rest))
    ensures Parse(rest).status == Malformed <==>
              |rest| >= 2 &&
              (Announced(rest) == 0 ||
               (|rest| >= 2 + Announced(rest) && !IsBody(rest[2..2 + Announced(rest)])))
    ensures Parse(rest).status == Ok <==>
              |rest| >= 2 && |rest| >= 2 + Announced(rest) && IsBody(rest[2..2 + Announced(rest)])
    ensures Parse(rest).status == Ok ==> Parse(rest).body == rest[2..2 + Announced(rest)]
    ensures Parse(rest).status != Ok ==> Parse(rest).body == []
  {
    hide MessageLength, FromBig;
    if |rest| >= 2 {
      TwoBytes(rest);
    }
  }

  /** ... and the errors that go with them. */
  lemma Errors(rest: Bytes)
    ensures Parse(rest).error == NoError <==> Parse(rest).status == Ok || Parse(rest).status == EndOfInput
    ensures Parse(rest).error == TruncatedLengthPrefix <==> |rest| == 1
    ensures Parse(rest).error == TruncatedBody <==> |rest| >= 2 && 0 < Announced(rest) && |rest| < 2 + Announced(rest)
    ensures Parse(rest).error == ZeroLength <==> |rest| >= 2 && Announced(rest) == 0
    ensures Parse(rest).error == UnknownType <==>
              |rest| >= 2 && 0 < Announced(rest) <= |rest| - 2 && MessageLength(rest[2]) == 0
    ensures Parse(rest).error == LengthMismatch <==>
              |rest| >= 2 && 0 < Announced(rest) <= |rest| - 2 &&
              MessageLength(rest[2]) != 0 && MessageLength(rest[2]) != Announced(rest)
  {
    hide MessageLength, FromBig;
    if |rest| >= 2 {
      TwoBytes(rest);
    }
  }

  lemma TwoBytes(rest: Bytes)
    requires |rest| >= 2
    ensures FromBig(rest[..2]) == Announced(rest)
  {
    var p := rest[..2];
    assert p[..1][..0] == [] && p[..1][0] == rest[0];
    assert FromBig(p[..1]) == rest[0];
  }

  /** The longest message has 50 bytes, so 52 hold any one with its prefix. */
  lemma LongestMessage()
    ensures MIN_BUFFER == PREFIX + 50
    ensures MessageLength('I' as u8) == 50 && forall t: u8 :: MessageLength(t) <= 50
  {
  }

  /** Whether bytes are the body of one of the 23 messages. */
  predicate IsBody(b: Bytes) {
    b != [] && MessageLength(b[0]) == |b|
  }

  predicate Bodies(bs: seq<Bytes>) {
    forall i :: 0 <= i < |bs| ==> IsBody(bs[i])
  }

  function Frame(b: Bytes): Bytes
    requires |b| < 0x1_0000
  {
    ToBig(|b|, PREFIX) + b
  }

  /** The encoding of a sequence of messages. */
  function Encode(bs: seq<Bytes>): Bytes
    requires Bodies(bs)
  {
    if bs == [] then [] else Frame(bs[0]) + Encode(bs[1..])
  }

  datatype Walked = Walked(frames: seq<Bytes>, consumed: nat, status: FrameStatus, error: FrameError)

  /** All the frames there are, and why they end. */
  function Walk(rest: Bytes): (w: Walked)
    ensures w.consumed <= |rest| && !w.status.Ok?
    decreases |rest|
  {
    var p := Parse(rest);
    if p.status.Ok? then
      var w := Walk(rest[p.Size()..]);
      w.(frames := [p.body] + w.frames, consumed := p.Size() + w.consumed)
    else Walked([], 0, p.status, p.error)
  }

  // Parsing and encoding

  /** A frame parses as itself whatever follows it. */
  lemma FrameParses(b: Bytes, rest: Bytes)
    requires IsBody(b)
    ensures Parse(Frame(b) + rest) == Parsed(Ok, NoError, b) && (Frame(b) + rest)[PREFIX + |b|..] == rest
  {
    hide FromBig, ToBig, Pow256;
    Widths();
    ValueBack(|b|, PREFIX);
    var x := Frame(b) + rest;
    assert x[..PREFIX] == ToBig(|b|, PREFIX) && x[PREFIX] == b[0] && x[PREFIX..PREFIX + |b|] == b;
  }

  /** Encoding then parsing gives back exactly the messages, and ends at the end of the input. */
  lemma {:induction false} EncodeThenWalk(bs: seq<Bytes>)
    requires Bodies(bs)
    ensures Walk(Encode(bs)) == Walked(bs, |Encode(bs)|, EndOfInput, NoError)
  {
    hide Frame, IsBody;
    if bs != [] {
      EncodeThenWalk(bs[1..]);
      Headed(bs[0], Encode(bs[1..]));
    }
  }

  lemma Headed(b: Bytes, rest: Bytes)
    requires IsBody(b)
    ensures var w := Walk(rest);
            Walk(Frame(b) + rest) == w.(frames := [b] + w.frames, consumed := |Frame(b)| + w.consumed)
  {
    FrameParses(b, rest);
    hide Parse;
  }

  /** A frame that parses is the encoding of its body. */
  lemma ParsedFrame(rest: Bytes)
    requires Parse(rest).status.Ok?
    ensures var p := Parse(rest); IsBody(p.body) && p.error.NoError? && rest[..p.Size()] == Frame(p.body)
  {
    hide FromBig, ToBig;
    var p := Parse(rest);
    BytesBack(rest[..PREFIX]);
    assert rest[..p.Size()] == rest[..PREFIX] + p.body;
  }

  /** Conversely, re-encoding the frames found in arbitrary bytes gives back exactly the bytes consumed. */
  lemma {:induction false} WalkThenEncode(rest: Bytes)
    ensures var w := Walk(rest); Bodies(w.frames) && Encode(w.frames) == rest[..w.consumed]
    decreases |rest|
  {
    hide Parse, Frame, IsBody;
    var p := Parse(rest);
    if p.status.Ok? {
      ParsedFrame(rest);
      var tail := rest[p.Size()..];
      WalkThenEncode(tail);
      var w := Walk(tail);
      assert ([p.body] + w.frames)[1..] == w.frames;
      assert rest[..p.Size() + w.consumed] == rest[..p.Size()] + tail[..w.consumed];
    }
  }

  /** Where the walk ends is where the parser refuses, and for the reason it gives. */
  lemma {:induction false} WalkEnds(rest: Bytes)
    ensures var w := Walk(rest); var p := Parse(rest[w.consumed..]);
            !p.status.Ok? && w.status == p.status && w.error == p.error
    decreases |rest|
  {
    hide Parse;
    var p := Parse(rest);
    if p.status.Ok? {
      var tail := rest[p.Size()..];
      WalkEnds(tail);
      var w := Walk(tail);
      assert rest[p.Size() + w.consumed..] == tail[w.consumed..];
    } else {
      assert rest[0..] == rest;
    }
  }

  /** A walk ends cleanly exactly when it has consumed everything. */
  lemma CleanEnd(rest: Bytes)
    ensures Walk(rest).status == EndOfInput <==> Walk(rest).consumed == |rest|
  {
    hide Walk, Parse;
    WalkEnds(rest);
    Verdicts(rest[Walk(rest).consumed..]);
  }

  // The cursor

  class FrameCursor {
    var buf: Bytes
    var pos: nat
    var error: FrameError

    ghost predicate Valid()
      reads this
    {
      pos <= |buf|
    }

    constructor (buf: Bytes)
      ensures Valid() && this.buf == buf && pos == 0 && error == NoError
    {
      this.buf := buf;
      pos := 0;
      error := NoError;
    }

    /** The next frame. Anything but Ok consumes nothing. */
    method Next(little: bool) returns (status: FrameStatus, out: Bytes)
      requires Valid()
      modifies this`pos, this`error
      ensures Valid()
      ensures Parsed(status, error, out) == Parse(old(buf[pos..])) && pos == old(pos) + Parse(old(buf[pos..])).Size()
    {
      hide FromBig, LoadBe, MessageLength;
      ghost var rest := buf[pos..];
      error := NoError;
      out := [];
      var avail := |buf| - pos;
      if avail == 0 {
        return EndOfInput, [];
      }
      if avail < PREFIX {
        error := TruncatedLengthPrefix;
        return NeedMore, [];
      }
      assert buf[pos..pos + PREFIX] == rest[..PREFIX];
      OrderIrrelevant(little, rest[..PREFIX], 0, 0);
      var len := LoadBe(little, buf[pos..pos + PREFIX]);
      if len == 0 {
        error := ZeroLength;
        return Malformed, [];
      }
      if avail - PREFIX < len {
        error := TruncatedBody;
        return NeedMore, [];
      }
      var declared := MessageLength(buf[pos + PREFIX]);
      if declared == 0 {
        error := UnknownType;
        return Malformed, [];
      }
      if declared != len {
        error := LengthMismatch;
        return Malformed, [];
      }
      assert buf[pos + PREFIX..pos + PREFIX + len] == rest[PREFIX..PREFIX + len];
      out := buf[pos + PREFIX..pos + PREFIX + len];
      pos := pos + PREFIX + len;
      status := Ok;
    }

    method Reset(buf: Bytes)
      modifies this
      ensures Valid() && this.buf == buf && pos == 0 && error == NoError
    {
      this.buf := buf;
      pos := 0;
      error := NoError;
    }
  }

  /** The zero-copy path: a cursor run over the whole input. */
  method WalkAll(input: Bytes, little: bool) returns (frames: seq<Bytes>, offset: nat, status: FrameStatus,
      error: FrameError)
    ensures Walked(frames, offset, status, error) == Walk(input)
  {
    hide Parse;
    var c := new FrameCursor(input);
    frames := [];
    assert input[0..] == input;
    while true
      invariant c.Valid() && c.buf == input
      invariant var w := Walk(input[c.pos..]); Walk(input) == w.(frames := frames + w.frames,
                consumed := c.pos + w.consumed)
      decreases |input| - c.pos
    {
      ghost var p := Parse(input[c.pos..]);
      ghost var at := c.pos;
      var st, out := c.Next(little);
      if !st.Ok? {
        return frames, c.pos, st, c.error;
      }
      assert input[at..][p.Size()..] == input[c.pos..];
      frames := frames + [out];
    }
  }

  // The test printer

  class WireBuilder {
    var buf: Bytes

    constructor ()
      ensures buf == []
    {
      buf := [];
    }

    /** A frame of the given type with a zeroed body; returns where the body starts. */
    method Begin(t: u8, little: bool) returns (body: nat)
      requires MessageLength(t) > 0
      modifies this
      ensures body == old(|buf|) + PREFIX
      ensures buf == old(buf) + Frame(Zeroed(t)) && IsBody(Zeroed(t))
    {
      hide ToBig, StoreBe, MessageLength;
      var len := MessageLength(t);
      Widths();
      OrderIrrelevant(little, [], len, PREFIX);
      body := |buf| + PREFIX;
      buf := buf + StoreBe(little, len, PREFIX) + seq(len, i => 0);
      buf := buf[body := t];
      assert buf == old(buf) + ToBig(len, PREFIX) + Zeroed(t);
    }

    /** A frame whose declared length need not be that of its body. */
    method AppendRaw(declared: u16, body: Bytes, little: bool)
      modifies this
      ensures buf == old(buf) + ToBig(declared, PREFIX) + body
    {
      hide ToBig, StoreBe;
      Widths();
      OrderIrrelevant(little, [], declared, PREFIX);
      buf := buf + StoreBe(little, declared, PREFIX) + body;
    }

    /** Overwrites a field of n bytes inside the buffer. */
    method Put(at: nat, v: nat, n: nat, little: bool)
      requires at + n <= |buf| && v < Pow256(n)
      modifies this
      ensures buf == old(buf)[..at] + ToBig(v, n) + old(buf)[at + n..]
      ensures LoadBe(little, buf[at..at + n]) == v
    {
      hide ToBig, StoreBe, LoadBe, Pow256;
      OrderIrrelevant(little, [], v, n);
      StoreLoad(little, little, [], v, n);
      buf := buf[..at] + StoreBe(little, v, n) + buf[at + n..];
      assert buf[at..at + n] == StoreBe(little, v, n);
    }
  }

  function Zeroed(t: u8): (b: Bytes)
    ensures |b| == MessageLength(t)
  {
    seq(MessageLength(t), i => if i == 0 then t else 0)
  }
}
