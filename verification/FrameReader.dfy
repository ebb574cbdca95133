/** The buffered reader: a cursor over a buffer that is refilled, and compacted in place, from a source of bytes. */
module FrameReaders {
  import opened Core
  import opened Endian
  import opened Framing

  /**
   A source that hands out its data in chunks. The k-th read gives at most chunkAt(k) bytes, and no limit when that is
   0, so every way of cutting the input up is some source.
   */
  class MemorySource {
    const data: Bytes
    const chunkAt: nat -> nat
    var pos: nat
    var calls: nat

    constructor (data: Bytes, chunkAt: nat -> nat)
      ensures this.data == data && this.chunkAt == chunkAt && pos == 0
    {
      this.data := data;
      this.chunkAt := chunkAt;
      pos := 0;
      calls := 0;
    }

    method Read(dst: array<u8>, at: nat, n: nat) returns (take: nat)
      requires pos <= |data| && at + n <= dst.Length
      modifies this, dst
      ensures take <= n && old(pos) + take == pos <= |data|
      ensures take == 0 <==> n == 0 || old(pos) == |data|
      ensures dst[..at] == old(dst[..at]) && dst[at..at + take] == data[old(pos)..pos]
    {
      var chunk := chunkAt(calls);
      var want := if chunk != 0 && n > chunk then chunk else n;
      var left := |data| - pos;
      take := if want < left then want else left;
      forall i | 0 <= i < take {
        dst[at + i] := data[pos + i];
      }
      pos := pos + take;
      calls := calls + 1;
    }
  }

  // What the reader delivers, whatever the chunks

  /** A frame is announced that the input holds and the buffer cannot. No such frame is well formed. */
  predicate Stuck(rest: Bytes, capacity: nat) {
    |rest| >= PREFIX && FromBig(rest[..PREFIX]) > 0 && capacity < PREFIX + FromBig(rest[..PREFIX]) <= |rest|
  }

  function Delivered(rest: Bytes, capacity: nat): (p: Parsed)
    ensures p.Size() <= |rest|
  {
    if Stuck(rest, capacity) then Parsed(NeedMore, TruncatedBody, []) else Parse(rest)
  }

  /** A verdict on part of the input stands for all of it. */
  lemma PrefixParses(have: Bytes, rest: Bytes, capacity: nat)
    requires have <= rest && |have| <= capacity
    ensures Parse(have).status.Ok? || Parse(have).status.Malformed? ==> Delivered(rest, capacity) == Parse(have)
    ensures !Parse(have).status.Ok? && !Parse(have).status.Malformed? &&
            (have == rest || |have| == capacity >= PREFIX) ==>
              Delivered(rest, capacity) == Parse(have)
  {
    hide FromBig, MessageLength;
    if |have| >= PREFIX {
      assert have[..PREFIX] == rest[..PREFIX] && (|have| > PREFIX ==> have[PREFIX] == rest[PREFIX]);
      var len := FromBig(have[..PREFIX]);
      if |have| >= PREFIX + len {
        assert have[PREFIX..PREFIX + len] == rest[PREFIX..PREFIX + len];
      }
    }
  }

  /** What is announced but does not fit is never well formed, so being stuck costs no frame. */
  lemma StuckIsBad(rest: Bytes, capacity: nat)
    requires Stuck(rest, capacity) && capacity >= MIN_BUFFER
    ensures Parse(rest).status.Malformed?
  {
    hide FromBig;
  }

  function ReadWalk(rest: Bytes, capacity: nat): (w: Walked)
    ensures w.consumed <= |rest| && !w.status.Ok?
    decreases |rest|
  {
    var p := Delivered(rest, capacity);
    if p.status.Ok? then
      var w := ReadWalk(rest[p.Size()..], capacity);
      w.(frames := [p.body] + w.frames, consumed := p.Size() + w.consumed)
    else Walked([], 0, p.status, p.error)
  }

  /**
   Buffered reading equals zero-copy reading: the same frames for every buffer that holds one message, and the same
   ending exactly when the reader does not stop before an oversized announcement.
   */
  lemma {:induction false} ReadIsWalk(rest: Bytes, capacity: nat)
    requires capacity >= MIN_BUFFER
    ensures var r, w := ReadWalk(rest, capacity), Walk(rest);
            && r.frames == w.frames && r.consumed == w.consumed
            && (r == w <==> !Stuck(rest[w.consumed..], capacity))
    decreases |rest|
  {
    hide Parse, Stuck;
    var p := Delivered(rest, capacity);
    if Stuck(rest, capacity) {
      StuckIsBad(rest, capacity);
      assert rest[0..] == rest;
    } else if p.status.Ok? {
      var tail := rest[p.Size()..];
      ReadIsWalk(tail, capacity);
      var w := Walk(tail);
      assert rest[p.Size() + w.consumed..] == tail[w.consumed..];
    } else {
      assert rest[0..] == rest;
    }
  }

  /**
   An input on which the two end differently: 60 zero bytes announced and present, read through a buffer of the least
   size allowed. The reader reports that it needs more bytes; the cursor over the whole input calls it malformed.
   */
  lemma StuckOnSixty()
    ensures var rest: Bytes := [0, 60] + seq(60, _ => 0);
            && Stuck(rest, MIN_BUFFER)
            && ReadWalk(rest, MIN_BUFFER) == Walked([], 0, NeedMore, TruncatedBody)
            && Walk(rest) == Walked([], 0, Malformed, UnknownType)
  {
    var zeros: Bytes := seq(60, _ => 0);
    var rest: Bytes := [0, 60] + zeros;
    assert rest[..PREFIX] == [0, 60] && [0, 60][..1] == [0] && [0][..0] == [];
    assert FromBig([0]) == 0 && FromBig([0, 60]) == 60;
    assert rest[PREFIX] == zeros[0] == 0;
    assert Parse(rest) == Parsed(Malformed, UnknownType, []);
  }

  /** A buffer for the largest length a prefix can announce is never stuck. */
  lemma LargeNeverStuck(rest: Bytes, capacity: nat)
    requires capacity >= 65537
    ensures !Stuck(rest, capacity)
  {
    if |rest| >= PREFIX {
      Widths();
      BytesBack(rest[..PREFIX]);
    }
  }

  class FrameReader {
    const source: MemorySource
    const buf: array<u8>
    const cursor: FrameCursor
    var filled: nat
    var frames: nat
    var consumed: nat

    /** The filled part of the buffer is the stretch of the input that starts at consumed. */
    ghost predicate Loaded()
      reads this`filled, this`consumed, source, buf
    {
      && buf.Length >= MIN_BUFFER && filled <= buf.Length
      && consumed + filled == source.pos <= |source.data|
      && buf[..filled] == source.data[consumed..consumed + filled]
    }

    ghost predicate Valid()
      reads this`filled, this`consumed, source, buf, cursor
    {
      Loaded() && cursor.Valid() && cursor.buf == buf[..filled]
    }

    /** The input from the next frame on, buffered or not. */
    ghost function Remaining(): Bytes
      requires Valid()
      reads this`filled, this`consumed, source, buf, cursor
    {
      source.data[consumed + cursor.pos..]
    }

    constructor (source: MemorySource, capacity: nat)
      requires capacity >= MIN_BUFFER && source.pos == 0
      ensures Valid() && Remaining() == source.data && this.source == source && buf.Length == capacity && fresh(buf) &&
              fresh(cursor)
    {
      this.source := source;
      buf := new u8[capacity];
      cursor := new FrameCursor([]);
      filled := 0;
      frames := 0;
      consumed := 0;
    }

    /** Asks the cursor, which sees only what is buffered. */
    method Try(little: bool) returns (status: FrameStatus, out: Bytes)
      requires Valid()
      modifies cursor
      ensures Valid() && cursor.buf == old(cursor.buf) && status == Parse(old(cursor.buf[cursor.pos..])).status
      ensures status.Ok? || status.Malformed? || old(Dry()) ==>
                Parsed(status, cursor.error, out) == Delivered(old(Remaining()), buf.Length)
      ensures status.Ok? ==> Remaining() == old(Remaining())[Delivered(old(Remaining()), buf.Length).Size()..]
      ensures !status.Ok? ==> cursor.pos == old(cursor.pos) && Remaining() == old(Remaining())
    {
      hide Parse, Delivered, Loaded;
      ghost var rest, have, at := Remaining(), cursor.buf[cursor.pos..], consumed + cursor.pos;
      HaveIsPrefix();
      PrefixParses(have, rest, buf.Length);
      status, out := cursor.Next(little);
      if status.Ok? {
        DropTwice(source.data, at, Parse(have).Size());
      }
    }

    /** Nothing more can be read for now: the input is used up or the buffer is full of one unfinished frame. */
    ghost predicate Dry()
      requires Valid()
      reads this`filled, this`consumed, source, buf, cursor
    {
      cursor.pos == 0 && (|cursor.buf| == buf.Length || source.pos == |source.data|)
    }

    /** The same contract as the cursor's, except that NeedMore comes only when no more can be read. */
    method Next(little: bool) returns (status: FrameStatus, out: Bytes)
      requires Valid()
      modifies this, source, buf, cursor
      ensures Valid()
      ensures Parsed(status, cursor.error, out) == Delivered(old(Remaining()), buf.Length)
      ensures Remaining() == old(Remaining())[Delivered(old(Remaining()), buf.Length).Size()..]
      ensures frames == old(frames) + if status.Ok? then 1 else 0
      ensures status.EndOfInput? || status.NeedMore? ==>
                filled == if |old(Remaining())| < buf.Length then |old(Remaining())| else buf.Length
    {
      hide Parse, Delivered, Valid, Remaining, Dry;
      ghost var rest := Remaining();
      DropNone(rest);
      while true
        invariant Valid() && Remaining() == rest && frames == old(frames)
        decreases |source.data| - source.pos
      {
        InBounds();
        status, out := Try(little);
        if status.Ok? {
          frames := frames + 1;
          return;
        }
        if status.Malformed? {
          return;
        }
        var more := Refill();
        if !more {
          // Asked again so that the status describes what is left: it cannot turn out to be a frame after all.
          InBounds();
          status, out := Try(little);
          return;
        }
        InBounds();
      }
    }

    lemma InBounds()
      requires Valid()
      ensures source.pos <= |source.data| && |cursor.buf| == filled
      ensures Dry() ==> filled == if |Remaining()| < buf.Length then |Remaining()| else buf.Length
    {
    }

    lemma DropNone(rest: Bytes)
      ensures rest[0..] == rest
    {
    }

    lemma HaveIsPrefix()
      requires Valid()
      ensures var have := cursor.buf[cursor.pos..];
              have <= Remaining() && |have| <= buf.Length && (Dry() ==> have == Remaining() || |have| == buf.Length) &&
              buf.Length >= MIN_BUFFER && consumed + cursor.pos + |have| <= |source.data|
    {
    }

    /** Moves the unconsumed tail to the front and reads into the space behind it; false when nothing came. */
    method Refill() returns (more: bool)
      requires Valid()
      modifies this`filled, this`consumed, source, buf, cursor
      ensures Valid() && Remaining() == old(Remaining()) && cursor.pos == 0
      ensures more ==> source.pos > old(source.pos)
      ensures !more ==> Dry() && cursor.buf == old(cursor.buf[cursor.pos..])
    {
      Shift();
      var got := Load();
      cursor.Reset(buf[..filled]);
      more := got != 0;
    }

    method Shift()
      requires Valid()
      modifies this`filled, this`consumed, buf
      ensures Loaded() && consumed == old(consumed) + cursor.pos && buf[..filled] == old(cursor.buf[cursor.pos..])
    {
      var keep := filled - cursor.pos;
      TailOf(source.data, consumed, filled, cursor.pos);
      assert cursor.buf[cursor.pos..] == buf[cursor.pos..filled];
      Compact(keep);
      consumed := consumed + cursor.pos;
      filled := keep;
    }

    method Load() returns (got: nat)
      requires Loaded()
      modifies this`filled, source, buf
      ensures Loaded() && filled == old(filled) + got && source.pos == old(source.pos) + got
      ensures got == 0 ==> buf[..filled] == old(buf[..filled]) && (filled == buf.Length || source.pos == |source.data|)
    {
      got := source.Read(buf, filled, buf.Length - filled);
      Glue(buf[..filled + got], filled, source.data, consumed);
      filled := filled + got;
    }

    method Compact(keep: nat)
      requires Valid() && keep == filled - cursor.pos
      modifies buf
      ensures buf[..keep] == old(buf[cursor.pos..filled])
    {
      if keep != 0 && cursor.pos != 0 {
        for i := 0 to keep
          invariant forall k :: 0 <= k < i ==> buf[k] == old(buf[cursor.pos + k])
          invariant forall k :: i <= k < buf.Length ==> buf[k] == old(buf[k])
        {
          buf[i] := buf[cursor.pos + i];
        }
      }
    }

    /** Every frame the reader yields, and how it ends. */
    method ReadAll(little: bool) returns (out: seq<Bytes>, status: FrameStatus)
      requires Valid()
      modifies this, source, buf, cursor
      ensures Valid()
      ensures var w := ReadWalk(old(Remaining()), buf.Length);
              out == w.frames && status == w.status && cursor.error == w.error &&
              Remaining() == old(Remaining())[w.consumed..]
      ensures out == Walk(old(Remaining())).frames
    {
      hide Parse, Delivered, Valid, Remaining, ReadWalk, Walk, Stuck, Partway;
      ghost var rest, done: nat, whole := Remaining(), 0, ReadWalk(Remaining(), buf.Length);
      RoomForOne();
      ReadIsWalk(rest, buf.Length);
      DropNone(rest);
      PartwayStart(rest, buf.Length);
      out := [];
      while true
        invariant Valid() && done <= |rest| && Remaining() == rest[done..] &&
                  Partway(whole, Remaining(), done, out, buf.Length)
        decreases |rest| - done
      {
        ghost var p := Delivered(Remaining(), buf.Length);
        PartwayStep(whole, Remaining(), done, out, buf.Length);
        DropTwice(rest, done, p.Size());
        var st, frame := Next(little);
        if !st.Ok? {
          return out, st;
        }
        done := done + p.Size();
        out := out + [frame];
      }
    }

    lemma RoomForOne()
      requires Valid()
      ensures buf.Length >= MIN_BUFFER
    {
    }
  }

  /** The frames out have been read, done bytes of them; whole is what reading on from left adds up to. */
  ghost predicate Partway(whole: Walked, left: Bytes, done: nat, out: seq<Bytes>, capacity: nat) {
    var w := ReadWalk(left, capacity);
    whole == Walked(out + w.frames, done + w.consumed, w.status, w.error)
  }

  lemma PartwayStart(rest: Bytes, capacity: nat)
    ensures Partway(ReadWalk(rest, capacity), rest, 0, [], capacity)
  {
    hide ReadWalk;
  }

  lemma PartwayStep(whole: Walked, left: Bytes, done: nat, out: seq<Bytes>, capacity: nat)
    requires Partway(whole, left, done, out, capacity)
    ensures var p := Delivered(left, capacity);
            if p.status.Ok? then Partway(whole, left[p.Size()..], done + p.Size(), out + [p.body], capacity)
            else whole == Walked(out, done, p.status, p.error)
  {
    hide Delivered, Parse;
    var p := Delivered(left, capacity);
    if p.status.Ok? {
      var w := ReadWalk(left[p.Size()..], capacity);
      assert out + ([p.body] + w.frames) == out + [p.body] + w.frames;
    } else {
      assert out + [] == out;
    }
  }

  lemma DropTwice(data: Bytes, a: nat, n: nat)
    requires a + n <= |data|
    ensures data[a..][n..] == data[a + n..]
  {
  }

  lemma TailOf(data: Bytes, a: nat, n: nat, k: nat)
    requires a + n <= |data| && k <= n
    ensures data[a..a + n][k..n] == data[a + k..a + n]
  {
  }

  lemma Glue(b: Bytes, n: nat, data: Bytes, a: nat)
    requires n <= |b| && a + |b| <= |data|
    requires b[..n] == data[a..a + n] && b[n..] == data[a + n..a + |b|]
    ensures b == data[a..a + |b|]
  {
    assert b == b[..n] + b[n..];
  }
}
