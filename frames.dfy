// The frame buffer: what the receiver extracts from the bytes it holds,
// given the codec's Unmarshal as a function of the buffered bytes.
module FrameBuffer {
  import opened Protocol

  /** A frame Unmarshal decoded and the number of bytes it consumed. */
  datatype Decoded = Decoded(msg: Message, consumed: nat)

  /** _Unmarshal: a frame decoded from the front of the bytes, or None for
      incomplete or malformed data (the codec is not part of this model). */
  type Unmarshal = seq<byte> -> Option<Decoded>

  /** The assumption the drain loop needs to end: a decoded frame consumes
      at least one byte and no more than it was given. The codec is not
      shown, so this is assumed rather than proved. */
  ghost predicate Progressing(unmarshal: Unmarshal) {
    forall b :: unmarshal(b).Some? ==> 0 < unmarshal(b).value.consumed <= |b|
  }

  /** A codec whose verdict on a complete frame does not change when more
      bytes follow it: what a length-prefixed wire format gives. */
  ghost predicate Stable(unmarshal: Unmarshal) {
    forall b, e :: unmarshal(b).Some? ==> unmarshal(b + e) == unmarshal(b)
  }

  /** Pop until Unmarshal fails: the frames, in buffer order, and what is
      left. What is left is never longer than the buffer, and each frame
      taken accounts for at least one of the bytes removed. */
  function Drain(unmarshal: Unmarshal, buf: seq<byte>): (r: (seq<Message>, seq<byte>))
    requires Progressing(unmarshal)
    ensures |r.0| + |r.1| <= |buf|
    decreases |buf|
  {
    match unmarshal(buf)
    case None => ([], buf)
    case Some(d) =>
      var r := Drain(unmarshal, buf[d.consumed..]);
      ([d.msg] + r.0, r.1)
  }

  /** One step of the drain: an undecodable buffer yields nothing; a
      decoded frame comes first, then the frames of the rest. */
  lemma DrainStep(unmarshal: Unmarshal, buf: seq<byte>)
    requires Progressing(unmarshal)
    ensures unmarshal(buf).None? ==> Drain(unmarshal, buf) == ([], buf)
    ensures unmarshal(buf).Some? ==>
      var d := unmarshal(buf).value;
      var r := Drain(unmarshal, buf[d.consumed..]);
      0 < d.consumed <= |buf| && Drain(unmarshal, buf) == ([d.msg] + r.0, r.1)
  {
  }

  /** One pop as _PopMessage performs it, against the drain: a failed pop
      ends the drain with the buffer as it is; a successful one removes at
      least one byte and its message heads the drain. */
  lemma PopStep(unmarshal: Unmarshal, before: seq<byte>, after: seq<byte>, m: Option<Message>)
    requires Progressing(unmarshal)
    requires match unmarshal(before)
      case None => m.None? && after == before
      case Some(d) => m == Some(d.msg) && after == before[Min(d.consumed, |before|)..]
    ensures m.None? ==> unmarshal(after).None? && Drain(unmarshal, before) == ([], after)
    ensures m.Some? ==>
      && |after| < |before|
      && Drain(unmarshal, before) == ([m.value] + Drain(unmarshal, after).0, Drain(unmarshal, after).1)
  {
    DrainStep(unmarshal, before);
  }

  /** The drain owed after `taken` frames, once one more frame is popped. */
  lemma DrainOwed(unmarshal: Unmarshal, whole: (seq<Message>, seq<byte>), taken: seq<Message>,
                  before: seq<byte>, after: seq<byte>, m: Message)
    requires Progressing(unmarshal)
    requires whole.0 == taken + Drain(unmarshal, before).0 && whole.1 == Drain(unmarshal, before).1
    requires Drain(unmarshal, before) == ([m] + Drain(unmarshal, after).0, Drain(unmarshal, after).1)
    ensures whole.0 == (taken + [m]) + Drain(unmarshal, after).0 && whole.1 == Drain(unmarshal, after).1
  {
    assert taken + ([m] + Drain(unmarshal, after).0) == (taken + [m]) + Drain(unmarshal, after).0;
  }

  /** Draining leaves a suffix of the buffer from which no frame decodes. */
  lemma {:induction false} DrainLeavesUndecodable(unmarshal: Unmarshal, buf: seq<byte>)
    requires Progressing(unmarshal)
    ensures var rest := Drain(unmarshal, buf).1;
      unmarshal(rest).None? && rest == buf[|buf| - |rest|..]
    decreases |buf|
  {
    match unmarshal(buf)
    case None =>
    case Some(d) =>
      DrainLeavesUndecodable(unmarshal, buf[d.consumed..]);
  }

  /** With a stable codec, draining a longer buffer first yields the frames
      of its front part and then carries on from the leftover bytes. */
  lemma {:induction false} DrainAppend(unmarshal: Unmarshal, b: seq<byte>, e: seq<byte>)
    requires Progressing(unmarshal) && Stable(unmarshal)
    ensures var (m1, r1) := Drain(unmarshal, b);
      var (m2, r2) := Drain(unmarshal, r1 + e);
      Drain(unmarshal, b + e) == (m1 + m2, r2)
    decreases |b|
  {
    match unmarshal(b)
    case None =>
      var (m2, r2) := Drain(unmarshal, b + e);
      assert [] + m2 == m2;
    case Some(d) =>
      assert unmarshal(b + e) == unmarshal(b);
      assert (b + e)[d.consumed..] == b[d.consumed..] + e;
      DrainAppend(unmarshal, b[d.consumed..], e);
      var (m1, r1) := Drain(unmarshal, b[d.consumed..]);
      var (m2, r2) := Drain(unmarshal, r1 + e);
      assert Drain(unmarshal, b + e) == ([d.msg] + (m1 + m2), r2);
      assert [d.msg] + (m1 + m2) == ([d.msg] + m1) + m2;
  }

  /** The chunks' bytes, one after the other. */
  function Concat(chunks: seq<seq<byte>>): seq<byte>
    decreases |chunks|
  {
    if chunks == [] then [] else chunks[0] + Concat(chunks[1..])
  }

  /** The receiver over a finite run of chunks: drain, then for each chunk read
      append its bytes and drain again. No more frames come out, and no
      more bytes are left over, than went in. */
  function Feed(unmarshal: Unmarshal, buf: seq<byte>, chunks: seq<seq<byte>>): (r: (seq<Message>, seq<byte>))
    requires Progressing(unmarshal)
    ensures |r.0| + |r.1| <= |buf| + |Concat(chunks)|
    decreases |chunks|
  {
    var d := Drain(unmarshal, buf);
    if chunks == [] then d
    else
      var f := Feed(unmarshal, d.1 + chunks[0], chunks[1..]);
      (d.0 + f.0, f.1)
  }

  /** Feeding starts with a drain and goes on from its leftover. */
  lemma FeedAfterDrain(unmarshal: Unmarshal, buf: seq<byte>, chunks: seq<seq<byte>>)
    requires Progressing(unmarshal)
    ensures var (m1, r1) := Drain(unmarshal, buf);
      var (m2, r2) := Feed(unmarshal, r1, chunks);
      Feed(unmarshal, buf, chunks) == (m1 + m2, r2)
  {
    var (m1, r1) := Drain(unmarshal, buf);
    DrainLeavesUndecodable(unmarshal, buf);
    assert Drain(unmarshal, r1) == ([], r1);
    if chunks == [] {
      assert m1 + [] == m1;
    } else {
      var f := Feed(unmarshal, r1 + chunks[0], chunks[1..]);
      assert Feed(unmarshal, r1, chunks) == ([] + f.0, f.1);
      assert [] + f.0 == f.0;
    }
  }

  /** On a buffer with nothing to decode, feeding a chunk first appends it. */
  lemma FeedStep(unmarshal: Unmarshal, buf: seq<byte>, chunks: seq<seq<byte>>)
    requires Progressing(unmarshal) && unmarshal(buf).None? && chunks != []
    ensures Feed(unmarshal, buf, chunks) == Feed(unmarshal, buf + chunks[0], chunks[1..])
  {
    DrainStep(unmarshal, buf);
    var f := Feed(unmarshal, buf + chunks[0], chunks[1..]);
    assert [] + f.0 == f.0;
  }

  /** One pass of the receiver's outer loop keeps the account of the whole
      feed: what was owed from the buffer and the chunks left is what the
      pass took plus what is owed from its leftover and the chunks after. */
  lemma FeedLoopStep(unmarshal: Unmarshal, whole: (seq<Message>, seq<byte>), msgs: seq<Message>,
                     buf: seq<byte>, chunks: seq<seq<byte>>, more: seq<Message>, left: seq<byte>)
    requires Progressing(unmarshal) && unmarshal(buf).None? && chunks != []
    requires whole.0 == msgs + Feed(unmarshal, buf, chunks).0
    requires whole.1 == Feed(unmarshal, buf, chunks).1
    requires Feed(unmarshal, buf + chunks[0], chunks[1..]) ==
      (more + Feed(unmarshal, left, chunks[1..]).0, Feed(unmarshal, left, chunks[1..]).1)
    ensures whole.0 == (msgs + more) + Feed(unmarshal, left, chunks[1..]).0
    ensures whole.1 == Feed(unmarshal, left, chunks[1..]).1
  {
    var owed := Feed(unmarshal, left, chunks[1..]);
    assert Feed(unmarshal, buf, chunks) == (more + owed.0, owed.1) by {
      FeedStep(unmarshal, buf, chunks);
    }
    assert msgs + (more + owed.0) == (msgs + more) + owed.0;
  }

  lemma JoinAssoc(a: seq<byte>, b: seq<byte>, c: seq<byte>)
    ensures a + b + c == a + (b + c)
  {
  }

  /** The inductive step of FeedMatchesWhole: the first chunk joins the
      leftover of the first drain. */
  lemma FeedWholeStep(unmarshal: Unmarshal, buf: seq<byte>, chunks: seq<seq<byte>>)
    requires Progressing(unmarshal) && Stable(unmarshal) && chunks != []
    requires var left := Drain(unmarshal, buf).1;
      Feed(unmarshal, left + chunks[0], chunks[1..]) ==
        Drain(unmarshal, left + chunks[0] + Concat(chunks[1..]))
    ensures Feed(unmarshal, buf, chunks) == Drain(unmarshal, buf + Concat(chunks))
  {
    var d := Drain(unmarshal, buf);
    var tail := Concat(chunks[1..]);
    var f := Feed(unmarshal, d.1 + chunks[0], chunks[1..]);
    assert Feed(unmarshal, buf, chunks) == (d.0 + f.0, f.1);
    assert Concat(chunks) == chunks[0] + tail;
    DrainAppend(unmarshal, buf, chunks[0] + tail);
    JoinAssoc(d.1, chunks[0], tail);
    assert f == Drain(unmarshal, d.1 + (chunks[0] + tail));
  }

  /** However the byte stream is cut into chunks, a stable codec yields the
      same frames, in the same order, and the same leftover as when all
      bytes arrive at once. */
  lemma {:induction false} FeedMatchesWhole(unmarshal: Unmarshal, buf: seq<byte>, chunks: seq<seq<byte>>)
    requires Progressing(unmarshal) && Stable(unmarshal)
    ensures Feed(unmarshal, buf, chunks) == Drain(unmarshal, buf + Concat(chunks))
    decreases |chunks|
  {
    if chunks == [] {
      assert buf + Concat(chunks) == buf;
    } else {
      FeedMatchesWhole(unmarshal, Drain(unmarshal, buf).1 + chunks[0], chunks[1..]);
      FeedWholeStep(unmarshal, buf, chunks);
    }
  }
}
