/** The playback ring buffer of audio.c, as a bounded queue of bytes. */
module AudioRing {
  import opened Bytes
  import opened Arith
  import W = WordBits

  const JITTER := 1000

  // ------------------------------------------------------------ sizes

  /** The smallest power of two that is not below `n`. */
  ghost predicate Ceiling(p: nat, n: nat) {
    IsPower(p) && n <= p && forall j: nat :: n <= Pow2(j) ==> p <= Pow2(j)
  }

  /** The loops that double `buf_alloc_size`. */
  method RoundUp(n: nat) returns (p: nat)
    ensures Ceiling(p, n)
  {
    p := 1;
    ghost var k := 0;
    while p < n
      invariant p == Pow2(k) && forall j: nat :: n <= Pow2(j) ==> p <= Pow2(j)
      decreases n - p
    {
      forall j: nat | n <= Pow2(j) ensures 2 * p <= Pow2(j) { Doubles(k, j); }
      p, k := 2 * p, k + 1;
    }
  }

  lemma {:induction false} Doubles(k: nat, j: nat)
    requires Pow2(k) < Pow2(j)
    ensures 2 * Pow2(k) <= Pow2(j)
  {
    if j <= k { Grows(j, k); } else { Grows(k + 1, j); }
  }

  lemma {:induction false} Grows(j: nat, k: nat)
    requires j <= k
    ensures Pow2(j) <= Pow2(k)
    decreases k
  {
    if j >= k {
    } else {
      Grows(j, k - 1);
    }
  }

  /** A smaller estimate needs no larger buffer. */
  lemma CeilingMonotone(p: nat, n: nat, p': nat, n': nat)
    requires Ceiling(p, n) && Ceiling(p', n') && n <= n'
    ensures p <= p'
  {
    var k: nat :| p' == Pow2(k);
  }

  /** The same size without a loop. */
  function Above(n: nat): (p: nat) { if n <= 1 then 1 else 2 * Above((n + 1) / 2) }

  lemma {:induction false} AboveIsCeiling(n: nat)
    ensures Ceiling(Above(n), n)
  {
    if n <= 1 {
      assert Pow2(0) == 1;
    } else {
      var h := (n + 1) / 2;
      AboveIsCeiling(h);
      var k: nat :| Above(h) == Pow2(k);
      assert Above(n) == Pow2(k + 1);
      forall j: nat | n <= Pow2(j) ensures Above(n) <= Pow2(j) {
        assert j > 0 && h <= Pow2(j - 1);
      }
    }
  }

  lemma CeilingIsAbove(p: nat, n: nat)
    requires Ceiling(p, n)
    ensures p == Above(n)
  {
    hide Ceiling, Above;
    AboveIsCeiling(n);
    CeilingMonotone(p, n, Above(n), n);
    CeilingMonotone(Above(n), n, p, n);
  }

  /** One, two or four times as much needs one, two or four times the size, unless it is nothing at all. */
  lemma AboveScaled(s: nat, n: nat)
    requires s == 1 || s == 2 || s == 4
    ensures Above(s * n) == if n == 0 then 1 else s * Above(n)
  {
    if n > 0 && s > 1 {
      assert (2 * n + 1) / 2 == n;
      if s == 4 { assert (4 * n + 1) / 2 == 2 * n; }
    }
  }

  // ------------------------------------------------------------ the ring

  /** The place of byte `k` behind `head`. */
  function Wrap(p: nat, total: nat): nat { if p < total then p else p - total }

  function ByteAt(buf: seq<byte>, total: nat, head: nat, k: nat): byte
    requires total <= |buf| && head < total && k < total
  {
    buf[Wrap(head + k, total)]
  }

  /** The `n` bytes from `head` on. */
  function Ring(buf: seq<byte>, total: nat, head: nat, n: nat): (r: seq<byte>)
    requires total <= |buf| && head < total && n <= total
    ensures |r| == n
  {
    seq(n, k requires 0 <= k < n => ByteAt(buf, total, head, k))
  }

  /** `chunk` has been written at `at`. */
  ghost predicate Written(buf': seq<byte>, buf: seq<byte>, at: nat, chunk: seq<byte>) {
    at + |chunk| <= |buf| && buf' == buf[..at] + chunk + buf[at + |chunk|..]
  }

  /** A chunk written behind the last byte is appended. */
  lemma RingPut(buf: seq<byte>, total: nat, head: nat, n: nat, tail: nat, chunk: seq<byte>, buf': seq<byte>)
    requires total <= |buf| && head < total && n + |chunk| <= total
    requires tail == Wrap(head + n, total) && tail + |chunk| <= total
    requires Written(buf', buf, tail, chunk)
    ensures |buf'| == |buf| && Ring(buf', total, head, n + |chunk|) == Ring(buf, total, head, n) + chunk
  {
    forall k: nat | k < n + |chunk|
      ensures Ring(buf', total, head, n + |chunk|)[k] == (Ring(buf, total, head, n) + chunk)[k]
    {
      if k >= n { assert buf'[tail + (k - n)] == chunk[k - n]; }
    }
  }

  /** A chunk read at the head is the front of the queue. */
  lemma RingTake(buf: seq<byte>, total: nat, head: nat, n: nat, c: nat)
    requires total <= |buf| && head < total && n <= total && c <= n && head + c <= total && total > 0
    ensures buf[head..head + c] == Ring(buf, total, head, n)[..c]
    ensures Ring(buf, total, Wrap(head + c, total), n - c) == Ring(buf, total, head, n)[c..]
  {}

  lemma MaskWraps(k: nat, p: nat)
    requires p <= Pow2(k)
    ensures W.And(p, Pow2(k) - 1) == Wrap(p, Pow2(k)) < Pow2(k)
  {
    W.AndMask(k, p);
    if p < Pow2(k) { DivUnique(p, 0, p, Pow2(k)); } else { DivUnique(p, 1, 0, Pow2(k)); }
  }

  function Min(a: nat, b: nat): nat { if a < b then a else b }

  function Repeat(x: byte, n: nat): (r: seq<byte>)
    ensures |r| == n && forall i :: 0 <= i < n ==> r[i] == x
  {
    seq(n, _ => x)
  }

  ghost predicate IsPower(total: nat) { exists k: nat :: total == Pow2(k) }

  /** The sizes and heads of a ring with `pending` bytes in it. */
  ghost predicate Placed(total: nat, free: nat, pending: nat, readHead: nat, writeHead: nat) {
    IsPower(total) && free + pending == total && readHead < total && writeHead == Wrap(readHead + pending, total)
  }

  /** The variables describe a queue held in a ring, and what was accepted is what was played and what is queued. */
  ghost predicate Sound(buf: seq<byte>, total: nat, free: nat, pending: nat, readHead: nat, writeHead: nat,
                        queue: seq<byte>, accepted: seq<byte>, played: seq<byte>) {
    Placed(total, free, pending, readHead, writeHead) && total <= |buf| &&
    queue == Ring(buf, total, readHead, pending) && accepted == played + queue
  }

  lemma PlacedLimits(total: nat, free: nat, pending: nat, readHead: nat, writeHead: nat)
    requires Placed(total, free, pending, readHead, writeHead)
    ensures free + pending == total && readHead < total && writeHead < total &&
            writeHead == Wrap(readHead + pending, total)
  {}

  /** The write head moves on by the mask. */
  lemma PlacedPut(total: nat, free: nat, pending: nat, readHead: nat, writeHead: nat, c: nat)
    requires Placed(total, free, pending, readHead, writeHead) && c <= free && writeHead + c <= total
    ensures total > 0 && Placed(total, free - c, pending + c, readHead, W.And(writeHead + c, total - 1))
  {
    hide W.And;
    MaskWraps(PowerOf(total), writeHead + c);
  }

  /** So does the read head. */
  lemma PlacedTake(total: nat, free: nat, pending: nat, readHead: nat, writeHead: nat, c: nat)
    requires Placed(total, free, pending, readHead, writeHead) && c <= pending && readHead + c <= total
    ensures total > 0 && Placed(total, free + c, pending - c, W.And(readHead + c, total - 1), writeHead)
    ensures W.And(readHead + c, total - 1) == Wrap(readHead + c, total)
  {
    hide W.And;
    MaskWraps(PowerOf(total), readHead + c);
  }

  lemma SoundParts(buf: seq<byte>, total: nat, free: nat, pending: nat, readHead: nat, writeHead: nat,
                   queue: seq<byte>, accepted: seq<byte>, played: seq<byte>)
    requires Sound(buf, total, free, pending, readHead, writeHead, queue, accepted, played)
    ensures Placed(total, free, pending, readHead, writeHead) && total <= |buf| && readHead < total && pending <= total
    ensures queue == Ring(buf, total, readHead, pending) && accepted == played + queue
  {}

  lemma SoundOf(buf: seq<byte>, total: nat, free: nat, pending: nat, readHead: nat, writeHead: nat,
                queue: seq<byte>, accepted: seq<byte>, played: seq<byte>)
    requires Placed(total, free, pending, readHead, writeHead) && total <= |buf|
    requires queue == Ring(buf, total, readHead, pending) && accepted == played + queue
    ensures Sound(buf, total, free, pending, readHead, writeHead, queue, accepted, played)
  {}

  lemma SoundLimits(buf: seq<byte>, total: nat, free: nat, pending: nat, readHead: nat, writeHead: nat,
                    queue: seq<byte>, accepted: seq<byte>, played: seq<byte>)
    requires Sound(buf, total, free, pending, readHead, writeHead, queue, accepted, played)
    ensures |queue| == pending && free + pending == total <= |buf| && writeHead < total && readHead < total
  {}

  lemma SoundEmpty(buf: seq<byte>, total: nat)
    requires IsPower(total) && total <= |buf|
    ensures Sound(buf, total, total, 0, 0, 0, [], [], [])
  {
    assert Ring(buf, total, 0, 0) == [];
  }

  /** A chunk at the write head. */
  lemma SoundPut(buf: seq<byte>, total: nat, free: nat, pending: nat, readHead: nat, writeHead: nat,
                 queue: seq<byte>, accepted: seq<byte>, played: seq<byte>, chunk: seq<byte>, buf': seq<byte>)
    requires Sound(buf, total, free, pending, readHead, writeHead, queue, accepted, played)
    requires |chunk| <= free && writeHead + |chunk| <= total && Written(buf', buf, writeHead, chunk)
    ensures total > 0 &&
            Sound(buf', total, free - |chunk|, pending + |chunk|, readHead, W.And(writeHead + |chunk|, total - 1),
                  queue + chunk, accepted + chunk, played)
  {
    hide Ring, W.And, Placed, Wrap, Sound, Written;
    SoundParts(buf, total, free, pending, readHead, writeHead, queue, accepted, played);
    PlacedLimits(total, free, pending, readHead, writeHead);
    RingPut(buf, total, readHead, pending, writeHead, chunk, buf');
    PlacedPut(total, free, pending, readHead, writeHead, |chunk|);
    Appended(played, queue, chunk);
    SoundOf(buf', total, free - |chunk|, pending + |chunk|, readHead, W.And(writeHead + |chunk|, total - 1),
            queue + chunk, accepted + chunk, played);
  }

  lemma Appended(s: seq<byte>, t: seq<byte>, u: seq<byte>)
    ensures s + t + u == s + (t + u)
  {}

  /** A chunk from the read head. */
  lemma SoundTake(buf: seq<byte>, total: nat, free: nat, pending: nat, readHead: nat, writeHead: nat,
                  queue: seq<byte>, accepted: seq<byte>, played: seq<byte>, c: nat)
    requires Sound(buf, total, free, pending, readHead, writeHead, queue, accepted, played)
    requires c <= pending && readHead + c <= total
    ensures total > 0 && c <= |queue| && total <= |buf| && buf[readHead..readHead + c] == queue[..c]
    ensures Sound(buf, total, free + c, pending - c, W.And(readHead + c, total - 1), writeHead,
                  queue[c..], accepted, played + queue[..c])
  {
    hide Ring, W.And, Placed, Wrap, Sound;
    SoundParts(buf, total, free, pending, readHead, writeHead, queue, accepted, played);
    PlacedLimits(total, free, pending, readHead, writeHead);
    RingTake(buf, total, readHead, pending, c);
    PlacedTake(total, free, pending, readHead, writeHead, c);
    assert queue[..c] + queue[c..] == queue;
    Appended(played, queue[..c], queue[c..]);
    SoundOf(buf, total, free + c, pending - c, W.And(readHead + c, total - 1), writeHead, queue[c..], accepted,
            played + queue[..c]);
  }

  datatype Format = U8 | S16

  /** Silence in a playback format. */
  function SilenceOf(format: Format): byte { if format == U8 then 128 else 0 }

  lemma SilenceInTheMiddle()
    ensures SilenceOf(U8) == 0x80 && SilenceOf(S16) == 0
  {}

  /** Samples in 20 milliseconds, by 32-bit multiplication. */
  function Lead(frequency: nat): nat { 20 * frequency % TWO32 / 1000 }

  /** They last a fiftieth of a second, while the product fits 32 bits. */
  lemma LeadTime(frequency: nat)
    requires frequency < 0x0ccc_cccc
    ensures 50 * Lead(frequency) <= frequency < 50 * (Lead(frequency) + 1)
  {}

  /** What audioInit is called with. */
  datatype Settings = Settings(format: Format, channels: nat, frequency: nat)

  predicate Playable(s: Settings) { 1 <= s.channels <= 2 }

  /** GetSampleSize. */
  function SampleSize(format: Format, channels: nat): nat { if format == U8 then channels else 2 * channels }

  function FrameSize(s: Settings): (r: nat)
    ensures Playable(s) ==> r == 1 || r == 2 || r == 4
  { SampleSize(s.format, s.channels) }

  /** What audioInit allocates. */
  function Allocation(s: Settings): nat { Above(4 * JITTER * s.frequency / 1000) * FrameSize(s) }

  /** What notifyStreamingStartStop takes for the size of the buffer. */
  function Claimed(s: Settings): nat { Above(FrameSize(s) * JITTER * s.frequency / 1000) * FrameSize(s) }

  /** What a caller can check before the call: the squares of the sample sizes are weighed against each other. */
  predicate Fits(now: Settings, made: Settings) {
    FrameSize(now) * (if now.frequency == 0 then 1 else FrameSize(now) * Above(now.frequency)) <=
    FrameSize(made) * (if made.frequency == 0 then 1 else 4 * Above(made.frequency))
  }

  /** The size claimed for the present settings is covered by the allocation for other ones exactly when they fit. */
  lemma ClaimedExactly(now: Settings, made: Settings)
    requires Playable(now) && Playable(made)
    ensures Claimed(now) <= Allocation(made) <==> Fits(now, made)
  {
    hide Above;
    AboveScaled(FrameSize(now), now.frequency);
    AboveScaled(4, made.frequency);
    assert FrameSize(now) * JITTER * now.frequency / 1000 == FrameSize(now) * now.frequency;
    assert 4 * JITTER * made.frequency / 1000 == 4 * made.frequency;
    MulCommute(FrameSize(now), Above(FrameSize(now) * now.frequency));
    MulCommute(FrameSize(made), Above(4 * made.frequency));
  }

  /** Unchanged settings always fit. */
  lemma SameFits(s: Settings)
    requires Playable(s)
    ensures Fits(s, s)
  {
    hide Above;
    var size, c := FrameSize(s), Above(s.frequency);
    MulMonotone(size, 4, c);
    MulMonotone(size * c, 4 * c, size);
    MulCommute(size, size * c);
    MulCommute(size, 4 * c);
  }

  class Audio {
    var format: Format
    var channels: nat
    var frequency: nat
    var engine: bool
    var buf: array<byte>
    var total: nat
    var free: nat
    var pending: nat
    var readHead: nat
    var writeHead: nat
    /** Bytes per callback, as the last callback found them. */
    var fbytes: nat
    /** What was accepted and what was played since the last start or stop. */
    ghost var accepted: seq<byte>
    /** The pending bytes in the order they will be played. */
    ghost var queue: seq<byte>
    ghost var played: seq<byte>
    /** What the buffer was allocated for; a refused audioInit changes the present settings only. */
    ghost var made: Settings

    function Now(): Settings
      reads `format, `channels, `frequency
    {
      Settings(format, channels, frequency)
    }

    function Silence(): byte
      reads `format
    {
      SilenceOf(format)
    }

    function Size(): nat
      reads `format, `channels
    {
      SampleSize(format, channels)
    }

    /** While the engine runs the variables describe a queue, and nothing is lost, made up or reordered. */
    ghost predicate Running()
      reads `engine, `channels, `total, `buf, `free, `pending, `readHead, `writeHead, `queue, `accepted, `played, buf
    {
      engine && 1 <= channels <= 2 &&
      Sound(buf[..], total, free, pending, readHead, writeHead, queue, accepted, played)
    }

    lemma Limits()
      requires Running()
      ensures engine && |queue| == pending && free + pending == total <= buf.Length
      ensures writeHead < total && readHead < total
    {
      hide Sound;
      SoundLimits(buf[..], total, free, pending, readHead, writeHead, queue, accepted, played);
    }

    lemma Channels()
      requires Running()
      ensures 1 <= channels <= 2
    {
      hide Sound;
    }

    lemma StartsEmpty()
      requires engine && 1 <= channels <= 2 && IsPower(total) && total <= buf.Length
      requires free == total && pending == 0 && readHead == 0 && writeHead == 0
      requires queue == [] && accepted == [] && played == []
      ensures Running()
    {
      hide Sound;
      SoundEmpty(buf[..], total);
    }

    /** One copy of the loops of addSamples and addSilentSamples. */
    method PutPiece(chunk: seq<byte>)
      requires Running() && 0 < |chunk| <= free && |chunk| + writeHead <= total
      modifies this`free, this`pending, this`writeHead, this`queue, this`accepted, buf
      ensures Running() && queue == old(queue) + chunk && free == old(free) - |chunk|
      ensures accepted == old(accepted) + chunk
    {
      hide Sound;
      Limits();
      ghost var was := buf[..];
      forall i | 0 <= i < |chunk| { buf[writeHead + i] := chunk[i]; }
      assert buf[..] == was[..writeHead] + chunk + was[writeHead + |chunk|..];
      SoundPut(was, total, free, pending, readHead, writeHead, queue, accepted, played, chunk, buf[..]);
      writeHead := W.And(writeHead + |chunk|, total - 1);
      free := free - |chunk|;
      pending := pending + |chunk|;
      queue := queue + chunk;
      accepted := accepted + chunk;
    }

    /** addSamples for PCM data.  The queue takes a prefix of the data offered, as long as there is room; when much is
        pending only half of the data is offered. */
    method AddSamples(data: seq<byte>) returns (size: nat)
      requires engine ==> Running()
      modifies this`free, this`pending, this`writeHead, this`queue, this`accepted, buf
      ensures size == if engine && old(pending) > 5 * fbytes then |data| / 2 else |data|
      ensures !engine ==> queue == old(queue) && accepted == old(accepted)
      ensures engine ==> Running() && var n := Min(size, old(free));
                         queue == old(queue) + data[..n] && accepted == old(accepted) + data[..n]
    {
      hide Running, Grown;
      size := |data|;
      NotGrown(queue, accepted);
      if engine && size > 0 {
        if pending > fbytes * 5 { size := size / 2; }
        assert data[..0] == [];
        var left: nat, done: nat := size, 0;
        while left != 0
          invariant done + left == size <= |data| && Running() && done + free == old(free)
          invariant Grown(old(queue), queue, old(accepted), accepted, data[..done])
          decreases left
        {
          Limits();
          var n := left;
          if n > free { n := free; }
          if n + writeHead > total { n := total - writeHead; }
          if n == 0 { break; }
          GrowMore(old(queue), queue, old(accepted), accepted, data, done, n);
          PutPiece(data[done..done + n]);
          done, left := done + n, left - n;
        }
        GrownBy(old(queue), queue, old(accepted), accepted, data[..done]);
      }
    }

    /** addSilentSamples. */
    method AddSilentSamples(samples: nat)
      requires engine ==> Running()
      modifies this`free, this`pending, this`writeHead, this`queue, this`accepted, buf
      ensures !engine ==> queue == old(queue) && accepted == old(accepted) && free == old(free)
      ensures engine ==> 0 <= samples * Size() && Running() &&
                         queue == old(queue) + Repeat(Silence(), Min(samples * Size(), old(free)))
    {
      hide Running;
      if engine {
        MulMonotone(0, samples, Size());
        var left: nat, done: nat := samples * Size(), 0;
        assert Repeat(Silence(), 0) == [];
        while left != 0
          invariant done + left == samples * Size() && Running() && done + free == old(free)
          invariant queue == old(queue) + Repeat(Silence(), done)
          decreases left
        {
          Limits();
          var n := left;
          if n > free { n := free; }
          if n + writeHead > total { n := total - writeHead; }
          if n == 0 { break; }
          PutPiece(Repeat(Silence(), n));
          assert Repeat(Silence(), done) + Repeat(Silence(), n) == Repeat(Silence(), done + n);
          done, left := done + n, left - n;
        }
      }
    }

    /** One copy of the callback's loop. */
    method TakePiece(output: array<byte>, offset: nat, c: nat)
      requires Running() && 0 < c <= pending && c + readHead <= total && offset + c <= output.Length && output != buf
      modifies this`free, this`pending, this`readHead, this`queue, this`played, output
      ensures Running() && Moved(queue, old(queue), played, old(played), c)
      ensures Written(output[..], old(output[..]), offset, old(queue)[..c])
    {
      hide Sound, Written;
      Limits();
      ghost var q := queue;
      SoundTake(buf[..], total, free, pending, readHead, writeHead, queue, accepted, played, c);
      CopyMemory(output, offset, buf, readHead, c);
      readHead := W.And(readHead + c, total - 1);
      pending := pending - c;
      free := free + c;
      queue, played := q[c..], played + q[..c];
    }

    /** The callback's loop: `n` bytes in pieces. */
    method CopyPending(output: array<byte>, n: nat)
      requires Running() && n <= |queue| && n <= output.Length && output != buf
      modifies this`free, this`pending, this`readHead, this`queue, this`played, output
      ensures Running()
      ensures Delivered(output[..], old(output[..]), queue, old(queue), played, old(played), n)
    {
      hide Running, Delivered, Written, Moved;
      ghost var q, was, start := queue, output[..], played;
      NoneDelivered(was, q, start);
      var offset: nat, left: nat := 0, n;
      while left != 0
        invariant offset + left == n <= |q| && n <= output.Length && Running()
        invariant Delivered(output[..], was, queue, q, played, start, offset)
        decreases left
      {
        Limits();
        var c := left;
        if c + readHead > total { c := total - readHead; }
        if c == 0 { break; }
        ghost var before, taken, heard := output[..], queue, played;
        QueueLeft(before, was, queue, q, played, start, offset);
        TakePiece(output, offset, c);
        DeliverMore(before, output[..], was, taken, queue, q, heard, played, start, offset, c);
        offset, left := offset + c, left - c;
      }
    }

    /** audioOutCallback: as many pending bytes as the device asks for move to the front of `output`.  `bytes` is the
        frame count times the size of a frame. */
    method OutCallback(output: array<byte>, bytes: nat)
      requires Running() && bytes <= output.Length && output != buf
      modifies this`free, this`pending, this`readHead, this`fbytes, this`queue, this`played, output
      ensures Running()
      ensures var n := Min(|old(queue)|, bytes);
              output[..] == old(queue)[..n] + old(output[n..]) && queue == old(queue)[n..] &&
              played == old(played) + old(queue)[..n]
      ensures fbytes == if old(queue) == [] then old(fbytes) else bytes
    {
      hide Running, Delivered;
      Limits();
      if pending == 0 { return; }
      fbytes := bytes;
      var left: nat := pending;
      if left > fbytes { left := fbytes; }
      ghost var q, n, was, start := queue, left, output[..], played;
      CopyPending(output, left);
      AllDelivered(output[..], was, queue, q, played, start, n);
    }

    /** The buffer has the size audioInit gave it. */
    ghost predicate Sized()
      reads `made, `buf
    {
      Playable(made) && buf.Length == Allocation(made)
    }

    constructor (buf: array<byte>)
      ensures !engine && this.buf == buf
    {
      format, channels, frequency, engine, this.buf := U8, 1, 0, false, buf;
      total, free, pending, readHead, writeHead, fbytes := 0, 0, 0, 0, 0, 0;
      accepted, played, queue, made := [], [], [], Settings(U8, 1, 0);
    }

    /** The assignments that make the first `size` bytes of the buffer an empty queue. */
    method Empty(size: nat)
      modifies `total, `free, `pending, `readHead, `writeHead, `queue, `accepted, `played
      ensures total == free == size && queue == [] && played == []
      ensures engine && 1 <= channels <= 2 && IsPower(size) && size <= buf.Length ==> Running()
    {
      hide IsPower, Running;
      total, free := size, size;
      pending, readHead, writeHead := 0, 0, 0;
      accepted, played, queue := [], [], [];
      if engine && 1 <= channels <= 2 && size <= buf.Length && IsPower(size) { StartsEmpty(); }
    }

    /** audioInit.  `deviceWorks` is what the allocation and the audio device say.  While the engine runs the call is
        refused, but only after the settings have changed. */
    method Init(format: Format, channels: nat, frequency: nat, deviceWorks: bool) returns (ok: bool)
      requires 1 <= channels <= 2
      requires engine ==> Running() && Sized()
      modifies this
      ensures Now() == Settings(format, channels, frequency)
      ensures ok == (!old(engine) && deviceWorks) && engine == (old(engine) || ok)
      ensures engine ==> Running() && Sized()
      ensures old(engine) ==> unchanged(`queue, `played, `accepted, `total, `free, `pending, `fbytes, `buf, `made)
      ensures ok ==> queue == [] && fresh(buf) && made == Now()
    {
      this.format, this.channels, this.frequency := format, channels, frequency;
      if engine { return false; }
      var p := RoundUp(4 * JITTER * frequency / 1000);
      TotalIsPower(p, 4 * JITTER * frequency / 1000, Size());
      CeilingIsAbove(p, 4 * JITTER * frequency / 1000);
      hide Ceiling, Running, Above, IsPower;
      if !deviceWorks { return false; }
      buf := new byte[p * Size()];
      engine, made := true, Now();
      Empty(p * Size());
      return true;
    }

    /** The first half of notifyStreamingStartStop: an empty buffer for the present settings.  What it claims is covered
        by the allocation exactly when the settings fit those it was made for. */
    method Reset()
      requires engine ==> Sized()
      requires 1 <= channels <= 2
      modifies `total, `free, `pending, `readHead, `writeHead, `queue, `accepted, `played
      ensures total == free == Claimed(Now()) && queue == [] && played == []
      ensures engine ==> (total <= buf.Length <==> Fits(Now(), made))
      ensures engine && Fits(Now(), made) ==> Running()
    {
      hide Ceiling, Running, Above, Fits, IsPower;
      var p := RoundUp(Size() * JITTER * frequency / 1000);
      TotalIsPower(p, Size() * JITTER * frequency / 1000, Size());
      CeilingIsAbove(p, Size() * JITTER * frequency / 1000);
      if engine { ClaimedExactly(Now(), made); }
      Empty(p * Size());
    }

    /** notifyStreamingStartStop, with 20 milliseconds of silence ahead of a new stream. */
    method StartStop(isStart: bool)
      requires engine ==> Sized() && (isStart ==> Fits(Now(), made))
      requires 1 <= channels <= 2
      modifies `total, `free, `pending, `readHead, `writeHead, `queue, `accepted, `played, buf
      ensures total == Claimed(Now()) && (engine ==> played == [])
      ensures engine ==> (total <= buf.Length <==> Fits(Now(), made))
      ensures engine && Fits(Now(), made) ==>
                Running() && 0 <= Lead(frequency) * Size() &&
                queue == if isStart then Repeat(Silence(), Min(Lead(frequency) * Size(), total)) else []
    {
      hide Running, Fits;
      MulNonNegative(Lead(frequency), Size());
      Reset();
      if isStart { AddSilentSamples(Lead(frequency)); }
    }

    /** audioStop; the buffer is gone. */
    method Stop()
      modifies `engine
      ensures !engine
    {
      engine := false;
    }
  }

  lemma TotalIsPower(p: nat, n: nat, size: nat)
    requires Ceiling(p, n) && (size == 1 || size == 2 || size == 4)
    ensures IsPower(p * size)
  {
    var k: nat :| p == Pow2(k);
    assert Pow2(k) == p && Pow2(k + 1) == 2 * p && Pow2(k + 2) == 4 * p;
  }

  /** A run that ends with a total beyond the allocation: started for mono bytes, asked again for 16-bit stereo at the
      same rate, which is refused, and then told that the stream has ended. */
  method RefusedThenReset(a: Audio)
    requires !a.engine
    modifies a
    ensures a.engine && a.total > a.buf.Length
  {
    var ok := a.Init(U8, 1, 8000, true);
    ok := a.Init(S16, 2, 8000, true);
    StereoDoesNotFit();
    a.Reset();
  }

  lemma StereoDoesNotFit()
    ensures !Fits(Settings(S16, 2, 8000), Settings(U8, 1, 8000))
  {
    hide Above;
    AboveIsCeiling(8000);
  }

  // ------------------------------------------------------------ whole runs

  /** A bounded queue, what has left it, the size of the last callback, and the present settings. */
  datatype Fifo = Fifo(queue: seq<byte>, played: seq<byte>, fbytes: nat, capacity: nat, now: Settings)

  /** Audio data, silence, a callback, audioInit while the engine runs, and the notice that a stream starts or ends. */
  datatype Event =
    | Samples(data: seq<byte>) | Silent(samples: nat) | Callback(bytes: nat) | Ask(settings: Settings)
    | Restart(isStart: bool)

  /** So much silence as there is room for. */
  function Pause(now: Settings, samples: nat, room: nat): (r: seq<byte>)
    ensures |r| <= room
  {
    MulNonNegative(samples, FrameSize(now));
    Repeat(SilenceOf(now.format), Min(samples * FrameSize(now), room))
  }

  ghost predicate Bounded(f: Fifo) { |f.queue| <= f.capacity }

  function After(f: Fifo, e: Event): (r: Fifo)
    requires Bounded(f)
    ensures Bounded(r)
  {
    match e
    case Samples(data) =>
      var size := if |f.queue| > 5 * f.fbytes then |data| / 2 else |data|;
      f.(queue := f.queue + data[..Min(size, f.capacity - |f.queue|)])
    case Silent(n) => f.(queue := f.queue + Pause(f.now, n, f.capacity - |f.queue|))
    case Callback(n) =>
      if f.queue == [] then f
      else
        var k := Min(|f.queue|, n);
        f.(queue := f.queue[k..], played := f.played + f.queue[..k], fbytes := n)
    case Ask(settings) => f.(now := settings)
    case Restart(isStart) =>
      ClaimedPositive(f.now);
      f.(queue := if isStart then Pause(f.now, Lead(f.now.frequency), Claimed(f.now)) else [], played := [],
         capacity := Claimed(f.now))
  }

  lemma ClaimedPositive(s: Settings)
    ensures Claimed(s) >= 0
  {
    MulNonNegative(Above(FrameSize(s) * JITTER * s.frequency / 1000), FrameSize(s));
  }

  function AfterAll(f: Fifo, events: seq<Event>): (r: Fifo)
    requires Bounded(f)
    ensures Bounded(r)
  {
    if events == [] then f else After(AfterAll(f, events[..|events| - 1]), events[|events| - 1])
  }

  /** One or two channels are asked for, and a stream starts or ends only when the settings fit the allocation. */
  ghost predicate Allowed(f: Fifo, e: Event, made: Settings) {
    (e.Ask? ==> Playable(e.settings)) && (e.Restart? ==> Fits(f.now, made))
  }

  ghost predicate AllAllowed(f: Fifo, events: seq<Event>, made: Settings)
    requires Bounded(f)
  {
    forall i :: 0 <= i < |events| ==> Allowed(AfterAll(f, events[..i]), events[i], made)
  }

  ghost function Contents(a: Audio): Fifo
    reads a
  {
    Fifo(a.queue, a.played, a.fbytes, a.total, a.Now())
  }

  /** Any run of callbacks, additions, refused requests and restarts does to the ring what it does to the bounded
      queue, and stays within the allocation. */
  method Perform(a: Audio, events: seq<Event>)
    requires a.Running() && a.Sized() && Bounded(Contents(a)) && AllAllowed(Contents(a), events, a.made)
    modifies a, a.buf
    ensures a.Running() && a.Sized() && a.total <= a.buf.Length && a.buf == old(a.buf)
    ensures Contents(a) == AfterAll(old(Contents(a)), events) && a.accepted == a.played + a.queue
  {
    hide After, Fits;
    ghost var start := Contents(a);
    assert events[..0] == [];
    for i := 0 to |events|
      invariant a.Running() && a.Sized() && unchanged(a`buf) && unchanged(a`made)
      invariant Contents(a) == AfterAll(start, events[..i])
    {
      assert events[..i + 1][..i] == events[..i];
      assert Allowed(AfterAll(start, events[..i]), events[i], a.made);
      PerformOne(a, events[i]);
    }
    assert events[..|events|] == events;
  }

  method PerformOne(a: Audio, e: Event)
    requires a.Running() && a.Sized() && Allowed(Contents(a), e, a.made)
    modifies a, a.buf
    ensures a.Running() && a.Sized() && unchanged(a`buf) && unchanged(a`made)
    ensures Bounded(old(Contents(a))) && Contents(a) == After(old(Contents(a)), e)
  {
    hide Audio.Running, Fits, Claimed, Lead;
    a.Limits();
    match e
    case Samples(data) => var size := a.AddSamples(data);
    case Silent(n) => a.AddSilentSamples(n);
    case Callback(n) =>
      var output := new byte[n];
      a.OutCallback(output, n);
    case Ask(s) =>
      a.Channels();
      var ok := a.Init(s.format, s.channels, s.frequency, true);
    case Restart(isStart) =>
      a.Channels();
      a.StartStop(isStart);
  }

  /** `c` bytes have moved from the queue to what was played. */
  ghost predicate Moved(queue: seq<byte>, queue0: seq<byte>, played: seq<byte>, played0: seq<byte>, c: nat) {
    c <= |queue0| && queue == queue0[c..] && played == played0 + queue0[..c]
  }

  /** The first `offset` bytes of the queue `q` are in the output and gone from the queue. */
  ghost predicate Delivered(output: seq<byte>, was: seq<byte>, queue: seq<byte>, q: seq<byte>, played: seq<byte>,
                            start: seq<byte>, offset: nat) {
    offset <= |q| && offset <= |was| &&
    output == q[..offset] + was[offset..] && queue == q[offset..] && played == start + q[..offset]
  }

  lemma NoneDelivered(output: seq<byte>, queue: seq<byte>, played: seq<byte>)
    ensures Delivered(output, output, queue, queue, played, played, 0)
  {}

  lemma QueueLeft(output: seq<byte>, was: seq<byte>, queue: seq<byte>, q: seq<byte>, played: seq<byte>,
                  start: seq<byte>, offset: nat)
    requires Delivered(output, was, queue, q, played, start, offset)
    ensures |queue| == |q| - offset
  {}

  lemma DeliverMore(before: seq<byte>, after: seq<byte>, was: seq<byte>, queue0: seq<byte>, queue: seq<byte>,
                    q: seq<byte>, played0: seq<byte>, played: seq<byte>, start: seq<byte>, offset: nat, c: nat)
    requires Delivered(before, was, queue0, q, played0, start, offset) && c <= |queue0| && offset + c <= |was|
    requires Written(after, before, offset, queue0[..c]) && Moved(queue, queue0, played, played0, c)
    ensures Delivered(after, was, queue, q, played, start, offset + c)
  {
    assert q[..offset] + q[offset..][..c] == q[..offset + c] && q[offset..][c..] == q[offset + c..];
    Appended(start, q[..offset], q[offset..][..c]);
  }

  lemma AllDelivered(output: seq<byte>, was: seq<byte>, queue: seq<byte>, q: seq<byte>, played: seq<byte>,
                     start: seq<byte>, offset: nat)
    requires Delivered(output, was, queue, q, played, start, offset)
    ensures offset <= |q| && offset <= |was|
    ensures output == q[..offset] + was[offset..] && queue == q[offset..] && played == start + q[..offset]
  {}

  /** The queue has grown by `part`, and so has what was accepted. */
  ghost predicate Grown(queue0: seq<byte>, queue: seq<byte>, accepted0: seq<byte>, accepted: seq<byte>,
                        part: seq<byte>) {
    queue == queue0 + part && accepted == accepted0 + part
  }

  lemma NotGrown(queue: seq<byte>, accepted: seq<byte>)
    ensures Grown(queue, queue, accepted, accepted, [])
  {}

  lemma GrownBy(queue0: seq<byte>, queue: seq<byte>, accepted0: seq<byte>, accepted: seq<byte>, part: seq<byte>)
    requires Grown(queue0, queue, accepted0, accepted, part)
    ensures queue == queue0 + part && accepted == accepted0 + part
  {}

  lemma GrowMore(queue0: seq<byte>, queue: seq<byte>, accepted0: seq<byte>, accepted: seq<byte>, data: seq<byte>,
                 done: nat, n: nat)
    requires done + n <= |data| && Grown(queue0, queue, accepted0, accepted, data[..done])
    ensures var piece := data[done..done + n];
            Grown(queue0, queue + piece, accepted0, accepted + piece, data[..done + n])
  {
    assert data[..done] + data[done..done + n] == data[..done + n];
    Appended(queue0, data[..done], data[done..done + n]);
    Appended(accepted0, data[..done], data[done..done + n]);
  }

  /** MA_COPY_MEMORY between different buffers. */
  method CopyMemory(output: array<byte>, offset: nat, buf: array<byte>, from: nat, c: nat)
    requires offset + c <= output.Length && from + c <= buf.Length && output != buf
    modifies output
    ensures Written(output[..], old(output[..]), offset, buf[..][from..from + c])
  {
    forall i | 0 <= i < c { output[offset + i] := buf[from + i]; }
  }

  ghost function PowerOf(total: nat): (k: nat)
    requires IsPower(total)
    ensures total == Pow2(k)
  {
    var k: nat :| total == Pow2(k);
    k
  }
}
