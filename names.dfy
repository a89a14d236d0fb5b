/** The DNS name decoder of the buffer consumer, as functions over the buffer
    and a start offset. A name is a run of length-prefixed labels that ends
    with a zero byte or with a two-byte compression pointer (sections 3.1 and
    4.1.4 of RFC 1035). The loop of the decoder is `Loop`, one call per
    iteration, so that the imperative decoder can be proved against it. */
module NameDecoding {
  import opened Wire

  /** A label as read from the buffer (raw bytes, no character decoding). */
  type Label = seq<Byte>

  /** A length byte with both of these bits set introduces a pointer. */
  const LABEL_POINTER: Byte := 0xC0

  /** The byte placed between labels when a name is joined: '.'. */
  const DOT: Byte := 0x2E

  /** A length byte that introduces a pointer: both of its top bits are set,
      which for a byte means it is at least 0xC0 (see PointerBits). */
  predicate IsPointer(len: Byte)
  {
    len >= LABEL_POINTER
  }

  /** The decoder's test `(len & LABEL_POINTER) === LABEL_POINTER`, on the
      bits of the length byte. It picks out exactly the pointer length bytes. */
  predicate PointerBits(len: Byte)
    ensures PointerBits(len) <==> IsPointer(len)
  {
    var b := len as bv8;
    assert (b & 0xC0 == 0xC0) <==> b >= 0xC0;
    b & (LABEL_POINTER as bv8) == LABEL_POINTER as bv8
  }

  /** Offset a pointer refers to: the low six bits of its first byte,
      shifted left by eight (exact for values below 64), plus its second byte.
      A pointer reaches no further than 0x3FFF. */
  function PointerTarget(len: Byte, next: Byte): (pos: int)
    ensures IsPointer(len) ==> 0 <= pos < 0x4000
  {
    (len - LABEL_POINTER) * 256 + next
  }

  /** For a pointer's first byte, taken as bits, subtracting 0xC0 (the
      `len -= LABEL_POINTER` before `len << 8`) leaves exactly its low six
      bits. */
  lemma PointerTargetBits(b: bv8)
    requires b & 0xC0 == 0xC0
    ensures b - 0xC0 == b & 0x3F
  {
  }

  /** The exceptions `name()` can throw: a read past the end of the buffer
      (from `byte()`) or a seek past it (from `seek` or `string`). */
  predicate NameError(e: Error)
  {
    e == ReadOutOfRange || e == SeekPastEnd
  }

  /** A run that, if it failed, failed with one of those exceptions. */
  predicate ThrowsNameError(r: Run)
  {
    r.Failed? ==> NameError(r.error)
  }

  /** How a call of the decoder ends. `offset` is where the cursor is left:
      after the final seek for a finished call, and wherever the throwing
      operation left it for a failed one. `Exhausted` means the hop budget
      ran out while the decoder would have gone on following pointers. */
  datatype Run =
    | Finished(parts: seq<Label>, offset: nat)
    | Failed(error: Error, offset: nat)
    | Exhausted

  /** The variables of `name()` at the head of `while (len !== 0)`: the cursor
      `offset`, the length byte `len` just read, `comp` (a pointer has been
      followed), `end` (the resume offset saved at the first pointer), the
      labels gathered in `parts`, and `hops`, the number of pointers the
      decoder may still follow. */
  datatype LoopState = LoopState(offset: nat, len: Byte, comp: bool, end: nat,
                                 parts: seq<Label>, hops: nat)

  /** What one turn of the loop does: stop with the call's outcome, or go on
      from a new state. */
  datatype Turn = Stop(run: Run) | Go(next: LoopState)

  /** Where the final `seek(end)` puts the cursor when the loop stops at
      offset `o`: the saved offset once a pointer was followed, else `o`. */
  function Resume(s: LoopState, o: nat): nat
  {
    if s.comp then s.end else o
  }

  /** One turn of `while (len !== 0)`, or what follows the loop when `len` is
      zero. A pointer is followed with `seek` and a fresh length byte; a label
      is read with `string` and, unless `endAt` is reached, followed by a fresh
      length byte. Every turn that goes on either spends a hop or moves the
      cursor forward, so the loop only fails to end by following pointers. */
  function Step(buf: seq<Byte>, endAt: int, s: LoopState): (t: Turn)
    requires s.offset <= |buf|
    ensures t.Go? ==> t.next.offset <= |buf|
    ensures t.Go? ==> t.next.hops < s.hops || (t.next.hops == s.hops && t.next.offset > s.offset)
    ensures t.Stop? ==> ThrowsNameError(t.run)
  {
    var o := s.offset;
    if s.len == 0 then
      Stop(Finished(s.parts, Resume(s, o)))
    else if IsPointer(s.len) then
      // pos = ((len - 0xC0) << 8) + this.byte()
      if o >= |buf| then Stop(Failed(ReadOutOfRange, o + 1))
      else
        var pos := PointerTarget(s.len, buf[o]);
        var end := if s.comp then s.end else o + 1;
        // this.seek(pos); len = this.byte();
        if pos < 0 then Stop(Failed(NegativeSeek, o + 1))
        else if pos > |buf| then Stop(Failed(SeekPastEnd, o + 1))
        else if pos == |buf| then Stop(Failed(ReadOutOfRange, pos + 1))
        else if s.hops == 0 then Stop(Exhausted)
        else Go(LoopState(pos + 1, buf[pos], true, end, s.parts, s.hops - 1))
    else
      // v = this.string('ascii', len)
      if o + s.len > |buf| then Stop(Failed(SeekPastEnd, o))
      else
        var o' := o + s.len;
        var v := buf[o..o'];
        var parts := if |v| > 0 then s.parts + [v] else s.parts;
        if endAt != 0 && o' >= endAt then Stop(Finished(parts, Resume(s, o')))
        // len = this.byte()
        else if o' == |buf| then Stop(Failed(ReadOutOfRange, o' + 1))
        else Go(s.(offset := o' + 1, len := buf[o'], parts := parts))
  }

  /** The loop run to its end from state `s`. Pointer targets are never
      negative and nothing slices, so it never throws 'Negative pos not
      allowed' or 'Buffer overflow'. */
  function Loop(buf: seq<Byte>, endAt: int, s: LoopState): (r: Run)
    requires s.offset <= |buf|
    ensures ThrowsNameError(r)
    decreases s.hops, |buf| - s.offset, 1
  {
    Continue(buf, endAt, Step(buf, endAt, s))
  }

  /** What follows a turn: the outcome it stopped with, or the rest of the loop. */
  function Continue(buf: seq<Byte>, endAt: int, t: Turn): (r: Run)
    requires t.Go? ==> t.next.offset <= |buf|
    ensures (t.Stop? ==> ThrowsNameError(t.run)) ==> ThrowsNameError(r)
    decreases if t.Go? then t.next.hops else 0,
              if t.Go? then |buf| - t.next.offset else 0,
              if t.Go? then 2 else 0
  {
    match t
    case Stop(r) => r
    case Go(n) => Loop(buf, endAt, n)
  }

  /** A turn that stops ends the loop with its outcome. */
  lemma LoopStop(buf: seq<Byte>, endAt: int, s: LoopState)
    requires s.offset <= |buf| && Step(buf, endAt, s).Stop?
    ensures Loop(buf, endAt, s) == Step(buf, endAt, s).run
  {
    assert Loop(buf, endAt, s) == Continue(buf, endAt, Step(buf, endAt, s));
  }

  /** A turn that goes on hands the loop over to the next state. */
  lemma LoopGo(buf: seq<Byte>, endAt: int, s: LoopState)
    requires s.offset <= |buf| && Step(buf, endAt, s).Go?
    ensures Loop(buf, endAt, s) == Loop(buf, endAt, Step(buf, endAt, s).next)
  {
    assert Loop(buf, endAt, s) == Continue(buf, endAt, Step(buf, endAt, s));
  }

  /** Read a length byte at `p`, then run the loop. */
  function Next(buf: seq<Byte>, endAt: int, p: nat, comp: bool, end: nat,
                parts: seq<Label>, hops: nat): Run
  {
    if p >= |buf| then Failed(ReadOutOfRange, p + 1)
    else Loop(buf, endAt, LoopState(p + 1, buf[p], comp, end, parts, hops))
  }

  /** The state of `name()` when it first reaches its loop, called with the
      cursor at `start`: the first length byte read, and the root special case
      (a single empty label) already applied. */
  function Initial(buf: seq<Byte>, start: nat, hops: nat): (s: LoopState)
    requires start < |buf|
    ensures s.offset == start + 1 && !s.comp && s.hops == hops
    ensures s.parts == [] || s.parts == [[]]
    ensures s.parts == [[]] <==> s.len == 0
  {
    LoopState(start + 1, buf[start], false, 0, if buf[start] == 0 then [[]] else [], hops)
  }

  /** `name()` called with the cursor at `start`. It throws only a RangeError
      or 'Cannot seek after EOF'. */
  function DecodeName(buf: seq<Byte>, start: nat, endAt: int, hops: nat): (r: Run)
    ensures ThrowsNameError(r)
    ensures start >= |buf| ==> r == Failed(ReadOutOfRange, start + 1)
  {
    if start >= |buf| then Failed(ReadOutOfRange, start + 1)
    else Loop(buf, endAt, Initial(buf, start, hops))
  }

  /** `parts.join('.')`: the first label comes first, and labels without a
      '.' are separated by exactly one '.' each. */
  function Join(parts: seq<Label>): (r: seq<Byte>)
    ensures parts != [] ==> parts[0] <= r
    ensures (forall i | 0 <= i < |parts| :: DOT !in parts[i]) ==>
              multiset(r)[DOT] == if parts == [] then 0 else |parts| - 1
  {
    if |parts| == 0 then []
    else if |parts| == 1 then parts[0]
    else parts[0] + [DOT] + Join(parts[1..])
  }

  /** Cuts a byte string at every '.': the inverse of Join for labels without dots. */
  function Split(s: seq<Byte>): (r: seq<Label>)
    ensures |r| >= 1
  {
    if |s| == 0 then [[]]
    else
      var rest := Split(s[1..]);
      if s[0] == DOT then [[]] + rest
      else [[s[0]] + rest[0]] + rest[1..]
  }

  /** A label the loop reads as a label rather than a pointer or terminator. */
  predicate PlainLabel(l: Label)
  {
    0 < |l| < LABEL_POINTER
  }

  /** Every label of `ls` is a plain label. */
  predicate AllPlain(ls: seq<Label>)
  {
    ls == [] || (PlainLabel(ls[0]) && AllPlain(ls[1..]))
  }

  /** Wire form of a run of labels, each preceded by its length byte,
      without the terminating zero byte. */
  function EncodeLabels(ls: seq<Label>): (e: seq<Byte>)
    requires AllPlain(ls)
    ensures |e| >= 2 * |ls|
  {
    if ls == [] then []
    else
      [|ls[0]| as Byte] + ls[0] + EncodeLabels(ls[1..])
  }

  /** Wire form of an uncompressed name: its labels and the zero byte. */
  function EncodeName(ls: seq<Label>): seq<Byte>
    requires AllPlain(ls)
  {
    EncodeLabels(ls) + [0]
  }

  /** The labels of `r` placed after `ps`; failures are passed through. */
  function Prepend(ps: seq<Label>, r: Run): Run
  {
    match r
    case Finished(qs, e) => Finished(ps + qs, e)
    case _ => r
  }
}
