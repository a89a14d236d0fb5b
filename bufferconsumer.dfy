/** The buffer consumer: a read cursor over a fixed Buffer that hands out
    integers, byte strings and DNS names while moving forward. */
module Consumer {
  import opened Wire
  import opened NameDecoding
  import opened NameProperties

  /** What `name()` returns: the labels joined with '.', or the labels. */
  datatype Decoded = Joined(text: seq<Byte>) | Labels(parts: seq<Label>)

  /** How a call of `name()` ends: a name, an exception, or (in this model
      only) a hop budget that ran out before the decoder stopped. */
  datatype NameResult = Named(value: Decoded) | Threw(error: Error) | OutOfHops

  /** The `join` argument: left undefined it means true. The labels come
      back as they are when `join` is false; otherwise joined with '.', and
      then, for labels without a '.', splitting the text gives them back. */
  function Present(join: Option<bool>, parts: seq<Label>): (d: Decoded)
    ensures d.Labels? <==> join == Some(false)
    ensures d.Labels? ==> d.parts == parts
    ensures d.Joined? && parts != [] && (forall i | 0 <= i < |parts| :: DOT !in parts[i]) ==>
              Split(d.text) == parts
  {
    if join == Some(false) then Labels(parts)
    else if parts != [] && forall i | 0 <= i < |parts| :: DOT !in parts[i] then
      SplitJoin(parts);
      Joined(Join(parts))
    else Joined(Join(parts))
  }

  /** The value `name()` returns for a run of the decoder: the labels of a
      finished run, the exception of a failed one, which is never 'Negative
      pos not allowed' nor 'Buffer overflow'. */
  function NameOf(run: Run, join: Option<bool>): (r: NameResult)
    ensures r.Named? <==> run.Finished?
    ensures r.Named? ==> r.value == Present(join, run.parts)
    ensures r.Threw? <==> run.Failed?
    ensures r.Threw? && ThrowsNameError(run) ==> NameError(r.error)
  {
    match run
    case Finished(parts, _) => Named(Present(join, parts))
    case Failed(e, _) => Threw(e)
    case Exhausted => OutOfHops
  }

  class BufferConsumer {
    /** The Buffer being consumed (`_view`) and its length. */
    const view: seq<Byte>
    const length: nat
    /** The cursor (`_offset`). Reads that throw still move it, so it may
        lie past the end of the buffer. */
    var offset: nat

    predicate Valid()
    {
      length == |view|
    }

    constructor (bytes: seq<Byte>)
      ensures Valid()
      ensures view == bytes && offset == 0
    {
      view := bytes;
      length := |bytes|;
      offset := 0;
    }

    method Tell() returns (pos: nat)
      ensures pos == offset
    {
      pos := offset;
    }

    /** Moves the cursor to `pos`, anywhere from the start to just past the
        last byte; outside that range it throws and the cursor stays. */
    method Seek(pos: int) returns (r: Outcome)
      requires Valid()
      modifies this
      ensures pos < 0 ==> r == Fail(NegativeSeek) && offset == old(offset)
      ensures pos > length ==> r == Fail(SeekPastEnd) && offset == old(offset)
      ensures 0 <= pos <= length ==> r == Pass && offset == pos
    {
      if pos < 0 {
        return Fail(NegativeSeek);
      }
      if pos > length {
        return Fail(SeekPastEnd);
      }
      offset := pos;
      r := Pass;
    }

    /** The next `n` bytes, consumed; throws without moving when fewer remain. */
    method Slice(n: nat) returns (r: Result<seq<Byte>>)
      requires Valid()
      modifies this
      ensures old(offset) + n > length ==> r == Err(BufferOverflow) && offset == old(offset)
      ensures old(offset) + n <= length ==>
                && r == Ok(view[old(offset)..old(offset) + n])
                && offset == old(offset) + n
    {
      if offset + n > length {
        return Err(BufferOverflow);
      }
      r := Ok(view[offset..offset + n]);
      offset := offset + n;
    }

    method IsEOF() returns (eof: bool)
      ensures eof <==> offset >= length
    {
      eof := offset >= length;
    }

    /** readUInt8 at the cursor; the cursor moves by one even when it throws. */
    method Byte() returns (r: Result<nat>)
      requires Valid()
      modifies this
      ensures offset == old(offset) + 1
      ensures r == ReadAt(view, old(offset), 1)
      ensures r.Ok? ==> r.value < 0x100
    {
      offset := offset + 1;
      if offset > length {
        return Err(ReadOutOfRange);
      }
      r := Ok(view[offset - 1]);
      assert view[offset - 1..offset] == [view[offset - 1]];
      assert BigEndian([view[offset - 1]]) == view[offset - 1] by {
        assert [view[offset - 1]][..0] == [];
      }
    }

    /** readUInt16BE at the cursor; the cursor moves by two even when it throws. */
    method Short() returns (r: Result<nat>)
      requires Valid()
      modifies this
      ensures offset == old(offset) + 2
      ensures r == ReadAt(view, old(offset), 2)
      ensures r.Ok? ==> r.value < 0x1_0000
    {
      offset := offset + 2;
      if offset > length {
        return Err(ReadOutOfRange);
      }
      var o := offset - 2;
      r := Ok(view[o] as int * 0x100 + view[o + 1]);
      assert view[o..o + 2] == [view[o], view[o + 1]];
      BigEndianPair(view[o], view[o + 1]);
    }

    /** readUInt32BE at the cursor; the cursor moves by four even when it throws. */
    method Long() returns (r: Result<nat>)
      requires Valid()
      modifies this
      ensures offset == old(offset) + 4
      ensures r == ReadAt(view, old(offset), 4)
      ensures r.Ok? ==> r.value < 0x1_0000_0000
    {
      offset := offset + 4;
      if offset > length {
        return Err(ReadOutOfRange);
      }
      var o := offset - 4;
      r := Ok(view[o] as int * 0x100_0000 + view[o + 1] as int * 0x1_0000 + view[o + 2] as int * 0x100 + view[o + 3]);
      assert view[o..o + 4] == [view[o], view[o + 1], view[o + 2], view[o + 3]];
      BigEndianQuad(view[o], view[o + 1], view[o + 2], view[o + 3]);
    }

    /** The bytes from the cursor to `cursor + n` (to the end of the buffer
        when `n` is left undefined), then a seek to that end. The bytes are
        taken before the seek, which may still throw. */
    method String(n: Option<nat>) returns (r: Result<seq<Byte>>)
      requires Valid()
      modifies this
      ensures var end := if n.None? then length else old(offset) + n.value;
              && (end > length ==> r == Err(SeekPastEnd) && offset == old(offset))
              && (end <= length ==> r == Ok(ToStringRange(view, old(offset), end)) && offset == end)
              && (old(offset) <= end <= length ==> r == Ok(view[old(offset)..end]))
    {
      var end: nat;
      if n.None? {
        end := length;
      } else {
        var here := Tell();
        end := here + n.value;
      }
      var ret := ToStringRange(view, offset, end);
      var sk := Seek(end);
      if sk.Fail? {
        return Err(sk.error);
      }
      r := Ok(ret);
    }

    /** Reads a DNS name at the cursor: labels up to a zero byte, following
        compression pointers, and stopping early once a label ends at or past
        `endAt` (0 stands for an absent `endAt`). After a pointer the cursor
        is put back just after the first pointer read. At most `hops` pointers
        are followed. */
    method Name(join: Option<bool>, endAt: int, hops: nat) returns (r: NameResult)
      requires Valid()
      modifies this
      ensures var run := DecodeName(view, old(offset), endAt, hops);
              && r == NameOf(run, join)
              && (!run.Exhausted? ==> offset == run.offset)
    {
      ghost var run := DecodeName(view, offset, endAt, hops);
      var b := Byte();
      if b.Err? {
        return Threw(b.error);
      }
      var len: Byte := b.value;
      var st := LoopState(offset, len, false, 0, if len == 0 then [[]] else [], hops);
      assert run == Loop(view, endAt, st);
      while st.len != 0
        invariant offset == st.offset <= length
        invariant st.comp ==> st.end <= length
        invariant run == Loop(view, endAt, st)
        decreases st.hops, length - st.offset
      {
        var t: Turn;
        if PointerBits(st.len) {
          t := PointerTurn(endAt, st);
        } else {
          t := LabelTurn(endAt, st);
        }
        if t.Stop? {
          LoopStop(view, endAt, st);
          match t.run
          case Failed(e, _) =>
            return Threw(e);
          case Exhausted =>
            return OutOfHops;
          case Finished(parts, end) =>
            // endAt reached: break out of the loop
            r := Finish(join, parts, end);
            return;
        }
        LoopGo(view, endAt, st);
        st := t.next;
      }
      LoopStop(view, endAt, st);
      r := Finish(join, st.parts, if st.comp then st.end else offset);
    }

    /** The pointer branch of the loop of `name()`: the second pointer byte,
        the resume offset saved at the first pointer, a seek to the target and
        the length byte found there. */
    method PointerTurn(endAt: int, s: LoopState) returns (t: Turn)
      requires Valid() && offset == s.offset <= length
      requires IsPointer(s.len) && (s.comp ==> s.end <= length)
      modifies this
      ensures t == Step(view, endAt, s)
      ensures t.Go? ==> offset == t.next.offset && t.next.comp && t.next.end <= length
      ensures t.Stop? && t.run.Failed? ==> offset == t.run.offset
    {
      var lo := Byte();
      if lo.Err? {
        return Stop(Failed(lo.error, offset));
      }
      var pos := (s.len - LABEL_POINTER) * 0x100 + lo.value;
      assert pos == PointerTarget(s.len, view[s.offset]);
      var end := s.end;
      if !s.comp {
        end := Tell();
      }
      var sk := Seek(pos);
      if sk.Fail? {
        return Stop(Failed(sk.error, offset));
      }
      var nb := Byte();
      if nb.Err? {
        return Stop(Failed(nb.error, offset));
      }
      if s.hops == 0 {
        return Stop(Exhausted);
      }
      t := Go(LoopState(offset, nb.value, true, end, s.parts, s.hops - 1));
    }

    /** The label branch of the loop of `name()`: the label's bytes, kept
        when not empty, then either the `endAt` cut-off or the next length
        byte. */
    method LabelTurn(endAt: int, s: LoopState) returns (t: Turn)
      requires Valid() && offset == s.offset <= length
      requires s.len != 0 && !IsPointer(s.len) && (s.comp ==> s.end <= length)
      modifies this
      ensures t == Step(view, endAt, s)
      ensures t.Go? ==> offset == t.next.offset && (t.next.comp ==> t.next.end <= length)
      ensures t.Stop? && t.run.Failed? ==> offset == t.run.offset
      ensures t.Stop? && t.run.Finished? ==> t.run.offset <= length
    {
      var v := String(Some(s.len));
      if v.Err? {
        return Stop(Failed(v.error, offset));
      }
      assert v.value == view[s.offset..s.offset + s.len];
      var parts := s.parts;
      if |v.value| > 0 {
        parts := parts + [v.value];
      }
      var here := Tell();
      if endAt != 0 && here >= endAt {
        return Stop(Finished(parts, if s.comp then s.end else here));
      }
      var nb := Byte();
      if nb.Err? {
        return Stop(Failed(nb.error, offset));
      }
      t := Go(s.(offset := offset, len := nb.value, parts := parts));
    }

    /** What follows the loop of `name()`: the seek to the resume offset and
        the labels, joined unless `join` is false. */
    method Finish(join: Option<bool>, parts: seq<Label>, end: nat) returns (r: NameResult)
      requires Valid() && end <= length
      modifies this
      ensures offset == end
      ensures r == Named(Present(join, parts))
    {
      var sk := Seek(end);
      if join == Some(false) {
        r := Named(Labels(parts));
      } else {
        r := Named(Joined(Join(parts)));
      }
    }
  }
}
