/** What the name decoder promises, proved about its specification in
    NameDecoding: where the cursor is left, which labels come out and in which
    order, how compression pointers and the endAt cut-off behave, and what a
    larger hop budget changes. */
module NameProperties {
  import opened Wire
  import opened NameDecoding

  /** Labels placed in front twice are placed in front once, concatenated. */
  lemma PrependTwice(a: seq<Label>, b: seq<Label>, r: Run)
    ensures Prepend(a + b, r) == Prepend(a, Prepend(b, r))
  {
    if r.Finished? {
      assert a + b + r.parts == a + (b + r.parts);
    }
  }

  /** One turn does the same with or without labels gathered before it. */
  lemma StepPrepend(buf: seq<Byte>, endAt: int, s: LoopState)
    requires s.offset <= |buf|
    ensures var t, t0 := Step(buf, endAt, s), Step(buf, endAt, s.(parts := []));
            && t.Go? == t0.Go?
            && (t.Stop? ==> t.run == Prepend(s.parts, t0.run))
            && (t.Go? ==> t.next == t0.next.(parts := s.parts + t0.next.parts))
  {
    assert s.parts + [] == s.parts;
    if s.len == 0 || IsPointer(s.len) {
    } else if s.offset + s.len <= |buf| {
      var v := buf[s.offset..s.offset + s.len];
      assert [] + [v] == [v];
    }
  }

  /** Labels gathered before the loop stay in front of whatever it adds. */
  lemma {:induction false} LoopPrepend(buf: seq<Byte>, endAt: int, s: LoopState)
    requires s.offset <= |buf|
    ensures Loop(buf, endAt, s) == Prepend(s.parts, Loop(buf, endAt, s.(parts := [])))
    decreases s.hops, |buf| - s.offset
  {
    StepPrepend(buf, endAt, s);
    var s0 := s.(parts := []);
    match Step(buf, endAt, s) {
      case Stop(r) =>
      case Go(n) =>
        var n0 := Step(buf, endAt, s0).next;
        LoopPrepend(buf, endAt, n);
        LoopPrepend(buf, endAt, n0);
        assert n.(parts := []) == n0.(parts := []);
        PrependTwice(s.parts, n0.parts, Loop(buf, endAt, n0.(parts := [])));
    }
  }

  /** The bounds `LoopFinished` keeps, for the state `s`. */
  predicate Bounded(buf: seq<Byte>, s: LoopState, lo: nat)
  {
    && s.offset <= |buf|
    && (!s.comp ==> lo <= s.offset)
    && (s.comp ==> lo <= s.end <= |buf|)
  }

  /** `b` extends `a` with non-empty labels only. */
  predicate GrowsByLabels(a: seq<Label>, b: seq<Label>)
  {
    a <= b && forall i :: |a| <= i < |b| ==> |b[i]| > 0
  }

  /** One turn keeps the bounds, never changes a saved resume offset, and only
      appends non-empty labels. */
  lemma StepFinished(buf: seq<Byte>, endAt: int, s: LoopState, lo: nat)
    requires Bounded(buf, s, lo)
    ensures var t := Step(buf, endAt, s);
            && (t.Stop? && t.run.Finished? ==>
                  && lo <= t.run.offset <= |buf|
                  && (s.comp ==> t.run.offset == s.end)
                  && GrowsByLabels(s.parts, t.run.parts))
            && (t.Go? ==>
                  && Bounded(buf, t.next, lo)
                  && (s.comp ==> t.next.comp && t.next.end == s.end)
                  && GrowsByLabels(s.parts, t.next.parts))
  {
  }

  /** A finished loop leaves the cursor inside the buffer, at the saved resume
      offset once a pointer has been followed, and only ever appends non-empty
      labels to those already gathered. */
  lemma {:induction false} LoopFinished(buf: seq<Byte>, endAt: int, s: LoopState, lo: nat)
    requires Bounded(buf, s, lo)
    ensures var r := Loop(buf, endAt, s);
            r.Finished? ==>
              && lo <= r.offset <= |buf|
              && (s.comp ==> r.offset == s.end)
              && GrowsByLabels(s.parts, r.parts)
    decreases s.hops, |buf| - s.offset
  {
    StepFinished(buf, endAt, s, lo);
    match Step(buf, endAt, s) {
      case Stop(r) =>
      case Go(n) =>
        LoopFinished(buf, endAt, n, lo);
        var r := Loop(buf, endAt, n);
        if r.Finished? {
          assert GrowsByLabels(s.parts, r.parts) by {
            forall i | |s.parts| <= i < |r.parts| ensures |r.parts[i]| > 0 {
              if i < |n.parts| {
                assert r.parts[i] == n.parts[i];
              }
            }
          }
        }
    }
  }

  /** After a successful call the cursor has moved forward, but not past the
      end of the buffer, and every label returned is non-empty unless the name
      is the root. */
  lemma DecodeNameFinished(buf: seq<Byte>, start: nat, endAt: int, hops: nat)
    ensures var r := DecodeName(buf, start, endAt, hops);
            r.Finished? ==>
              && start < r.offset <= |buf|
              && (buf[start] != 0 ==> forall i :: 0 <= i < |r.parts| ==> |r.parts[i]| > 0)
  {
    if start < |buf| {
      LoopFinished(buf, endAt, Initial(buf, start, hops), start + 1);
    }
  }

  /** A first length byte of zero is the root name: one empty label, and the
      cursor one byte past the start. */
  lemma RootName(buf: seq<Byte>, start: nat, endAt: int, hops: nat)
    requires start < |buf| && buf[start] == 0
    ensures DecodeName(buf, start, endAt, hops) == Finished([[]], start + 1)
    ensures Join(DecodeName(buf, start, endAt, hops).parts) == []
  {
    assert Step(buf, endAt, Initial(buf, start, hops)) == Stop(Finished([[]], start + 1));
    LoopStop(buf, endAt, Initial(buf, start, hops));
  }

  /** One plain label at `p`: it is appended and reading goes on after it. */
  lemma ReadLabel(buf: seq<Byte>, endAt: int, p: nat, comp: bool, end: nat,
                  parts: seq<Label>, hops: nat, l: Label)
    requires PlainLabel(l)
    requires p + 1 + |l| <= |buf|
    requires buf[p] == |l| && buf[p + 1..p + 1 + |l|] == l
    requires endAt == 0 || p + 1 + |l| < endAt
    ensures Next(buf, endAt, p, comp, end, parts, hops)
         == Next(buf, endAt, p + 1 + |l|, comp, end, parts + [l], hops)
  {
    var s := LoopState(p + 1, buf[p], comp, end, parts, hops);
    var o := p + 1 + |l|;
    if o < |buf| {
      assert Step(buf, endAt, s) == Go(LoopState(o + 1, buf[o], comp, end, parts + [l], hops));
      LoopGo(buf, endAt, s);
    } else {
      assert Step(buf, endAt, s) == Stop(Failed(ReadOutOfRange, o + 1));
      LoopStop(buf, endAt, s);
    }
  }

  /** The wire form of labels at `p` starts with the first label's length
      byte and bytes, followed by the wire form of the others. */
  lemma SplitEncoding(buf: seq<Byte>, p: nat, ls: seq<Label>)
    requires ls != []
    requires AllPlain(ls)
    requires p + |EncodeLabels(ls)| <= |buf|
    requires buf[p..p + |EncodeLabels(ls)|] == EncodeLabels(ls)
    ensures PlainLabel(ls[0])
    ensures var q := p + 1 + |ls[0]|;
            && |EncodeLabels(ls)| == 1 + |ls[0]| + |EncodeLabels(ls[1..])|
            && buf[p] == |ls[0]|
            && buf[p + 1..q] == ls[0]
            && buf[q..q + |EncodeLabels(ls[1..])|] == EncodeLabels(ls[1..])
  {
    EncodeLabelsCons(ls);
    SplitThree(buf, p, EncodeLabels(ls), |ls[0]| as Byte, ls[0], EncodeLabels(ls[1..]));
  }

  /** The first label of a run, then the others. */
  lemma EncodeLabelsCons(ls: seq<Label>)
    requires ls != [] && AllPlain(ls)
    ensures PlainLabel(ls[0]) && AllPlain(ls[1..])
    ensures EncodeLabels(ls) == [|ls[0]| as Byte] + ls[0] + EncodeLabels(ls[1..])
  {
  }

  /** A byte string made of one byte and two pieces, found at `p`. */
  lemma SplitThree(buf: seq<Byte>, p: nat, w: seq<Byte>, x: Byte, l: seq<Byte>, r: seq<Byte>)
    requires p + |w| <= |buf| && buf[p..p + |w|] == w
    requires w == [x] + l + r
    ensures |w| == 1 + |l| + |r|
    ensures buf[p] == x
    ensures buf[p + 1..p + 1 + |l|] == l
    ensures buf[p + 1 + |l|..p + |w|] == r
  {
    assert buf[p] == w[0];
    forall k | 0 <= k < |l| ensures buf[p + 1..p + 1 + |l|][k] == l[k] {
      assert buf[p + 1 + k] == w[1 + k];
    }
    forall k | 0 <= k < |r| ensures buf[p + 1 + |l|..p + |w|][k] == r[k] {
      assert buf[p + 1 + |l| + k] == w[1 + |l| + k];
    }
  }

  /** A slice of a slice is a slice. */
  lemma SliceOfSlice(s: seq<Byte>, a: nat, b: nat, i: nat, j: nat)
    requires a <= b <= |s| && i <= j <= b - a
    ensures s[a..b][i..j] == s[a + i..a + j]
  {
    forall k | 0 <= k < j - i ensures s[a..b][i..j][k] == s[a + i..a + j][k] {
      assert s[a..b][i..j][k] == s[a..b][i + k] == s[a + i + k];
    }
  }

  /** The buffer holds the plain labels `ls`, each after its length byte,
      from `p` up to `e`. */
  predicate LabelsAt(buf: seq<Byte>, p: nat, ls: seq<Label>, e: nat)
    decreases ls
  {
    if ls == [] then p == e
    else
      var q := p + 1 + |ls[0]|;
      && PlainLabel(ls[0])
      && q <= |buf|
      && buf[p] == |ls[0]|
      && buf[p + 1..q] == ls[0]
      && LabelsAt(buf, q, ls[1..], e)
  }

  /** The wire form of the labels, found in the buffer, is read as labels. */
  lemma {:induction false} EncodedLabelsAt(buf: seq<Byte>, p: nat, ls: seq<Label>)
    requires AllPlain(ls)
    requires p + |EncodeLabels(ls)| <= |buf|
    requires buf[p..p + |EncodeLabels(ls)|] == EncodeLabels(ls)
    ensures LabelsAt(buf, p, ls, p + |EncodeLabels(ls)|)
    decreases ls
  {
    if ls != [] {
      SplitEncoding(buf, p, ls);
      EncodedLabelsAt(buf, p + 1 + |ls[0]|, ls[1..]);
    }
  }

  /** Reading plain labels collects exactly those labels, in order, and moves
      to the byte after them. */
  lemma {:induction false} WalkLabels(buf: seq<Byte>, endAt: int, p: nat, comp: bool, end: nat,
                                      parts: seq<Label>, hops: nat, ls: seq<Label>, e: nat)
    requires LabelsAt(buf, p, ls, e)
    requires endAt == 0 || e < endAt
    ensures p <= e
    ensures Next(buf, endAt, p, comp, end, parts, hops)
         == Next(buf, endAt, e, comp, end, parts + ls, hops)
    decreases ls
  {
    if ls == [] {
      assert parts + ls == parts;
    } else {
      var l, rest := ls[0], ls[1..];
      var q := p + 1 + |l|;
      assert parts + [l] + rest == parts + ls by {
        assert ls == [l] + rest;
      }
      WalkLabels(buf, endAt, q, comp, end, parts + [l], hops, rest, e);
      ReadLabel(buf, endAt, p, comp, end, parts, hops, l);
    }
  }

  /** Wire form of the labels `a + b`. */
  lemma {:induction false} EncodeLabelsAppend(a: seq<Label>, b: seq<Label>)
    requires AllPlain(a) && AllPlain(b)
    ensures AllPlain(a + b)
    ensures EncodeLabels(a + b) == EncodeLabels(a) + EncodeLabels(b)
  {
    var c := a + b;
    if a == [] {
      assert c == b;
    } else {
      assert c[0] == a[0] && c[1..] == a[1..] + b;
      EncodeLabelsCons(a);
      EncodeLabelsAppend(a[1..], b);
      EncodeLabelsCons(c);
      assert EncodeLabels(c) == [|a[0]| as Byte] + a[0] + (EncodeLabels(a[1..]) + EncodeLabels(b));
    }
  }

  /** An uncompressed name decodes to its labels in wire order (the root to a
      single empty label), and the cursor ends just past its zero byte. */
  lemma PlainName(buf: seq<Byte>, start: nat, endAt: int, hops: nat, ls: seq<Label>)
    requires AllPlain(ls)
    requires start + |EncodeName(ls)| <= |buf|
    requires buf[start..start + |EncodeName(ls)|] == EncodeName(ls)
    requires endAt == 0 || start + |EncodeLabels(ls)| < endAt
    ensures DecodeName(buf, start, endAt, hops)
         == Finished(if ls == [] then [[]] else ls, start + |EncodeName(ls)|)
  {
    var q := start + |EncodeLabels(ls)|;
    assert LabelsAt(buf, start, ls, q) && buf[q] == 0 by {
      var n := EncodeName(ls);
      SliceOfSlice(buf, start, start + |n|, 0, q - start);
      assert n[..q - start] == EncodeLabels(ls);
      assert buf[q] == n[q - start] == 0;
      EncodedLabelsAt(buf, start, ls);
    }
    NameEndsAt(buf, start, endAt, hops, ls, q);
  }

  /** PlainName, for labels found in the buffer from `start` to a zero byte at `q`. */
  lemma NameEndsAt(buf: seq<Byte>, start: nat, endAt: int, hops: nat, ls: seq<Label>, q: nat)
    requires LabelsAt(buf, start, ls, q)
    requires q < |buf| && buf[q] == 0
    requires endAt == 0 || q < endAt
    ensures DecodeName(buf, start, endAt, hops) == Finished(if ls == [] then [[]] else ls, q + 1)
  {
    if ls == [] {
      assert start == q;
      RootName(buf, start, endAt, hops);
    } else {
      NameAfterLabels(buf, start, endAt, hops, ls, q);
      assert Step(buf, endAt, LoopState(q + 1, 0, false, 0, ls, hops)) == Stop(Finished(ls, q + 1));
      LoopStop(buf, endAt, LoopState(q + 1, 0, false, 0, ls, hops));
    }
  }

  /** A name that is labels followed by a pointer: its labels come first, then
      those read at the target, and the cursor is left just after the pointer's
      two bytes however many further pointers are followed from the target. A
      target past the end of the buffer makes the seek throw. */
  lemma FollowPointer(buf: seq<Byte>, start: nat, endAt: int, hops: nat, ls: seq<Label>, q: nat)
    requires AllPlain(ls)
    requires q == start + |EncodeLabels(ls)| && q + 2 <= |buf|
    requires buf[start..q] == EncodeLabels(ls)
    requires IsPointer(buf[q])
    requires endAt == 0 || q < endAt
    ensures var t := PointerTarget(buf[q], buf[q + 1]);
            var r := DecodeName(buf, start, endAt, hops + 1);
            && (t <= |buf| ==> r == Prepend(ls, Next(buf, endAt, t, true, q + 2, [], hops)))
            && (t > |buf| ==> r == Failed(SeekPastEnd, q + 2))
            && (r.Finished? ==> r.offset == q + 2)
  {
    EncodedLabelsAt(buf, start, ls);
    PointerAfterLabels(buf, start, endAt, hops, ls, q);
  }

  /** FollowPointer, for labels found in the buffer from `start` to `q`. */
  lemma PointerAfterLabels(buf: seq<Byte>, start: nat, endAt: int, hops: nat, ls: seq<Label>, q: nat)
    requires LabelsAt(buf, start, ls, q)
    requires q + 2 <= |buf| && IsPointer(buf[q])
    requires endAt == 0 || q < endAt
    ensures var t := PointerTarget(buf[q], buf[q + 1]);
            var r := DecodeName(buf, start, endAt, hops + 1);
            && (t <= |buf| ==> r == Prepend(ls, Next(buf, endAt, t, true, q + 2, [], hops)))
            && (t > |buf| ==> r == Failed(SeekPastEnd, q + 2))
            && (r.Finished? ==> r.offset == q + 2)
  {
    NameAfterLabels(buf, start, endAt, hops + 1, ls, q);
    PointerAt(buf, endAt, q, ls, hops);
  }

  /** Reading a name made of the plain labels `ls` from `start` gathers them
      and reaches the length byte at `q`. */
  lemma NameAfterLabels(buf: seq<Byte>, start: nat, endAt: int, hops: nat, ls: seq<Label>, q: nat)
    requires LabelsAt(buf, start, ls, q)
    requires ls != [] || (q < |buf| && buf[q] != 0)
    requires endAt == 0 || q < endAt
    ensures DecodeName(buf, start, endAt, hops) == Next(buf, endAt, q, false, 0, ls, hops)
  {
    assert start < |buf| && buf[start] != 0 by {
      if ls == [] {
        assert start == q;
      }
    }
    DecodeAsNext(buf, start, endAt, hops);
    WalkLabels(buf, endAt, start, false, 0, [], hops, ls, q);
    assert [] + ls == ls;
  }

  /** The first pointer of a name, at `q`, after the labels `parts`: the
      labels read at the target follow `parts`, and the cursor ends just after
      the pointer. */
  lemma PointerAt(buf: seq<Byte>, endAt: int, q: nat, parts: seq<Label>, hops: nat)
    requires q + 2 <= |buf| && IsPointer(buf[q])
    ensures var t := PointerTarget(buf[q], buf[q + 1]);
            var r := Next(buf, endAt, q, false, 0, parts, hops + 1);
            && (t <= |buf| ==> r == Prepend(parts, Next(buf, endAt, t, true, q + 2, [], hops)))
            && (t > |buf| ==> r == Failed(SeekPastEnd, q + 2))
            && (r.Finished? ==> r.offset == q + 2)
  {
    var t := PointerTarget(buf[q], buf[q + 1]);
    FirstPointerTurn(buf, endAt, q, parts, hops);
    if t < |buf| {
      var n := LoopState(t + 1, buf[t], true, q + 2, parts, hops);
      LoopPrepend(buf, endAt, n);
      assert Next(buf, endAt, t, true, q + 2, [], hops) == Loop(buf, endAt, n.(parts := []));
      LoopFinished(buf, endAt, n, 0);
    } else if t == |buf| {
      assert Next(buf, endAt, t, true, q + 2, [], hops) == Failed(ReadOutOfRange, t + 1);
    }
  }

  /** A name whose first length byte is not zero: no root label, just the loop. */
  lemma DecodeAsNext(buf: seq<Byte>, start: nat, endAt: int, hops: nat)
    requires start < |buf| && buf[start] != 0
    ensures DecodeName(buf, start, endAt, hops) == Next(buf, endAt, start, false, 0, [], hops)
  {
  }

  /** The first pointer of a name at `q`: the resume offset becomes `q + 2`
      and reading goes on at the target, unless the target is out of range. */
  lemma FirstPointerTurn(buf: seq<Byte>, endAt: int, q: nat, parts: seq<Label>, hops: nat)
    requires q + 2 <= |buf| && IsPointer(buf[q])
    ensures var t := PointerTarget(buf[q], buf[q + 1]);
            var r := Next(buf, endAt, q, false, 0, parts, hops + 1);
            && (t < |buf| ==> r == Loop(buf, endAt, LoopState(t + 1, buf[t], true, q + 2, parts, hops)))
            && (t == |buf| ==> r == Failed(ReadOutOfRange, t + 1))
            && (t > |buf| ==> r == Failed(SeekPastEnd, q + 2))
  {
    var t := PointerTarget(buf[q], buf[q + 1]);
    var s := LoopState(q + 1, buf[q], false, 0, parts, hops + 1);
    assert Next(buf, endAt, q, false, 0, parts, hops + 1) == Loop(buf, endAt, s);
    if t < |buf| {
      assert Step(buf, endAt, s) == Go(LoopState(t + 1, buf[t], true, q + 2, parts, hops));
      LoopGo(buf, endAt, s);
    } else if t == |buf| {
      assert Step(buf, endAt, s) == Stop(Failed(ReadOutOfRange, t + 1));
      LoopStop(buf, endAt, s);
    } else {
      assert Step(buf, endAt, s) == Stop(Failed(SeekPastEnd, q + 2));
      LoopStop(buf, endAt, s);
    }
  }

  /** The last label of a name reaches `endAt`: the loop stops after it. */
  lemma ReadLabelAtEnd(buf: seq<Byte>, endAt: int, p: nat, comp: bool, end: nat,
                       parts: seq<Label>, hops: nat, l: Label)
    requires PlainLabel(l)
    requires p + 1 + |l| <= |buf|
    requires buf[p] == |l| && buf[p + 1..p + 1 + |l|] == l
    requires endAt != 0 && p + 1 + |l| >= endAt
    ensures Next(buf, endAt, p, comp, end, parts, hops)
         == Finished(parts + [l], if comp then end else p + 1 + |l|)
  {
    var s := LoopState(p + 1, buf[p], comp, end, parts, hops);
    assert Step(buf, endAt, s) == Stop(Finished(parts + [l], if comp then end else p + 1 + |l|));
    LoopStop(buf, endAt, s);
  }

  /** A name embedded in a record that ends at `endAt`: label reading stops
      as soon as the cursor reaches `endAt`, whatever bytes follow. */
  lemma EndAtCut(buf: seq<Byte>, start: nat, hops: nat, ls: seq<Label>)
    requires ls != []
    requires AllPlain(ls)
    requires start + |EncodeLabels(ls)| <= |buf|
    requires buf[start..start + |EncodeLabels(ls)|] == EncodeLabels(ls)
    ensures DecodeName(buf, start, start + |EncodeLabels(ls)|, hops)
         == Finished(ls, start + |EncodeLabels(ls)|)
  {
    var init, last := ls[..|ls| - 1], ls[|ls| - 1];
    assert init + [last] == ls;
    var q := LastLabelAt(buf, start, ls);
    CutAfterLabels(buf, start, hops, init, q, last, start + |EncodeLabels(ls)|);
  }

  /** The encoding of labels `ls` found at `start`: all but the last of them
      run from `start` to `q`, where the length byte of the last one sits. */
  lemma LastLabelAt(buf: seq<Byte>, start: nat, ls: seq<Label>) returns (q: nat)
    requires ls != []
    requires AllPlain(ls)
    requires start + |EncodeLabels(ls)| <= |buf|
    requires buf[start..start + |EncodeLabels(ls)|] == EncodeLabels(ls)
    ensures var init, last := ls[..|ls| - 1], ls[|ls| - 1];
            && LabelsAt(buf, start, init, q)
            && PlainLabel(last)
            && start + |EncodeLabels(ls)| == q + 1 + |last|
            && buf[q] == |last| && buf[q + 1..q + 1 + |last|] == last
  {
    var init, last := ls[..|ls| - 1], ls[|ls| - 1];
    assert AllPlain(init) && PlainLabel(last) by {
      assert ls == init + [last];
      AllPlainSplit(init, last);
    }
    var a, b := EncodeLabels(init), EncodeLabels([last]);
    assert EncodeLabels(ls) == a + b by {
      assert ls == init + [last];
      EncodeLabelsAppend(init, [last]);
    }
    q := start + |a|;
    assert buf[start..q] == a && buf[q..q + |b|] == b by {
      SplitAt(buf, start, a, b);
    }
    assert b == [|last| as Byte] + last + [] by {
      var one: seq<Label> := [last];
      assert one[1..] == [];
      assert EncodeLabels(one[1..]) == [];
      assert EncodeLabels(one) == [|last| as Byte] + last + EncodeLabels(one[1..]);
    }
    assert |b| == 1 + |last| && buf[q] == |last| && buf[q + 1..q + 1 + |last|] == last by {
      SplitThree(buf, q, b, |last| as Byte, last, []);
    }
    EncodedLabelsAt(buf, start, init);
  }

  /** The labels before the last one of a run of plain labels are plain, and
      so is the last. */
  lemma {:induction false} AllPlainSplit(init: seq<Label>, last: Label)
    requires AllPlain(init + [last])
    ensures AllPlain(init) && PlainLabel(last)
  {
    if init != [] {
      assert (init + [last])[1..] == init[1..] + [last];
      AllPlainSplit(init[1..], last);
    }
  }

  /** Two byte strings found one after the other at `p`. */
  lemma SplitAt(buf: seq<Byte>, p: nat, a: seq<Byte>, b: seq<Byte>)
    requires p + |a| + |b| <= |buf|
    requires buf[p..p + |a| + |b|] == a + b
    ensures buf[p..p + |a|] == a
    ensures buf[p + |a|..p + |a| + |b|] == b
  {
    var w := buf[p..p + |a| + |b|];
    forall k | 0 <= k < |a| ensures buf[p..p + |a|][k] == a[k] {
      assert buf[p + k] == w[k];
    }
    forall k | 0 <= k < |b| ensures buf[p + |a|..p + |a| + |b|][k] == b[k] {
      assert buf[p + |a| + k] == w[|a| + k];
    }
  }

  /** EndAtCut, for labels `init` found from `start` to `q` and a last label
      at `q` that ends exactly at `endAt`. */
  lemma CutAfterLabels(buf: seq<Byte>, start: nat, hops: nat, init: seq<Label>, q: nat,
                       last: Label, endAt: nat)
    requires LabelsAt(buf, start, init, q)
    requires PlainLabel(last) && endAt == q + 1 + |last| <= |buf|
    requires buf[q] == |last| && buf[q + 1..endAt] == last
    ensures DecodeName(buf, start, endAt, hops) == Finished(init + [last], endAt)
  {
    NameAfterLabels(buf, start, endAt, hops, init, q);
    ReadLabelAtEnd(buf, endAt, q, false, 0, init, hops, last);
  }

  /** One turn with a larger hop budget does the same, unless the budget ran
      out, and keeps the extra hops. */
  lemma StepMoreHops(buf: seq<Byte>, endAt: int, s: LoopState, more: nat)
    requires s.offset <= |buf| && s.hops <= more
    requires Step(buf, endAt, s) != Stop(Exhausted)
    ensures var t, t' := Step(buf, endAt, s), Step(buf, endAt, s.(hops := more));
            && (t.Stop? ==> t' == t)
            && (t.Go? ==> t'.Go? && t'.next == t.next.(hops := t.next.hops + (more - s.hops)))
  {
  }

  /** A larger hop budget changes nothing about a loop that did not run out. */
  lemma {:induction false} LoopMoreHops(buf: seq<Byte>, endAt: int, s: LoopState, more: nat)
    requires s.offset <= |buf| && s.hops <= more
    requires !Loop(buf, endAt, s).Exhausted?
    ensures Loop(buf, endAt, s.(hops := more)) == Loop(buf, endAt, s)
    decreases s.hops, |buf| - s.offset
  {
    var t := Step(buf, endAt, s);
    assert t != Stop(Exhausted);
    StepMoreHops(buf, endAt, s, more);
    if t.Go? {
      var n := t.next;
      var n' := n.(hops := n.hops + (more - s.hops));
      assert Loop(buf, endAt, s) == Loop(buf, endAt, n);
      assert Loop(buf, endAt, s.(hops := more)) == Loop(buf, endAt, n');
      LoopMoreHops(buf, endAt, n, n.hops + (more - s.hops));
    } else {
      assert Loop(buf, endAt, s) == t.run;
      assert Loop(buf, endAt, s.(hops := more)) == t.run;
    }
  }

  /** The result of a call that did not run out of hops is the result of
      every larger budget, and so the result of the unbounded decoder. */
  lemma DecodeNameMoreHops(buf: seq<Byte>, start: nat, endAt: int, hops: nat, more: nat)
    requires hops <= more
    requires !DecodeName(buf, start, endAt, hops).Exhausted?
    ensures DecodeName(buf, start, endAt, more) == DecodeName(buf, start, endAt, hops)
  {
    if start < |buf| {
      LoopMoreHops(buf, endAt, Initial(buf, start, hops), more);
      assert Initial(buf, start, hops).(hops := more) == Initial(buf, start, more);
    }
  }

  /** A pointer to itself: the decoder follows it for ever, so every hop
      budget runs out; nothing in the decoder rejects the cycle. */
  lemma {:induction false} SelfPointerLoop(endAt: int, comp: bool, end: nat, hops: nat)
    ensures Loop([0xC0, 0x00], endAt, LoopState(1, 0xC0, comp, end, [], hops)) == Exhausted
    decreases hops
  {
    var buf: seq<Byte> := [0xC0, 0x00];
    assert PointerTarget(0xC0, buf[1]) == 0;
    if hops > 0 {
      SelfPointerLoop(endAt, true, if comp then end else 2, hops - 1);
    }
  }

  lemma SelfPointerNeverFinishes(endAt: int, hops: nat)
    ensures DecodeName([0xC0, 0x00], 0, endAt, hops) == Exhausted
  {
    SelfPointerLoop(endAt, false, 0, hops);
  }

  /** A pointer whose target holds a zero byte: the name has no labels at all
      (joined, the empty string), unlike the root, which has one empty label. */
  lemma PointerToRoot(endAt: int, hops: nat)
    requires hops > 0
    ensures DecodeName([0xC0, 0x02, 0x00], 0, endAt, hops) == Finished([], 2)
  {
    var buf: seq<Byte> := [0xC0, 0x02, 0x00];
    var s := LoopState(3, buf[2], true, 2, [], hops - 1);
    assert PointerTarget(buf[0], buf[1]) == 2;
    assert Step(buf, endAt, Initial(buf, 0, hops)) == Go(s);
    LoopGo(buf, endAt, Initial(buf, 0, hops));
    assert Step(buf, endAt, s) == Stop(Finished([], 2));
    LoopStop(buf, endAt, s);
  }

  /** The labels "www", "example" and "com", in ASCII. */
  const WWW: Label := [0x77, 0x77, 0x77]
  const EXAMPLE: Label := [0x65, 0x78, 0x61, 0x6D, 0x70, 0x6C, 0x65]
  const COM: Label := [0x63, 0x6F, 0x6D]

  /** "example.com" at offset 0, then at offset 13 "www" and a pointer to 0. */
  const COMPRESSED: seq<Byte> := [7] + EXAMPLE + [3] + COM + [0] + [3] + WWW + [0xC0, 0x00]

  /** "www" followed by a pointer back to "example.com" at offset 0 decodes
      to "www.example.com", and the cursor ends just after the pointer. */
  lemma CompressedSuffix(hops: nat)
    ensures DecodeName(COMPRESSED, 13, 0, hops + 1) == Finished([WWW, EXAMPLE, COM], 19)
    ensures Join([WWW, EXAMPLE, COM]) == WWW + [DOT] + EXAMPLE + [DOT] + COM
  {
    var buf := COMPRESSED;
    assert |buf| == 19 && AllPlain([WWW]);
    assert EncodeLabels([WWW]) == buf[13..17];
    assert PointerTarget(buf[17], buf[18]) == 0;
    SuffixAtStart(hops);
    FollowPointer(buf, 13, 0, hops, [WWW], 17);
    assert [WWW] + [EXAMPLE, COM] == [WWW, EXAMPLE, COM];
    JoinExample();
  }

  /** The suffix "example.com" of COMPRESSED, read from offset 0 after a
      pointer with resume offset 19. */
  lemma SuffixAtStart(hops: nat)
    ensures Next(COMPRESSED, 0, 0, true, 19, [], hops) == Finished([EXAMPLE, COM], 19)
  {
    var buf := COMPRESSED;
    var suffix: seq<Label> := [EXAMPLE, COM];
    assert |buf| == 19 && AllPlain(suffix);
    assert EncodeLabels(suffix) == buf[0..12] by {
      assert EncodeLabels(suffix[1..]) == [3] + COM;
    }
    EncodedLabelsAt(buf, 0, suffix);
    WalkLabels(buf, 0, 0, true, 19, [], hops, suffix, 12);
    assert [] + suffix == suffix;
    var z := LoopState(13, buf[12], true, 19, suffix, hops);
    assert Step(buf, 0, z) == Stop(Finished(suffix, 19));
    LoopStop(buf, 0, z);
  }

  /** The three labels joined with '.'. */
  lemma JoinExample()
    ensures Join([WWW, EXAMPLE, COM]) == WWW + [DOT] + EXAMPLE + [DOT] + COM
  {
    var ps: seq<Label> := [WWW, EXAMPLE, COM];
    var qs: seq<Label> := [EXAMPLE, COM];
    var rs: seq<Label> := [COM];
    assert ps[1..] == qs && qs[1..] == rs;
    assert Join(rs) == COM;
    assert Join(qs) == EXAMPLE + [DOT] + Join(rs);
    assert Join(ps) == WWW + [DOT] + Join(qs);
  }

  /** Without a '.' byte the first part is the whole string. */
  lemma {:induction false} SplitNoDot(l: Label)
    requires DOT !in l
    ensures Split(l) == [l]
  {
    if l != [] {
      SplitNoDot(l[1..]);
      assert [l[0]] + l[1..] == l;
    }
  }

  /** A dot-free label, a '.', then anything: the label is the first part. */
  lemma {:induction false} SplitAtDot(l: Label, t: seq<Byte>)
    requires DOT !in l
    ensures Split(l + [DOT] + t) == [l] + Split(t)
  {
    var s := l + [DOT] + t;
    if l == [] {
      assert s[1..] == t;
    } else {
      assert s[1..] == l[1..] + [DOT] + t;
      SplitAtDot(l[1..], t);
      assert [l[0]] + l[1..] == l;
    }
  }

  /** Joining labels that hold no '.' can be undone by splitting. */
  lemma {:induction false} SplitJoin(ps: seq<Label>)
    requires ps != []
    requires forall i :: 0 <= i < |ps| ==> DOT !in ps[i]
    ensures Split(Join(ps)) == ps
  {
    if |ps| == 1 {
      SplitNoDot(ps[0]);
    } else {
      SplitAtDot(ps[0], Join(ps[1..]));
      SplitJoin(ps[1..]);
    }
  }
}
