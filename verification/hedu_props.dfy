/**
 * Properties of the hex dump, stated about the functional mirror of `dump` in module Hedu
 * (which the methods there are proved equal to).
 */
module HeduProps {
  import opened Wrappers
  import opened Fmt
  import opened Hedu

  /** The data bytes the records show, in order; repeat markers show none. */
  function Shown(recs: seq<Record>): seq<byte>
  {
    if recs == [] then []
    else (if recs[0].Line? then recs[0].bytes else []) + Shown(recs[1..])
  }

  lemma {:induction false} ShownAppend(a: seq<Record>, b: seq<Record>)
    ensures Shown(a + b) == Shown(a) + Shown(b)
    decreases |a|
  {
    if a == [] {
      assert a + b == b;
    } else {
      assert (a + b)[0] == a[0];
      assert (a + b)[1..] == a[1..] + b;
      ShownAppend(a[1..], b);
    }
  }

  // ---------------------------------------------------------------------------------------
  // One turn at a time

  /** `Lines` is one turn, then (unless the turn ended the loop) `Lines` again. */
  lemma LinesUnfold(st: Settings, s: Session, src: Source)
    requires s.Valid() && src.Valid() && s.altBuf == 0 && s.len > 0
    ensures var t := Advance(st, s, src);
            Lines(st, s, src) ==
              if t.more then Prepended(t.records, Lines(st, t.session, t.source))
              else Run(t.status, t.records, t.session, t.source)
  {
  }

  /** What one turn prints and where it leaves the loop. */
  lemma AdvanceFacts(st: Settings, s: Session, src: Source)
    requires s.Valid() && src.Valid() && s.altBuf == 0 && s.len > 0
    ensures var t := Advance(st, s, src);
            && 1 <= |t.records| <= 2
            && t.records[0] == Line(s.dataIdx, s.buf0[..s.len])
            && (|t.records| == 2 ==> t.records[1].Repeats?)
            && (!t.more && t.status.Ok? ==> t.session.stop)
    ensures var t := Advance(st, s, src);
            var rd := ReadLine(st.limit, s, src);
            st.showIdentical ==>
              && t.records == [Line(s.dataIdx, s.buf0[..s.len])]
              && (!s.stop && rd.status.Ok? ==> t.more && t.session == rd.session && t.source == rd.source)
  {
    var rd := ReadLine(st.limit, s, src);
    if !s.stop && rd.status.Ok? {
      assert rd.session.altBuf == 0;
      assert rd.session.Toggled().Toggled() == rd.session;
    }
  }

  // ---------------------------------------------------------------------------------------
  // Shape of the output

  /**
   * Every data line holds 1 to 16 bytes, the first record is the line in buffer 0, there are
   * no records exactly when that line is empty, and a dump that does not fail ends on an empty
   * read or on the line read with the stop flag.
   */
  ghost predicate WellShaped(s: Session, r: Run)
    requires s.Valid()
  {
    && (forall i :: 0 <= i < |r.records| ==> r.records[i].Repeats? || IsLine(r.records[i]))
    && (s.len == 0 <==> r.records == [])
    && (s.len > 0 ==> r.records[0] == Line(s.dataIdx, s.buf0[..s.len]))
    && (r.status.Ok? ==> r.session.len == 0 || r.session.stop)
  }

  lemma {:induction false} LinesShape(st: Settings, s: Session, src: Source)
    requires s.Valid() && src.Valid() && s.altBuf == 0
    ensures WellShaped(s, Lines(st, s, src))
    decreases src.Fuel(), (if s.stop then 0 else 1), s.len
  {
    if s.len > 0 {
      var t := Advance(st, s, src);
      LinesUnfold(st, s, src);
      AdvanceFacts(st, s, src);
      if t.more {
        LinesShape(st, t.session, t.source);
        ShapePrepended(s, t.records, t.session, Lines(st, t.session, t.source));
      } else {
        assert WellShaped(s, Run(t.status, t.records, t.session, t.source));
      }
    } else {
      assert WellShaped(s, Lines(st, s, src));
    }
  }

  /** A turn's records in front of a well-shaped rest give a well-shaped dump. */
  lemma ShapePrepended(s: Session, recs: seq<Record>, s': Session, rest: Run)
    requires s.Valid() && s'.Valid() && s.len > 0 && 1 <= |recs| <= 2
    requires recs[0] == Line(s.dataIdx, s.buf0[..s.len])
    requires |recs| == 2 ==> recs[1].Repeats?
    requires WellShaped(s', rest)
    ensures WellShaped(s, Prepended(recs, rest))
  {
    var r := Prepended(recs, rest);
    forall i | 0 <= i < |r.records|
      ensures r.records[i].Repeats? || IsLine(r.records[i])
    {
      if i >= |recs| {
        assert r.records[i] == rest.records[i - |recs|];
      }
    }
  }

  // ---------------------------------------------------------------------------------------
  // Dumps that show identical lines

  /**
   * The data-dump loop with identical lines shown, written without the collapse: print the
   * line in buffer 0, stop on the stop flag, otherwise read the next line and go on.
   */
  function PlainLines(limit: nat, s: Session, src: Source): (r: Run)
    requires s.Valid() && src.Valid() && s.altBuf == 0
    decreases src.Fuel(), (if s.stop then 0 else 1), s.len
  {
    if s.len == 0 then Run(Ok(Unit), [], s, src)
    else
      var line := Line(s.dataIdx, s.buf0[..s.len]);
      if s.stop then Run(Ok(Unit), [line], s, src)
      else
        var rd := ReadLine(limit, s, src);
        if rd.status.Err? then Run(rd.status, [line], rd.session, rd.source)
        else Prepended([line], PlainLines(limit, rd.session, rd.source))
  }

  /** With identical lines shown, a turn prints its line and goes on from the read. */
  lemma AdvanceShown(st: Settings, s: Session, src: Source)
    requires s.Valid() && src.Valid() && s.altBuf == 0 && s.len > 0 && st.showIdentical
    ensures var line := Line(s.dataIdx, s.buf0[..s.len]);
            var rd := ReadLine(st.limit, s, src);
            Advance(st, s, src) ==
              if s.stop then Turn(Ok(Unit), [line], s, src, false)
              else if rd.status.Err? then Turn(rd.status, [line], rd.session, rd.source, false)
              else Turn(Ok(Unit), [line], rd.session, rd.source, true)
  {
    var rd := ReadLine(st.limit, s, src);
    if !s.stop && rd.status.Ok? {
      assert rd.session.Toggled().Toggled() == rd.session;
    }
  }

  /** With identical lines shown, the data-dump loop is the plain loop. */
  lemma {:induction false} LinesArePlain(st: Settings, s: Session, src: Source)
    requires s.Valid() && src.Valid() && s.altBuf == 0 && st.showIdentical
    ensures Lines(st, s, src) == PlainLines(st.limit, s, src)
    decreases src.Fuel(), (if s.stop then 0 else 1), s.len
  {
    if s.len > 0 {
      AdvanceShown(st, s, src);
      var rd := ReadLine(st.limit, s, src);
      if !s.stop && rd.status.Ok? {
        LinesArePlain(st, rd.session, rd.source);
      }
    }
  }

  ghost predicate AllLines(recs: seq<Record>)
  {
    forall i :: 0 <= i < |recs| ==> recs[i].Line?
  }

  lemma AllLinesCons(x: Record, rest: seq<Record>)
    requires x.Line? && AllLines(rest)
    ensures AllLines([x] + rest)
  {
    forall i | 0 < i < |[x] + rest|
      ensures ([x] + rest)[i].Line?
    {
      assert ([x] + rest)[i] == rest[i - 1];
    }
  }

  lemma {:induction false} PlainOnlyLines(limit: nat, s: Session, src: Source)
    requires s.Valid() && src.Valid() && s.altBuf == 0
    ensures AllLines(PlainLines(limit, s, src).records)
    decreases src.Fuel(), (if s.stop then 0 else 1), s.len
  {
    if s.len > 0 && !s.stop {
      var rd := ReadLine(limit, s, src);
      if rd.status.Ok? {
        PlainOnlyLines(limit, rd.session, rd.source);
        AllLinesCons(Line(s.dataIdx, s.buf0[..s.len]), PlainLines(limit, rd.session, rd.source).records);
      }
    }
  }

  /** With `show_identical` set nothing is collapsed: every record is a data line. */
  lemma NoRepeatsWhenShowIdentical(st: Settings, s: Session, src: Source)
    requires s.Valid() && src.Valid() && s.altBuf == 0 && st.showIdentical
    ensures var r := Lines(st, s, src);
            forall i :: 0 <= i < |r.records| ==> r.records[i].Line?
  {
    LinesArePlain(st, s, src);
    PlainOnlyLines(st.limit, s, src);
  }

  /** Each data line's offset is the previous line's offset plus its own length. */
  ghost predicate OffsetsChain(recs: seq<Record>)
  {
    forall j, k :: 0 <= j < k < |recs| && k == j + 1 ==> Follows(recs[j], recs[k])
  }

  /** `b` is the data line printed right after the data line `a`. */
  ghost predicate Follows(a: Record, b: Record)
  {
    a.Line? && b.Line? && b.offset == a.offset + |b.bytes|
  }

  lemma ChainCons(x: Record, rest: seq<Record>)
    requires x.Line? && OffsetsChain(rest)
    requires rest != [] ==> rest[0].Line? && rest[0].offset == x.offset + |rest[0].bytes|
    ensures OffsetsChain([x] + rest)
  {
    var recs := [x] + rest;
    forall j, k | 0 <= j < k < |recs| && k == j + 1
      ensures Follows(recs[j], recs[k])
    {
      assert recs[k] == rest[k - 1];
      if j >= 1 {
        assert recs[j] == rest[j - 1];
      }
    }
  }

  lemma {:induction false} PlainOffsets(limit: nat, s: Session, src: Source)
    requires s.Valid() && src.Valid() && s.altBuf == 0
    ensures OffsetsChain(PlainLines(limit, s, src).records)
    decreases src.Fuel(), (if s.stop then 0 else 1), s.len
  {
    if s.len > 0 && !s.stop {
      var rd := ReadLine(limit, s, src);
      if rd.status.Ok? {
        ReadLineEffect(limit, s, src);
        PlainOffsets(limit, rd.session, rd.source);
        ChainCons(Line(s.dataIdx, s.buf0[..s.len]), PlainLines(limit, rd.session, rd.source).records);
      }
    }
  }

  /**
   * Without collapsing, each printed offset is the previous one plus the new line's length:
   * the offset column shows the index just past the line, not the index of its first byte.
   */
  lemma OffsetsAdvanceByLength(st: Settings, s: Session, src: Source)
    requires s.Valid() && src.Valid() && s.altBuf == 0 && st.showIdentical
    ensures OffsetsChain(Lines(st, s, src).records)
  {
    LinesArePlain(st, s, src);
    PlainOffsets(st.limit, s, src);
  }

  /** The first line of a dump from offset zero is labelled with its own length, in either mode. */
  lemma FirstOffset(st: Settings, src: Source)
    requires src.Valid() && st.skip == 0
    ensures var r := DumpFrom(st, NewSession(), src);
            |r.records| > 0 ==> r.records[0].Line? && r.records[0].offset == |r.records[0].bytes|
  {
    var rd := ReadLine(st.limit, NewSession(), src);
    ReadLineEffect(st.limit, NewSession(), src);
    if rd.status.Ok? {
      LinesShape(st, rd.session, rd.source);
    }
  }

  /**
   * Each data line's offset follows from the data line before it: by its own length when it
   * comes right after it, and by 16 plus the marker's figure when a repeat marker stands
   * between them.
   */
  ghost predicate OffsetsAdvance(recs: seq<Record>)
  {
    forall k :: 0 < k < |recs| && recs[k].Line? ==> Placed(recs, k)
  }

  /** Where the data line `recs[k]` sits relative to the data line before it. */
  ghost predicate Placed(recs: seq<Record>, k: nat)
    requires 0 < k < |recs| && recs[k].Line?
  {
    if recs[k - 1].Line? then recs[k].offset == recs[k - 1].offset + |recs[k].bytes|
    else k >= 2 && recs[k - 2].Line? && recs[k].offset == recs[k - 2].offset + BYTES_PER_LINE + recs[k - 1].count
  }

  /** Where the next turn starts: past the new line, or 16 plus the marker's figure further on. */
  lemma TurnOffsets(st: Settings, s: Session, src: Source)
    requires s.Valid() && src.Valid() && s.altBuf == 0 && s.len > 0
    ensures var t := Advance(st, s, src);
            t.more ==>
              && (|t.records| == 1 ==> t.session.dataIdx == s.dataIdx + t.session.len)
              && (|t.records| == 2 ==> t.session.dataIdx == s.dataIdx + BYTES_PER_LINE + t.records[1].count)
  {
    var rd := ReadLine(st.limit, s, src);
    ReadLineEffect(st.limit, s, src);
    if !s.stop && rd.status.Ok? {
      assert rd.session.Toggled().Toggled() == rd.session;
    }
  }

  lemma OffsetsPrepend(recs: seq<Record>, rest: seq<Record>)
    requires 1 <= |recs| <= 2 && recs[0].Line? && (|recs| == 2 ==> recs[1].Repeats?)
    requires OffsetsAdvance(rest)
    requires rest != [] ==> rest[0].Line?
    requires rest != [] ==>
               rest[0].offset == recs[0].offset + (if |recs| == 1 then |rest[0].bytes| else BYTES_PER_LINE + recs[1].count)
    ensures OffsetsAdvance(recs + rest)
  {
    var all := recs + rest;
    forall k | 0 < k < |all| && all[k].Line?
      ensures Placed(all, k)
    {
      var n := |recs|;
      if k > n {
        assert all[k] == rest[k - n] && all[k - 1] == rest[k - n - 1];
        assert Placed(rest, k - n);
        if !all[k - 1].Line? {
          assert all[k - 2] == rest[k - n - 2];
        }
      } else {
        assert k == n && all[k] == rest[0];
      }
    }
  }

  /**
   * In either mode, a data line printed right after another sits at that line's offset plus
   * its own length, and one printed after a repeat marker at the offset of the line before the
   * marker plus 16 plus the marker's figure.
   */
  lemma {:induction false} OffsetsAcrossRepeats(st: Settings, s: Session, src: Source)
    requires s.Valid() && src.Valid() && s.altBuf == 0
    ensures OffsetsAdvance(Lines(st, s, src).records)
    decreases src.Fuel(), (if s.stop then 0 else 1), s.len
  {
    if s.len > 0 {
      var t := Advance(st, s, src);
      LinesUnfold(st, s, src);
      AdvanceFacts(st, s, src);
      if t.more {
        TurnOffsets(st, s, src);
        var rest := Lines(st, t.session, t.source);
        OffsetsAcrossRepeats(st, t.session, t.source);
        LinesShape(st, t.session, t.source);
        OffsetsPrepend(t.records, rest.records);
      } else {
        assert OffsetsAdvance(t.records);
      }
    }
  }

  // ---------------------------------------------------------------------------------------
  // The repeat marker

  /**
   * The figure in "(repeats N lines)" counts bytes, not lines, and counts each repeated line
   * twice: it is 16 plus the length of the line that ended the run, plus 32 for every further
   * full line read inside the run.
   */
  lemma {:induction false} CollapseFigure(limit: nat, s: Session, src: Source)
    requires s.Valid() && src.Valid() && s.SameLines() && s.len == BYTES_PER_LINE
    ensures FigureFrom(s.dataIdx, Collapse(limit, s, src))
    decreases src.Fuel(), 1
  {
    var ok, next, src' := CollapseRound(limit, s, src);
    if !ok {
      FigureOfError(s.dataIdx, Collapse(limit, s, src));
    } else if next.SameLines() && next.len == BYTES_PER_LINE {
      CollapseFigureGoesOn(limit, s, src, next, src');
    } else {
      CollapseDone(limit, next, src');
      FigureBase(s.dataIdx, Collapse(limit, next, src'));
      FigureOf(s.dataIdx, Collapse(limit, s, src), Collapse(limit, next, src'));
    }
  }

  /** One round of the collapse loop, as the state it goes on from (when its read succeeds). */
  lemma CollapseRound(limit: nat, s: Session, src: Source) returns (ok: bool, next: Session, src': Source)
    requires s.Valid() && src.Valid() && s.SameLines() && s.len == BYTES_PER_LINE
    ensures next.Valid() && src'.Valid() && src'.Fuel() <= src.Fuel()
    ensures !ok ==> Collapse(limit, s, src).status.Err?
    ensures ok ==> Collapse(limit, s, src) == Collapse(limit, next, src')
    ensures ok ==> next.dataIdx == s.dataIdx + BYTES_PER_LINE + next.len
    ensures ok && next.len == BYTES_PER_LINE ==> src'.Fuel() < src.Fuel()
  {
    var rd := ReadLine(limit, s, src);
    CollapseStep(limit, s, src);
    CollapseCounts(limit, s, src);
    ok := rd.status.Ok?;
    next := rd.session.(dataIdx := rd.session.dataIdx + BYTES_PER_LINE);
    src' := rd.source;
  }

  /** A run that reads another full copy of the line, reaching `next`: the rest of the run, plus 32. */
  lemma {:induction false} CollapseFigureGoesOn(limit: nat, s: Session, src: Source, next: Session, src': Source)
    requires s.Valid() && src.Valid() && next.Valid() && src'.Valid()
    requires next.SameLines() && next.len == BYTES_PER_LINE
    requires src'.Fuel() < src.Fuel() && next.dataIdx == s.dataIdx + 32
    requires Collapse(limit, s, src) == Collapse(limit, next, src')
    ensures FigureFrom(s.dataIdx, Collapse(limit, s, src))
    decreases src.Fuel(), 0
  {
    CollapseFigure(limit, next, src');
    FigureChain(s.dataIdx, next.dataIdx, Collapse(limit, next, src'));
    FigureOf(s.dataIdx, Collapse(limit, s, src), Collapse(limit, next, src'));
  }

  /** One round of the collapse loop: a failed read ends it, a good one goes on from the next state. */
  lemma CollapseStep(limit: nat, s: Session, src: Source)
    requires s.Valid() && src.Valid() && s.SameLines() && s.len == BYTES_PER_LINE
    ensures var rd := ReadLine(limit, s, src);
            rd.status.Err? ==> Collapse(limit, s, src).status.Err?
    ensures var rd := ReadLine(limit, s, src);
            rd.status.Ok? ==>
              Collapse(limit, s, src) == Collapse(limit, rd.session.(dataIdx := rd.session.dataIdx + BYTES_PER_LINE), rd.source)
  {
  }

  /** A good read inside the collapse loop moves `data_idx` by its length and uses up input when full. */
  lemma CollapseCounts(limit: nat, s: Session, src: Source)
    requires s.Valid() && src.Valid()
    ensures var rd := ReadLine(limit, s, src);
            rd.status.Ok? ==> rd.session.dataIdx == s.dataIdx + rd.session.len
    ensures var rd := ReadLine(limit, s, src);
            rd.status.Ok? && rd.session.len == BYTES_PER_LINE ==> rd.source.Fuel() < src.Fuel()
  {
  }

  /** The loop ends as soon as the buffers differ or the line is short. */
  lemma CollapseDone(limit: nat, s: Session, src: Source)
    requires s.Valid() && src.Valid() && !(s.SameLines() && s.len == BYTES_PER_LINE)
    ensures Collapse(limit, s, src) == Step(Ok(Unit), s, src)
  {
  }

  /** The index reached by a collapse that began at `start` is 16 + len + a multiple of 32 past it. */
  ghost predicate FigureFrom(start: nat, c: Step)
  {
    c.status.Ok? ==>
      && c.session.dataIdx >= start + BYTES_PER_LINE + c.session.len
      && (c.session.dataIdx - start - BYTES_PER_LINE - c.session.len) % 32 == 0
  }

  lemma FigureOf(start: nat, c: Step, c': Step)
    requires c == c' && FigureFrom(start, c')
    ensures FigureFrom(start, c)
  {
  }

  lemma FigureOfError(start: nat, c: Step)
    requires c.status.Err?
    ensures FigureFrom(start, c)
  {
  }

  /** A collapse that stops after one read has moved 16 + len past its start. */
  lemma FigureBase(start: nat, c: Step)
    requires c.status.Ok? ==> c.session.dataIdx == start + BYTES_PER_LINE + c.session.len
    ensures FigureFrom(start, c)
  {
  }

  /** A full line read inside the run adds 32 to the figure. */
  lemma FigureChain(start: nat, mid: nat, c: Step)
    requires mid == start + 32 && FigureFrom(mid, c)
    ensures FigureFrom(start, c)
  {
    if c.status.Ok? {
      var d := c.session.dataIdx - mid - BYTES_PER_LINE - c.session.len;
      assert c.session.dataIdx - start - BYTES_PER_LINE - c.session.len == d + 32;
      ModShift(d);
    }
  }

  lemma ModShift(d: int)
    requires d % 32 == 0
    ensures (d + 32) % 32 == 0
  {
  }

  // ---------------------------------------------------------------------------------------
  // Fidelity: the dump shows the input

  /** A source that answers every read with all the bytes that fit. */
  predicate Plain(src: Source)
  {
    src.Valid() && src.replies == []
  }

  lemma ShownCons(x: Record, rest: seq<Record>)
    ensures Shown([x] + rest) == (if x.Line? then x.bytes else []) + Shown(rest)
  {
    assert ([x] + rest)[1..] == rest;
  }

  /**
   * With no limit and a source that never reads short, the plain loop shows exactly the rest
   * of the input, in order, and does not fail.
   */
  lemma {:induction false} PlainShowsInput(s: Session, src: Source)
    requires s.Valid() && Plain(src) && s.altBuf == 0 && !s.stop
    requires s.len <= src.pos && s.buf0[..s.len] == src.data[src.pos - s.len..src.pos]
    requires s.len < BYTES_PER_LINE ==> src.pos == |src.data|
    ensures var r := PlainLines(0, s, src);
            r.status.Ok? && Shown(r.records) == src.data[src.pos - s.len..]
    decreases src.Fuel(), s.len
  {
    if s.len > 0 {
      var rd := ReadLine(0, s, src);
      ReadLineEffect(0, s, src);
      PlainShowsInput(rd.session, rd.source);
      ShownCons(Line(s.dataIdx, s.buf0[..s.len]), PlainLines(0, rd.session, rd.source).records);
      assert src.data[src.pos - s.len..] == src.data[src.pos - s.len..src.pos] + src.data[src.pos..];
    }
  }

  /**
   * With no limit, no collapsing and a source that never reads short, the data lines of the
   * whole dump show every remaining input byte exactly once, and the dump does not fail.
   */
  lemma DumpShowsInput(st: Settings, src: Source)
    requires Plain(src) && st.showIdentical && st.limit == 0
    ensures var r := DumpFrom(st, NewSession(), src);
            r.status.Ok? && Shown(r.records) == src.data[src.pos..]
  {
    var s0 := if st.skip > 0 then Skipped(NewSession(), st.skip) else NewSession();
    var rd := ReadLine(st.limit, s0, src);
    ReadLineEffect(st.limit, s0, src);
    LinesArePlain(st, rd.session, rd.source);
    PlainShowsInput(rd.session, rd.source);
  }

  // ---------------------------------------------------------------------------------------
  // The limit

  function ShownCount(recs: seq<Record>): nat
  {
    |Shown(recs)|
  }

  /** Once the stop flag is set, the loop shows the current line and nothing more. */
  lemma PlainStops(limit: nat, s: Session, src: Source)
    requires s.Valid() && src.Valid() && s.altBuf == 0 && s.stop
    ensures var r := PlainLines(limit, s, src);
            r.status.Ok? && ShownCount(r.records) == s.len
  {
    if s.len > 0 {
      var line := Line(s.dataIdx, s.buf0[..s.len]);
      ShownCons(line, []);
      assert [line] + [] == [line];
    }
  }

  /**
   * With a limit L and enough input, the lines after the current one show exactly the bytes
   * still allowed: L minus the bytes counted so far.
   */
  lemma {:induction false} PlainRespectsLimit(limit: nat, s: Session, src: Source)
    requires s.Valid() && Plain(src) && s.altBuf == 0 && limit > 0 && !s.stop
    requires s.rdCounter % BYTES_PER_LINE == 0 && s.rdCounter <= limit
    requires |src.data| - src.pos >= limit - s.rdCounter
    requires s.len > 0 || s.rdCounter == limit
    ensures var r := PlainLines(limit, s, src);
            r.status.Ok? && ShownCount(r.records) == s.len + (limit - s.rdCounter)
    decreases src.Fuel(), s.len
  {
    if s.len > 0 {
      var rd := ReadLine(limit, s, src);
      var rest := PlainLines(limit, rd.session, rd.source);
      ShownCons(Line(s.dataIdx, s.buf0[..s.len]), rest.records);
      if s.rdCounter + (BYTES_PER_LINE - 1) >= limit {
        // clamped: the last line is the remainder of the limit, then the loop stops
        ClampedRead(limit, s, src);
        PlainStops(limit, rd.session, rd.source);
      } else {
        FullRead(limit, s, src);
        PlainRespectsLimit(limit, rd.session, rd.source);
      }
    }
  }

  /** The read that reaches the limit brings the rest of it and sets the stop flag. */
  lemma ClampedRead(limit: nat, s: Session, src: Source)
    requires s.Valid() && src.Valid() && limit > 0
    requires s.rdCounter % BYTES_PER_LINE == 0 && s.rdCounter <= limit <= s.rdCounter + (BYTES_PER_LINE - 1)
    ensures var rd := ReadLine(limit, s, src);
            rd.status.Ok? ==> rd.session.stop && rd.session.len == limit - s.rdCounter
  {
    ReadLineEffect(limit, s, src);
    LimitRemainder(s.rdCounter, limit);
  }

  /** Below the limit, a plain source with enough input fills the whole line. */
  lemma FullRead(limit: nat, s: Session, src: Source)
    requires s.Valid() && Plain(src) && !s.stop
    requires s.rdCounter + (BYTES_PER_LINE - 1) < limit && |src.data| - src.pos >= limit - s.rdCounter
    ensures var rd := ReadLine(limit, s, src);
            && rd.status.Ok? && Plain(rd.source) && rd.source.Fuel() < src.Fuel()
            && rd.session.len == BYTES_PER_LINE && !rd.session.stop
            && rd.session.rdCounter == s.rdCounter + BYTES_PER_LINE
            && |rd.source.data| - rd.source.pos >= limit - rd.session.rdCounter
  {
    ReadLineEffect(limit, s, src);
  }

  lemma LimitRemainder(counter: nat, limit: nat)
    requires counter % BYTES_PER_LINE == 0 && counter <= limit <= counter + (BYTES_PER_LINE - 1)
    ensures limit % BYTES_PER_LINE == limit - counter
  {
  }

  /** A dump with limit L of at least L bytes of plain input, no collapsing, shows exactly L bytes. */
  lemma DumpRespectsLimit(st: Settings, src: Source)
    requires Plain(src) && st.showIdentical && st.limit > 0 && |src.data| - src.pos >= st.limit
    ensures var r := DumpFrom(st, NewSession(), src);
            r.status.Ok? && ShownCount(r.records) == st.limit
  {
    var s0 := if st.skip > 0 then Skipped(NewSession(), st.skip) else NewSession();
    var rd := ReadLine(st.limit, s0, src);
    ReadLineEffect(st.limit, s0, src);
    LinesArePlain(st, rd.session, rd.source);
    if BYTES_PER_LINE - 1 >= st.limit {
      // the first read is already clamped to the limit
      PlainStops(st.limit, rd.session, rd.source);
    } else {
      PlainRespectsLimit(st.limit, rd.session, rd.source);
    }
  }

  /**
   * When the input ends before the limit inside the last line, the clamp still prints
   * `limit % 16` bytes: 18 input bytes with limit 20 show 20 bytes, the last two left over in
   * the buffer from the line before.
   */
  lemma StaleTailExample()
    ensures var data := seq(18, i requires 0 <= i < 18 => i as byte);
            var r := DumpFrom(Settings(false, 0, true, 20), NewSession(), Source(data, 0, []));
            r.status.Ok? && Shown(r.records) == data + data[2..4]
  {
    var data := seq(18, i requires 0 <= i < 18 => i as byte);
    var st := Settings(false, 0, true, 20);
    var src := Source(data, 0, []);
    var rd := ReadLine(20, NewSession(), src);
    ReadLineEffect(20, NewSession(), src);
    var s1 := rd.session;
    assert rd.status.Ok? && s1.len == 16 && !s1.stop && s1.rdCounter == 16 && rd.source.pos == 16;
    assert s1.buf0 == data[..16];
    var rd2 := ReadLine(20, s1, rd.source);
    ReadLineEffect(20, s1, rd.source);
    var s2 := rd2.session;
    assert rd2.status.Ok? && s2.len == 4 && s2.stop;
    assert s2.buf0 == data[16..18] + data[2..16];
    LinesArePlain(st, s1, rd.source);
    var l1 := Line(s1.dataIdx, s1.buf0[..16]);
    var l2 := Line(s2.dataIdx, s2.buf0[..4]);
    assert PlainLines(20, s2, rd2.source) == Run(Ok(Unit), [l2], s2, rd2.source);
    ShownCons(l1, [l2]);
    ShownCons(l2, []);
    assert [l2] + [] == [l2];
    assert l2.bytes == data[16..18] + data[2..4];
  }

  /**
   * With identical lines hidden, 48 zero bytes and then 0x41 print one line of zeros, a
   * marker, and a one-byte line of zero at offset 81: the byte that ended the run is never
   * shown, buffer 0's repeated line stands in its place.
   */
  lemma HiddenTailExample()
    ensures var data := seq(48, _ => 0 as byte) + [0x41];
            var r := DumpFrom(Settings(false, 0, false, 0), NewSession(), Source(data, 0, []));
            && r.status.Ok?
            && r.records == [Line(16, ZeroLine()), Repeats(49), Line(81, [0])]
            && Shown(r.records) == seq(17, _ => 0 as byte)
  {
    var z := ZeroLine();
    var data := seq(48, _ => 0 as byte) + [0x41];
    assert data == z + z + z + [0x41];
    var st := Settings(false, 0, false, 0);
    var src := Source(data, 0, []);
    // the first line: sixteen zeros, printed at 16
    var s1 := Session(false, 16, 16, 16, z, z, 0);
    ZeroRead(NewSession(), src);
    assert ReadLine(0, NewSession(), src) == Step(Ok(Unit), s1, src.(pos := 16));
    // the run, and after it the last line: one byte of buffer 0, then an empty read ends the dump
    var s3 := Session(false, 1, 81, 49, z, [0x41] + z[1..], 0);
    HiddenRun(data, s1);
    var s4 := s3.(len := 0);
    EmptyRead(s3, src.(pos := 49));
    assert ReadLine(0, s3, src.(pos := 49)) == Step(Ok(Unit), s4, src.(pos := 49));
    assert s4.Toggled().Toggled() == s4;
    assert s3.buf0[..1] == [0];
    var last := Line(81, [0]);
    assert Advance(st, s3, src.(pos := 49)) == Turn(Ok(Unit), [last], s4, src.(pos := 49), true);
    assert Lines(st, s4, src.(pos := 49)) == Run(Ok(Unit), [], s4, src.(pos := 49));
    assert Lines(st, s3, src.(pos := 49)).records == [last] + [];
    var rest := Lines(st, s3, src.(pos := 49));
    assert Lines(st, s1, src.(pos := 16)) == Prepended([Line(16, z), Repeats(49)], rest);
    var r := DumpFrom(st, NewSession(), src);
    assert r == Lines(st, s1, src.(pos := 16));
    assert r.records == [Line(16, z), Repeats(49)] + [last];
    ShownCons(Line(16, z), [Repeats(49)] + [last]);
    ShownCons(Repeats(49), [last]);
    ShownCons(last, []);
    assert z + [0] == seq(17, _ => 0 as byte);
  }

  /** The turn of the example that collapses the second and third zero lines and 0x41. */
  lemma HiddenRun(data: seq<byte>, s1: Session)
    requires data == ZeroLine() + ZeroLine() + ZeroLine() + [0x41]
    requires s1 == Session(false, 16, 16, 16, ZeroLine(), ZeroLine(), 0)
    ensures Advance(Settings(false, 0, false, 0), s1, Source(data, 16, [])) ==
            Turn(Ok(Unit), [Line(16, ZeroLine()), Repeats(49)],
                 Session(false, 1, 81, 49, ZeroLine(), [0x41] + ZeroLine()[1..], 0), Source(data, 49, []), true)
  {
    var z := ZeroLine();
    var st := Settings(false, 0, false, 0);
    // the second line equals buffer 1, still zero from the start
    var s2 := Session(false, 16, 32, 32, z, z, 0);
    assert data[16..32] == z;
    ZeroRead(s1, Source(data, 16, []));
    assert ReadLine(0, s1, Source(data, 16, [])) == Step(Ok(Unit), s2, Source(data, 32, []));
    var f := s2.Toggled();
    SameLinesIsEqual(f);
    // inside the run: a third zero line into buffer 1, then 0x41 alone
    assert data[32..48] == z;
    ZeroRead(f, Source(data, 32, []));
    var g := Session(false, 16, 64, 48, z, z, 1);
    assert RepeatRead(0, f, Source(data, 32, [])) == Step(Ok(Unit), g, Source(data, 48, []));
    SameLinesIsEqual(g);
    var h := Session(false, 1, 81, 49, z, [0x41] + z[1..], 1);
    LastRead(g, Source(data, 48, []));
    assert RepeatRead(0, g, Source(data, 48, [])) == Step(Ok(Unit), h, Source(data, 49, []));
    var done := Step(Ok(Unit), h, Source(data, 49, []));
    assert Collapse(0, h, Source(data, 49, [])) == done;
    assert CollapseOn(0, done) == done;
    assert Collapse(0, g, Source(data, 48, [])) == done;
    assert CollapseOn(0, Step(Ok(Unit), g, Source(data, 48, []))) == done;
    assert Collapse(0, f, Source(data, 32, [])) == done;
    assert Flipped(st, f, Source(data, 32, [])) == Turn(Ok(Unit), [Repeats(49)], h.Toggled(), Source(data, 49, []), true);
  }

  /** A read of a whole line of zeros with no limit. */
  lemma ZeroRead(s: Session, src: Source)
    requires s.Valid() && src.Valid() && src.replies == [] && src.pos + BYTES_PER_LINE <= |src.data|
    requires src.data[src.pos..src.pos + BYTES_PER_LINE] == ZeroLine()
    ensures var s' := if s.altBuf == 0 then s.(buf0 := ZeroLine()) else s.(buf1 := ZeroLine());
            ReadLine(0, s, src) ==
              Step(Ok(Unit), s'.(len := BYTES_PER_LINE, dataIdx := s.dataIdx + BYTES_PER_LINE,
                                 rdCounter := s.rdCounter + BYTES_PER_LINE),
                   src.(pos := src.pos + BYTES_PER_LINE))
  {
    assert s.Current()[BYTES_PER_LINE..] == [];
    assert src.data[src.pos..src.pos + BYTES_PER_LINE] + [] == ZeroLine();
  }

  /** A read of the last byte into buffer 1 with no limit. */
  lemma LastRead(s: Session, src: Source)
    requires s.Valid() && src.Valid() && src.replies == [] && src.pos + 1 == |src.data| && s.altBuf == 1
    ensures ReadLine(0, s, src) ==
              Step(Ok(Unit), s.(buf1 := [src.data[src.pos]] + s.buf1[1..], len := 1, dataIdx := s.dataIdx + 1,
                                rdCounter := s.rdCounter + 1),
                   src.(pos := src.pos + 1))
  {
    assert src.data[src.pos..src.pos + 1] == [src.data[src.pos]];
  }

  /** A read at the end of the input brings nothing and leaves the buffers alone. */
  lemma EmptyRead(s: Session, src: Source)
    requires s.Valid() && src.Valid() && src.replies == [] && src.pos == |src.data|
    ensures ReadLine(0, s, src) == Step(Ok(Unit), s.(len := 0), src)
  {
    assert src.data[src.pos..src.pos] + s.Current()[0..] == s.Current();
  }
}
