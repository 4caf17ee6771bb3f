/**
 * The decoder's run expansion of one block, as a state machine over the 64 zig-zag
 * positions. At each position it looks at the AC term under its cursor: a run length
 * above zero is counted down in place (and a flag remembers that zeros were counted),
 * a run length of zero either writes the amplitude or, after a counted run, only moves
 * the cursor on. The marker is never passed.
 *
 * The decoder as written never writes the amplitude of a term that follows zeros. The
 * mode Intended is the evidently intended decoder, which writes it.
 */
module RunExpansion {
  import opened Wrappers
  import opened EntropyTerms
  import opened RunLength

  /** AsWritten follows the decoder's code; Intended writes the amplitude at the end of a counted run. */
  datatype Reading = AsWritten | Intended

  /**
   * The decoder between two positions: the coefficients written so far by zig-zag
   * position, the current terms of the AC objects, the cursor and the flag.
   */
  datatype Walk = Walk(out: seq<int>, terms: seq<Term>, cursor: nat, zero: bool)

  /** The state before position 0: an all-zero block, the cursor on the first term. */
  function Start(terms: seq<Term>): Walk {
    Walk(Zeros(64), terms, 0, false)
  }

  /**
   * What the decoder does at position k. Position 0 takes the DC amplitude; at any other
   * position a cursor past the end of the list is the IndexOutOfBoundsException of the
   * list lookup, and yields None.
   */
  function Step(w: Walk, k: int, dc: int, reading: Reading): (r: Option<Walk>)
    requires |w.out| == 64 && 0 <= k < 64
    ensures r.None? <==> k != 0 && w.cursor >= |w.terms|
    ensures r.Some? ==> |r.value.out| == 64 && |r.value.terms| == |w.terms|
  {
    if k == 0 then Some(w.(out := w.out[0 := dc]))
    else if w.cursor >= |w.terms| then None
    else
      var t := w.terms[w.cursor];
      if IsMarker(t) then Some(w)
      else if t.runLength > 0 then
        Some(w.(terms := w.terms[w.cursor := t.(runLength := t.runLength - 1)], zero := true))
      else if t.runLength == 0 && w.zero then
        var next := w.(cursor := w.cursor + 1, zero := false);
        if reading == AsWritten then Some(next) else Some(next.(out := w.out[k := t.amplitude]))
      else
        Some(w.(out := w.out[k := t.amplitude], cursor := w.cursor + 1))
  }

  /** Positions k..n-1, stopping at the first exception. */
  function Steps(w: Walk, k: int, n: int, dc: int, reading: Reading): (r: Option<Walk>)
    requires |w.out| == 64 && 0 <= k <= n <= 64
    ensures r.Some? ==> |r.value.out| == 64 && |r.value.terms| == |w.terms|
    decreases n - k
  {
    if k == n then Some(w)
    else
      match Step(w, k, dc, reading)
      case None => None
      case Some(next) => Steps(next, k + 1, n, dc, reading)
  }

  /** The whole block: None when the decoder throws, else its final state. */
  function Decode(dc: int, terms: seq<Term>, reading: Reading): Option<Walk> {
    Steps(Start(terms), 0, 64, dc, reading)
  }

  /** The coefficients one well-formed term produces under a reading. */
  function ReadTerm(t: Term, reading: Reading): seq<int> {
    if IsMarker(t) then Zeros(Run(t))
    else Zeros(Run(t)) + [if Run(t) == 0 || reading == Intended then t.amplitude else 0]
  }

  function Read(terms: seq<Term>, reading: Reading): seq<int> {
    if terms == [] then [] else ReadTerm(terms[0], reading) + Read(terms[1..], reading)
  }

  /** The terms after the decoder has passed them: value terms counted down to a run of 0. */
  function Spent(terms: seq<Term>): (r: seq<Term>)
    ensures |r| == |terms|
    ensures forall i :: 0 <= i < |terms| ==>
      if IsMarker(terms[i]) then r[i] == terms[i]
      else r[i] == Term(0, terms[i].size, terms[i].amplitude)
  {
    seq(|terms|, i requires 0 <= i < |terms| =>
      if IsMarker(terms[i]) then terms[i] else terms[i].(runLength := 0))
  }

  /** As the decoder writes it, a nonzero coefficient that follows a zero (past position 1) is lost. */
  function AsDecoded(s: seq<int>): (r: seq<int>)
    requires |s| == 64
    ensures |r| == 64
  {
    seq(64, j requires 0 <= j < 64 => if j >= 2 && s[j - 1] == 0 then 0 else s[j])
  }

  /** Under the intended reading the decoder reads a list as the reference expansion does. */
  lemma {:induction false} ReadIntended(terms: seq<Term>)
    ensures Read(terms, Intended) == Expand(terms)
    decreases |terms|
  {
    if terms != [] {
      ReadIntended(terms[1..]);
    }
  }

  /** Running positions k..n is running k..m, then m..n from where the first part stopped. */
  lemma {:induction false} StepsSplit(w: Walk, k: int, m: int, n: int, dc: int, reading: Reading)
    requires |w.out| == 64 && 0 <= k <= m <= n <= 64
    ensures Steps(w, k, n, dc, reading) ==
      match Steps(w, k, m, dc, reading)
      case None => None
      case Some(mid) => Steps(mid, m, n, dc, reading)
    decreases m - k
  {
    if k < m {
      match Step(w, k, dc, reading)
      case None =>
      case Some(next) => StepsSplit(next, k + 1, m, n, dc, reading);
    }
  }

  /** The step at position k from a state, None staying None once the decoder has thrown. */
  function Next(o: Option<Walk>, k: int, dc: int, reading: Reading): Option<Walk>
    requires 0 <= k < 64
  {
    match o
    case None => None
    case Some(w) => if |w.out| == 64 then Step(w, k, dc, reading) else None
  }

  /** trace[k] is the decoder's state before position k: each entry is the step from the one before. */
  predicate IsTrace(trace: seq<Option<Walk>>, dc: int, reading: Reading) {
    |trace| == 65 &&
    forall k {:trigger Next(trace[k], k, dc, reading)} :: 0 <= k < 64 ==> trace[k + 1] == Next(trace[k], k, dc, reading)
  }

  /** The states of the run from w0 before each position 0 .. 64. */
  function Trace(w0: Walk, dc: int, reading: Reading): (t: seq<Option<Walk>>)
    requires |w0.out| == 64
    ensures |t| == 65
  {
    seq(65, k requires 0 <= k <= 64 => Steps(w0, 0, k, dc, reading))
  }

  /** The run from w0 is a trace: it starts at w0 and ends where Steps ends. */
  lemma TraceOf(w0: Walk, dc: int, reading: Reading)
    requires |w0.out| == 64
    ensures IsTrace(Trace(w0, dc, reading), dc, reading)
    ensures Trace(w0, dc, reading)[0] == Some(w0)
    ensures Trace(w0, dc, reading)[64] == Steps(w0, 0, 64, dc, reading)
  {
    var t := Trace(w0, dc, reading);
    forall k | 0 <= k < 64
      ensures t[k + 1] == Next(t[k], k, dc, reading)
    {
      StepsSplit(w0, 0, k, k + 1, dc, reading);
    }
  }

  /** Once the decoder has thrown, it has thrown for the whole block. */
  lemma {:induction false} TraceNone(trace: seq<Option<Walk>>, k: int, dc: int, reading: Reading)
    requires IsTrace(trace, dc, reading) && 0 <= k <= 64 && trace[k] == None
    ensures trace[64] == None
    decreases 64 - k
  {
    if k < 64 {
      assert trace[k + 1] == Next(trace[k], k, dc, reading);
      TraceNone(trace, k + 1, dc, reading);
    }
  }

  /** The entry after state w at position k is the step at k; if that throws, so does the block. */
  lemma TraceStep(trace: seq<Option<Walk>>, k: int, w: Walk, dc: int, reading: Reading)
    requires IsTrace(trace, dc, reading) && 0 <= k < 64 && trace[k] == Some(w) && |w.out| == 64
    ensures trace[k + 1] == Step(w, k, dc, reading)
    ensures Step(w, k, dc, reading).None? ==> trace[64] == None
  {
    assert trace[k + 1] == Next(trace[k], k, dc, reading);
    if Step(w, k, dc, reading).None? {
      TraceNone(trace, k + 1, dc, reading);
    }
  }

  /** A marker under the cursor is never passed: the state stays as it is to the end. */
  lemma {:induction false} MarkerHolds(w: Walk, k: int, n: int, dc: int, reading: Reading)
    requires |w.out| == 64 && 1 <= k <= n <= 64
    requires w.cursor < |w.terms| && IsMarker(w.terms[w.cursor])
    ensures Steps(w, k, n, dc, reading) == Some(w)
    decreases n - k
  {
    if k < n {
      MarkerHolds(w, k + 1, n, dc, reading);
    }
  }

  /** A value term with run length m > 0 is counted down to 0 over m positions, raising the flag. */
  lemma {:induction false} CountDown(w: Walk, k: int, m: int, dc: int, reading: Reading)
    requires |w.out| == 64 && 1 <= k && 0 < m && k + m <= 64
    requires w.cursor < |w.terms| && !IsMarker(w.terms[w.cursor])
    requires w.terms[w.cursor].runLength == m
    ensures Steps(w, k, k + m, dc, reading) ==
      Some(w.(terms := w.terms[w.cursor := w.terms[w.cursor].(runLength := 0)], zero := true))
    decreases m
  {
    var t := w.terms[w.cursor];
    var next := w.(terms := w.terms[w.cursor := t.(runLength := m - 1)], zero := true);
    assert Step(w, k, dc, reading) == Some(next);
    if m > 1 {
      CountDown(next, k + 1, m - 1, dc, reading);
      assert next.terms[w.cursor := t.(runLength := 0)] == w.terms[w.cursor := t.(runLength := 0)];
    }
  }

  /** The state after a value term with run length r >= 0 has been passed (see ValueTermSteps). */
  function Passed(w: Walk, k: int, reading: Reading): Walk
    requires |w.out| == 64 && 1 <= k && w.cursor < |w.terms|
    requires w.terms[w.cursor].runLength >= 0 && k + w.terms[w.cursor].runLength < 64
  {
    var t := w.terms[w.cursor];
    var r := t.runLength;
    Walk(if r == 0 || reading == Intended then w.out[k + r := t.amplitude] else w.out,
         w.terms[w.cursor := t.(runLength := 0)], w.cursor + 1, false)
  }

  /**
   * A value term with run length r >= 0, met with the flag down, takes r + 1 positions and
   * moves the cursor on by one, leaving run length 0. It writes its amplitude at the last of
   * those positions only when r == 0, or under the intended reading; as written, a term
   * after zeros writes nothing.
   */
  lemma ValueTermSteps(w: Walk, k: int, dc: int, reading: Reading)
    requires |w.out| == 64 && 1 <= k && !w.zero
    requires w.cursor < |w.terms| && !IsMarker(w.terms[w.cursor])
    requires w.terms[w.cursor].runLength >= 0 && k + w.terms[w.cursor].runLength < 64
    ensures Steps(w, k, k + w.terms[w.cursor].runLength + 1, dc, reading) == Some(Passed(w, k, reading))
  {
    var t := w.terms[w.cursor];
    var r := t.runLength;
    if r == 0 {
      assert w.terms[w.cursor := t.(runLength := 0)] == w.terms;
    } else {
      CountDown(w, k, r, dc, reading);
      StepsSplit(w, k, k + r, k + r + 1, dc, reading);
    }
  }

  /** Passing a value term over zeros fills its positions with the term's reading and nothing else. */
  lemma PassedOut(w: Walk, k: int, reading: Reading)
    requires |w.out| == 64 && 1 <= k && w.cursor < |w.terms| && !IsMarker(w.terms[w.cursor])
    requires w.terms[w.cursor].runLength >= 0 && k + w.terms[w.cursor].runLength < 64
    requires forall j :: k <= j < 64 ==> w.out[j] == 0
    ensures var r := w.terms[w.cursor].runLength;
      Passed(w, k, reading).out[..k + r + 1] == w.out[..k] + ReadTerm(w.terms[w.cursor], reading) &&
      forall j :: k + r + 1 <= j < 64 ==> Passed(w, k, reading).out[j] == 0
  {
    var t := w.terms[w.cursor];
    var r := t.runLength;
    var out := Passed(w, k, reading).out;
    assert w.out[k..k + r] == Zeros(r);
    assert out[..k + r + 1] == w.out[..k] + w.out[k..k + r] + [out[k + r]];
  }

  /** Passing a value term replaces it by its spent form and leaves the other terms alone. */
  lemma PassedTerms(w: Walk, k: int, reading: Reading)
    requires |w.out| == 64 && 1 <= k && w.cursor < |w.terms| && !IsMarker(w.terms[w.cursor])
    requires w.terms[w.cursor].runLength >= 0 && k + w.terms[w.cursor].runLength < 64
    ensures var next := Passed(w, k, reading);
      next.terms[next.cursor..] == w.terms[w.cursor..][1..] &&
      next.terms[..next.cursor] == w.terms[..w.cursor] + [Spent(w.terms[w.cursor..])[0]]
  {
  }

  lemma SpentCons(terms: seq<Term>)
    requires terms != []
    ensures Spent(terms) == [Spent(terms)[0]] + Spent(terms[1..])
  {
  }

  lemma WellFormedTail(terms: seq<Term>)
    requires terms != [] && WellFormed(terms)
    ensures WellFormed(terms[1..])
  {
    assert forall i :: 0 <= i < |terms| - 1 ==> terms[1..][i] == terms[i + 1];
  }

  /** The marker case of DecodeFrom: the marker covers the positions left, which stay zero. */
  lemma DecodeFromMarker(w: Walk, k: int, dc: int, reading: Reading)
    requires |w.out| == 64 && 1 <= k <= 64 && w.cursor < |w.terms|
    requires IsMarker(w.terms[w.cursor]) && WellFormed(w.terms[w.cursor..])
    requires |Expand(w.terms[w.cursor..])| == 64 - k
    requires forall j :: k <= j < 64 ==> w.out[j] == 0
    ensures Steps(w, k, 64, dc, reading) == Some(w)
    ensures w.out == w.out[..k] + Read(w.terms[w.cursor..], reading)
    ensures w.terms == w.terms[..w.cursor] + Spent(w.terms[w.cursor..])
  {
    var t := w.terms[w.cursor];
    var rest := w.terms[w.cursor..];
    assert rest[0] == t;
    assert w.cursor == |w.terms| - 1;
    assert rest == [t];
    MarkerHolds(w, k, 64, dc, reading);
    assert Read(rest, reading) == Zeros(64 - k) by {
      assert Read(rest, reading) == ReadTerm(t, reading) + Read([], reading);
    }
    assert w.out == w.out[..k] + Zeros(64 - k);
    assert w.terms == w.terms[..w.cursor] + [t];
  }

  /**
   * From position k >= 1 with the flag down, a well-formed rest of the list that spans the
   * 64 - k positions left is read without an exception: the rest of the block is its
   * reading, and every term from the cursor on ends spent.
   */
  lemma {:induction false} DecodeFrom(w: Walk, k: int, dc: int, reading: Reading)
    requires |w.out| == 64 && 1 <= k <= 64 && w.cursor <= |w.terms| && !w.zero
    requires WellFormed(w.terms[w.cursor..]) && |Expand(w.terms[w.cursor..])| == 64 - k
    requires forall j :: k <= j < 64 ==> w.out[j] == 0
    ensures Steps(w, k, 64, dc, reading).Some?
    ensures Steps(w, k, 64, dc, reading).value.out == w.out[..k] + Read(w.terms[w.cursor..], reading)
    ensures Steps(w, k, 64, dc, reading).value.terms == w.terms[..w.cursor] + Spent(w.terms[w.cursor..])
    decreases |w.terms| - w.cursor
  {
    var rest := w.terms[w.cursor..];
    if w.cursor == |w.terms| {
      assert rest == [];
      assert w.terms[..w.cursor] == w.terms;
    } else if IsMarker(w.terms[w.cursor]) {
      DecodeFromMarker(w, k, dc, reading);
    } else {
      PassedReady(w, k, reading);
      DecodeFrom(Passed(w, k, reading), k + w.terms[w.cursor].runLength + 1, dc, reading);
      DecodeFromValueOut(w, k, dc, reading);
      DecodeFromValueTerms(w, k, dc, reading);
    }
  }

  /** After a value term the decoder is again in a state DecodeFrom accepts, r + 1 positions on. */
  lemma PassedReady(w: Walk, k: int, reading: Reading)
    requires |w.out| == 64 && 1 <= k <= 64 && w.cursor < |w.terms| && !w.zero
    requires WellFormed(w.terms[w.cursor..]) && |Expand(w.terms[w.cursor..])| == 64 - k
    requires forall j :: k <= j < 64 ==> w.out[j] == 0
    requires !IsMarker(w.terms[w.cursor])
    ensures w.terms[w.cursor].runLength >= 0 && k + w.terms[w.cursor].runLength < 64
    ensures var next, m := Passed(w, k, reading), k + w.terms[w.cursor].runLength + 1;
      |next.out| == 64 && 1 <= m <= 64 && next.cursor <= |next.terms| && !next.zero &&
      WellFormed(next.terms[next.cursor..]) && |Expand(next.terms[next.cursor..])| == 64 - m &&
      forall j :: m <= j < 64 ==> next.out[j] == 0
  {
    var rest := w.terms[w.cursor..];
    var t := w.terms[w.cursor];
    assert rest[0] == t;
    assert Expand(rest) == ExpandTerm(t) + Expand(rest[1..]);
    PassedOut(w, k, reading);
    PassedTerms(w, k, reading);
    WellFormedTail(rest);
  }

  /** The value-term case of DecodeFrom for the coefficients, given the result for the rest of the list. */
  lemma DecodeFromValueOut(w: Walk, k: int, dc: int, reading: Reading)
    requires |w.out| == 64 && 1 <= k <= 64 && w.cursor < |w.terms| && !w.zero
    requires !IsMarker(w.terms[w.cursor]) && w.terms[w.cursor].runLength >= 0
    requires k + w.terms[w.cursor].runLength < 64
    requires forall j :: k <= j < 64 ==> w.out[j] == 0
    requires var next := Passed(w, k, reading);
      var m := k + w.terms[w.cursor].runLength + 1;
      Steps(next, m, 64, dc, reading).Some? &&
      Steps(next, m, 64, dc, reading).value.out == next.out[..m] + Read(next.terms[next.cursor..], reading)
    ensures Steps(w, k, 64, dc, reading).Some?
    ensures Steps(w, k, 64, dc, reading).value.out == w.out[..k] + Read(w.terms[w.cursor..], reading)
  {
    ValueTermSteps(w, k, dc, reading);
    StepsSplit(w, k, k + w.terms[w.cursor].runLength + 1, 64, dc, reading);
    PassedRead(w, k, reading);
  }

  /** What is written up to the end of a value term, then read from the next term on, is the reading from that term on. */
  lemma PassedRead(w: Walk, k: int, reading: Reading)
    requires |w.out| == 64 && 1 <= k && w.cursor < |w.terms| && !IsMarker(w.terms[w.cursor])
    requires w.terms[w.cursor].runLength >= 0 && k + w.terms[w.cursor].runLength < 64
    requires forall j :: k <= j < 64 ==> w.out[j] == 0
    ensures var next := Passed(w, k, reading);
      next.out[..k + w.terms[w.cursor].runLength + 1] + Read(next.terms[next.cursor..], reading)
        == w.out[..k] + Read(w.terms[w.cursor..], reading)
  {
    var rest := w.terms[w.cursor..];
    var t := w.terms[w.cursor];
    var r := t.runLength;
    var next := Passed(w, k, reading);
    assert rest[0] == t;
    PassedOut(w, k, reading);
    PassedTerms(w, k, reading);
    calc {
      next.out[..k + r + 1] + Read(rest[1..], reading);
      (w.out[..k] + ReadTerm(t, reading)) + Read(rest[1..], reading);
      w.out[..k] + (ReadTerm(t, reading) + Read(rest[1..], reading));
      w.out[..k] + Read(rest, reading);
    }
  }

  /** The value-term case of DecodeFrom for the terms, given the result for the rest of the list. */
  lemma DecodeFromValueTerms(w: Walk, k: int, dc: int, reading: Reading)
    requires |w.out| == 64 && 1 <= k <= 64 && w.cursor < |w.terms| && !w.zero
    requires !IsMarker(w.terms[w.cursor]) && w.terms[w.cursor].runLength >= 0
    requires k + w.terms[w.cursor].runLength < 64
    requires var next := Passed(w, k, reading);
      var m := k + w.terms[w.cursor].runLength + 1;
      Steps(next, m, 64, dc, reading).Some? &&
      Steps(next, m, 64, dc, reading).value.terms == next.terms[..next.cursor] + Spent(next.terms[next.cursor..])
    ensures Steps(w, k, 64, dc, reading).Some?
    ensures Steps(w, k, 64, dc, reading).value.terms == w.terms[..w.cursor] + Spent(w.terms[w.cursor..])
  {
    var rest := w.terms[w.cursor..];
    var t := w.terms[w.cursor];
    var r := t.runLength;
    var next := Passed(w, k, reading);
    ValueTermSteps(w, k, dc, reading);
    StepsSplit(w, k, k + r + 1, 64, dc, reading);
    PassedTerms(w, k, reading);
    assert Steps(w, k, 64, dc, reading) == Steps(next, k + r + 1, 64, dc, reading);
    var last := Steps(next, k + r + 1, 64, dc, reading).value;
    calc {
      last.terms;
      next.terms[..next.cursor] + Spent(next.terms[next.cursor..]);
      { assert next.terms[next.cursor..] == rest[1..]; }
      next.terms[..next.cursor] + Spent(rest[1..]);
      (w.terms[..w.cursor] + [Spent(rest)[0]]) + Spent(rest[1..]);
      { ConcatAssoc(w.terms[..w.cursor], [Spent(rest)[0]], Spent(rest[1..])); }
      w.terms[..w.cursor] + ([Spent(rest)[0]] + Spent(rest[1..]));
      { SpentCons(rest); }
      w.terms[..w.cursor] + Spent(rest);
    }
  }

  /**
   * A well-formed list spanning the 63 AC positions decodes without an exception: the block
   * is the DC amplitude followed by the list's reading, and every term ends spent.
   */
  lemma DecodeWellFormed(dc: int, terms: seq<Term>, reading: Reading)
    requires WellFormed(terms) && |Expand(terms)| == 63
    ensures Decode(dc, terms, reading).Some?
    ensures Decode(dc, terms, reading).value.out == [dc] + Read(terms, reading)
    ensures Decode(dc, terms, reading).value.terms == Spent(terms)
  {
    var first := Walk(Zeros(64)[0 := dc], terms, 0, false);
    DecodeStarts(dc, terms, reading);
    assert first.terms[first.cursor..] == terms;
    DecodeFrom(first, 1, dc, reading);
    assert first.out[..1] == [dc];
    assert first.terms[..first.cursor] == [];
  }

  /** Position 0 takes the DC amplitude and leaves the terms alone; the AC positions follow. */
  lemma DecodeStarts(dc: int, terms: seq<Term>, reading: Reading)
    ensures Decode(dc, terms, reading) == Steps(Walk(Zeros(64)[0 := dc], terms, 0, false), 1, 64, dc, reading)
  {
    assert Step(Start(terms), 0, dc, reading) == Some(Walk(Zeros(64)[0 := dc], terms, 0, false));
  }

  /**
   * A list without a marker that spans fewer positions than are left runs out: the
   * decoder looks past its end and throws.
   */
  lemma {:induction false} DecodeFromRunsOut(w: Walk, k: int, dc: int, reading: Reading)
    requires |w.out| == 64 && 1 <= k < 64 && w.cursor <= |w.terms| && !w.zero
    requires WellFormed(w.terms[w.cursor..]) && |Expand(w.terms[w.cursor..])| < 64 - k
    requires forall i :: w.cursor <= i < |w.terms| ==> !IsMarker(w.terms[i])
    ensures Steps(w, k, 64, dc, reading).None?
    decreases |w.terms| - w.cursor
  {
    var rest := w.terms[w.cursor..];
    if w.cursor < |w.terms| {
      var t := w.terms[w.cursor];
      var r := t.runLength;
      assert rest[0] == t;
      assert Expand(rest) == ExpandTerm(t) + Expand(rest[1..]);
      ValueTermSteps(w, k, dc, reading);
      var next := Passed(w, k, reading);
      StepsSplit(w, k, k + r + 1, 64, dc, reading);
      PassedTerms(w, k, reading);
      WellFormedTail(rest);
      DecodeFromRunsOut(next, k + r + 1, dc, reading);
    }
  }

  /** The exception path: a marker-free list spanning fewer than 63 positions (the empty one, say) throws. */
  lemma DecodeRunsOut(dc: int, terms: seq<Term>, reading: Reading)
    requires WellFormed(terms) && |Expand(terms)| < 63
    requires forall i :: 0 <= i < |terms| ==> !IsMarker(terms[i])
    ensures Decode(dc, terms, reading) == None
  {
    var first := Walk(Zeros(64)[0 := dc], terms, 0, false);
    DecodeStarts(dc, terms, reading);
    assert first.terms[first.cursor..] == terms;
    DecodeFromRunsOut(first, 1, dc, reading);
  }

  /** The as-written reading of the terms the encoder emits from position index on. */
  lemma {:induction false} ReadEncodeFrom(s: seq<int>, index: int, run: nat)
    requires |s| == 64 && 1 <= index <= 64
    requires (run == 0) == (index == 1 || s[index - 1] != 0)
    ensures Read(EncodeFrom(s, index, run), AsWritten) == Zeros(run) + AsDecoded(s)[index..]
    decreases 64 - index
  {
    if index == 64 {
      if run > 0 {
        assert Read([Term(run, 0, 0)], AsWritten) == Zeros(run) + Read([], AsWritten);
      }
    } else if s[index] == 0 {
      ReadEncodeFrom(s, index + 1, run + 1);
      ReadZeroStep(s, index, run);
    } else {
      ReadEncodeFrom(s, index + 1, 0);
      ReadValueStep(s, index, run);
    }
  }

  /** The step of ReadEncodeFrom at a zero coefficient: one more pending zero. */
  lemma ReadZeroStep(s: seq<int>, index: int, run: nat)
    requires |s| == 64 && 1 <= index < 64 && s[index] == 0
    requires Read(EncodeFrom(s, index + 1, run + 1), AsWritten) == Zeros(run + 1) + AsDecoded(s)[index + 1..]
    ensures Read(EncodeFrom(s, index, run), AsWritten) == Zeros(run) + AsDecoded(s)[index..]
  {
    var d := AsDecoded(s);
    calc {
      Read(EncodeFrom(s, index, run), AsWritten);
      Read(EncodeFrom(s, index + 1, run + 1), AsWritten);
      Zeros(run + 1) + d[index + 1..];
      { assert Zeros(run + 1) == Zeros(run) + [0]; }
      (Zeros(run) + [0]) + d[index + 1..];
      { ConcatAssoc(Zeros(run), [0], d[index + 1..]); }
      Zeros(run) + ([0] + d[index + 1..]);
      { assert d[index..] == [d[index]] + d[index + 1..]; }
      Zeros(run) + d[index..];
    }
  }

  /** The step of ReadEncodeFrom at a nonzero coefficient: its term reads as the pending zeros and d[index]. */
  lemma ReadValueStep(s: seq<int>, index: int, run: nat)
    requires |s| == 64 && 1 <= index < 64 && s[index] != 0
    requires (run == 0) == (index == 1 || s[index - 1] != 0)
    requires Read(EncodeFrom(s, index + 1, 0), AsWritten) == AsDecoded(s)[index + 1..]
    ensures Read(EncodeFrom(s, index, run), AsWritten) == Zeros(run) + AsDecoded(s)[index..]
  {
    var d := AsDecoded(s);
    var t := Term(run, AmplitudeMap.GetCorrespondingSize(s[index]), s[index]);
    var rest := EncodeFrom(s, index + 1, 0);
    assert ([t] + rest)[0] == t && ([t] + rest)[1..] == rest;
    assert ReadTerm(t, AsWritten) == Zeros(run) + [d[index]];
    calc {
      Read(EncodeFrom(s, index, run), AsWritten);
      Read([t] + rest, AsWritten);
      ReadTerm(t, AsWritten) + Read(rest, AsWritten);
      (Zeros(run) + [d[index]]) + d[index + 1..];
      { ConcatAssoc(Zeros(run), [d[index]], d[index + 1..]); }
      Zeros(run) + ([d[index]] + d[index + 1..]);
      { assert d[index..] == [d[index]] + d[index + 1..]; }
      Zeros(run) + d[index..];
    }
  }

  /**
   * The decoder as written, on any block the encoder produced: no exception, position 0
   * gets s[0], and position k >= 1 gets s[k] unless it follows a zero (k >= 2 and
   * s[k-1] == 0), when it gets 0. Every AC object ends with run length 0 or is the marker.
   */
  lemma DecodeEncodedAsWritten(s: seq<int>)
    requires |s| == 64
    ensures Decode(EncodeDC(s).amplitude, EncodeAC(s), AsWritten).Some?
    ensures Decode(EncodeDC(s).amplitude, EncodeAC(s), AsWritten).value.out == AsDecoded(s)
    ensures Decode(EncodeDC(s).amplitude, EncodeAC(s), AsWritten).value.terms == Spent(EncodeAC(s))
  {
    EncodeForm(s);
    EncodeRoundTrip(s);
    DecodeWellFormed(s[0], EncodeAC(s), AsWritten);
    ReadEncodeFrom(s, 1, 0);
    assert [s[0]] + AsDecoded(s)[1..] == AsDecoded(s);
  }

  /** The intended decoder inverts the encoder: decoding an encoded block gives the block back. */
  lemma DecodeEncodedIntended(s: seq<int>)
    requires |s| == 64
    ensures Decode(EncodeDC(s).amplitude, EncodeAC(s), Intended).Some?
    ensures Decode(EncodeDC(s).amplitude, EncodeAC(s), Intended).value.out == s
  {
    EncodeForm(s);
    EncodeRoundTrip(s);
    DecodeWellFormed(s[0], EncodeAC(s), Intended);
    ReadIntended(EncodeAC(s));
    assert [s[0]] + s[1..] == s;
  }

  /** The decoder as written gives a block back exactly when no nonzero coefficient past position 1 follows a zero. */
  lemma AsDecodedIsIdentityIff(s: seq<int>)
    requires |s| == 64
    ensures AsDecoded(s) == s <==> forall j :: 2 <= j < 64 && s[j - 1] == 0 ==> s[j] == 0
  {
    if AsDecoded(s) == s {
      forall j | 2 <= j < 64 && s[j - 1] == 0
        ensures s[j] == 0
      {
        assert AsDecoded(s)[j] == 0;
      }
    }
  }

  /** The block 0, 0, 5, 0, ..., 0 decodes, as written, to the all-zero block: the 5 is lost. */
  lemma DecodeLosesValueAfterZero(s: seq<int>)
    requires s == [0, 0, 5] + Zeros(61)
    ensures Decode(EncodeDC(s).amplitude, EncodeAC(s), AsWritten).Some?
    ensures Decode(EncodeDC(s).amplitude, EncodeAC(s), AsWritten).value.out[2] == 0
    ensures Decode(EncodeDC(s).amplitude, EncodeAC(s), AsWritten).value.out != s
  {
    DecodeEncodedAsWritten(s);
    assert s[1] == 0 && s[2] == 5;
    var d := AsDecoded(s);
    assert d[2] == 0;
    assert d != s by {
      assert d[2] != s[2];
    }
  }
}
