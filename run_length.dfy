/**
 * The run-length coding of one block's zig-zag sequence s[0..63]: the DC term holds s[0],
 * and the AC list holds one term per nonzero s[k], k >= 1, carrying the zeros met since
 * the previous nonzero, closed by a marker when the block ends in zeros.
 * This module defines that coding and its reference inverse Expand.
 */
module RunLength {
  import opened EntropyTerms
  import opened AmplitudeMap

  /** A run of n zero coefficients. */
  function Zeros(n: nat): (z: seq<int>)
    ensures |z| == n && forall i :: 0 <= i < n ==> z[i] == 0
  {
    seq(n, _ => 0)
  }

  /** The DC term of the block whose zig-zag sequence is s. */
  function EncodeDC(s: seq<int>): DC
    requires |s| == 64
  {
    DC(GetCorrespondingSize(s[0]), s[0])
  }

  /**
   * The AC terms the encoder emits for positions index..63 after having counted
   * run zeros since position 1 or the previous nonzero coefficient.
   */
  function EncodeFrom(s: seq<int>, index: int, run: nat): seq<Term>
    requires |s| == 64 && 1 <= index <= 64
    decreases 64 - index
  {
    if index == 64 then
      if run > 0 then [Term(run, 0, 0)] else []
    else if s[index] == 0 then
      EncodeFrom(s, index + 1, run + 1)
    else
      [Term(run, GetCorrespondingSize(s[index]), s[index])] + EncodeFrom(s, index + 1, 0)
  }

  /**
   * The AC list of the block whose zig-zag sequence is s: the terms from position 1 on.
   * The position is written |s| - 63 rather than 1 so that the solver does not unroll the
   * 63 steps of EncodeFrom on a literal argument.
   */
  function EncodeAC(s: seq<int>): seq<Term>
    requires |s| == 64
  {
    EncodeFrom(s, |s| - 63, 0)
  }

  /** The run length of a term, a negative one counting as none. */
  function Run(t: Term): nat {
    if t.runLength > 0 then t.runLength else 0
  }

  /** The coefficients one term stands for: its zeros, then its amplitude unless it is the marker. */
  function ExpandTerm(t: Term): seq<int> {
    if IsMarker(t) then Zeros(Run(t)) else Zeros(Run(t)) + [t.amplitude]
  }

  /** The reference run-length decoding of a list of terms. */
  function Expand(terms: seq<Term>): seq<int> {
    if terms == [] then [] else ExpandTerm(terms[0]) + Expand(terms[1..])
  }

  /** A list the decoder can walk: no negative run, and a marker only as the last term. */
  predicate WellFormed(terms: seq<Term>) {
    forall i :: 0 <= i < |terms| ==>
      terms[i].runLength >= 0 && (IsMarker(terms[i]) ==> i == |terms| - 1)
  }

  /** A value term as the encoder makes it: a nonzero amplitude with its category. */
  predicate ValueTerm(t: Term) {
    t.runLength >= 0 && t.amplitude != 0 && t.size == GetCorrespondingSize(t.amplitude)
  }

  /** Every term is a value term except possibly a last marker with a positive run. */
  predicate EncodedForm(terms: seq<Term>) {
    forall i :: 0 <= i < |terms| ==>
      if IsMarker(terms[i]) then i == |terms| - 1 && terms[i].runLength > 0 else ValueTerm(terms[i])
  }

  /** The amplitudes of the value terms, in order. */
  function Amplitudes(terms: seq<Term>): seq<int> {
    if terms == [] then []
    else (if IsMarker(terms[0]) then [] else [terms[0].amplitude]) + Amplitudes(terms[1..])
  }

  /** The nonzero entries of a sequence, in order. */
  function NonZeros(s: seq<int>): seq<int> {
    if s == [] then [] else (if s[0] != 0 then [s[0]] else []) + NonZeros(s[1..])
  }

  /** Concatenation is associative; stated once so that proofs need not rebuild it pointwise. */
  lemma ConcatAssoc<T>(a: seq<T>, b: seq<T>, c: seq<T>)
    ensures (a + b) + c == a + (b + c)
  {
  }

  lemma ExpandCons(t: Term, rest: seq<Term>)
    ensures Expand([t] + rest) == ExpandTerm(t) + Expand(rest)
  {
    assert ([t] + rest)[0] == t;
    assert ([t] + rest)[1..] == rest;
  }

  lemma AmplitudesCons(t: Term, rest: seq<Term>)
    ensures Amplitudes([t] + rest) == (if IsMarker(t) then [] else [t.amplitude]) + Amplitudes(rest)
  {
    assert ([t] + rest)[0] == t;
    assert ([t] + rest)[1..] == rest;
  }

  /** Expanding the terms emitted from position index on gives back the pending zeros and s[index..]. */
  lemma {:induction false} ExpandEncodeFrom(s: seq<int>, index: int, run: nat)
    requires |s| == 64 && 1 <= index <= 64
    ensures Expand(EncodeFrom(s, index, run)) == Zeros(run) + s[index..]
    decreases 64 - index
  {
    if index == 64 {
      if run > 0 {
        assert Expand([Term(run, 0, 0)]) == Zeros(run) + Expand([]) by {
          ExpandCons(Term(run, 0, 0), []);
        }
      }
    } else if s[index] == 0 {
      calc {
        Expand(EncodeFrom(s, index, run));
        Expand(EncodeFrom(s, index + 1, run + 1));
        { ExpandEncodeFrom(s, index + 1, run + 1); }
        Zeros(run + 1) + s[index + 1..];
        { assert Zeros(run + 1) == Zeros(run) + [0]; }
        (Zeros(run) + [0]) + s[index + 1..];
        { ConcatAssoc(Zeros(run), [0], s[index + 1..]); }
        Zeros(run) + ([0] + s[index + 1..]);
        { assert s[index..] == [s[index]] + s[index + 1..]; }
        Zeros(run) + s[index..];
      }
    } else {
      var t := Term(run, GetCorrespondingSize(s[index]), s[index]);
      calc {
        Expand(EncodeFrom(s, index, run));
        Expand([t] + EncodeFrom(s, index + 1, 0));
        { ExpandCons(t, EncodeFrom(s, index + 1, 0)); }
        ExpandTerm(t) + Expand(EncodeFrom(s, index + 1, 0));
        { ExpandEncodeFrom(s, index + 1, 0); }
        (Zeros(run) + [s[index]]) + s[index + 1..];
        { ConcatAssoc(Zeros(run), [s[index]], s[index + 1..]); }
        Zeros(run) + ([s[index]] + s[index + 1..]);
        { assert s[index..] == [s[index]] + s[index + 1..]; }
        Zeros(run) + s[index..];
      }
    }
  }

  /** A nonzero coefficient closes the pending run: its term goes next, and the count restarts. */
  lemma EncodeValueStep(terms: seq<Term>, s: seq<int>, index: int, run: nat)
    requires |s| == 64 && 1 <= index < 64 && s[index] != 0
    ensures terms + EncodeFrom(s, index, run)
         == (terms + [Term(run, GetCorrespondingSize(s[index]), s[index])]) + EncodeFrom(s, index + 1, 0)
  {
    ConcatAssoc(terms, [Term(run, GetCorrespondingSize(s[index]), s[index])], EncodeFrom(s, index + 1, 0));
  }

  /** Round trip: the reference expansion of the AC list is s[1..], so the terms span 63 positions. */
  lemma EncodeRoundTrip(s: seq<int>)
    requires |s| == 64
    ensures Expand(EncodeAC(s)) == s[1..]
    ensures |Expand(EncodeAC(s))| == 63
  {
    ExpandEncodeFrom(s, 1, 0);
  }

  /** The terms emitted from any position have the encoder's form. */
  lemma {:induction false} EncodeFromForm(s: seq<int>, index: int, run: nat)
    requires |s| == 64 && 1 <= index <= 64
    ensures EncodedForm(EncodeFrom(s, index, run))
    decreases 64 - index
  {
    if index < 64 {
      if s[index] == 0 {
        EncodeFromForm(s, index + 1, run + 1);
      } else {
        EncodeFromForm(s, index + 1, 0);
        var t := Term(run, GetCorrespondingSize(s[index]), s[index]);
        var rest := EncodeFrom(s, index + 1, 0);
        assert forall i :: 1 <= i < |[t] + rest| ==> ([t] + rest)[i] == rest[i - 1];
      }
    }
  }

  /**
   * Every AC term of a block is a value term (nonzero amplitude, its category, a
   * nonnegative run) except a last marker with a positive run; such a list is well formed.
   */
  lemma EncodeForm(s: seq<int>)
    requires |s| == 64
    ensures EncodedForm(EncodeAC(s))
    ensures WellFormed(EncodeAC(s))
  {
    EncodeFromForm(s, 1, 0);
  }

  /** One value term per nonzero coefficient, in order. */
  lemma {:induction false} AmplitudesEncodeFrom(s: seq<int>, index: int, run: nat)
    requires |s| == 64 && 1 <= index <= 64
    ensures Amplitudes(EncodeFrom(s, index, run)) == NonZeros(s[index..])
    decreases 64 - index
  {
    if index == 64 {
      if run > 0 {
        AmplitudesCons(Term(run, 0, 0), []);
      }
    } else {
      assert s[index..][0] == s[index] && s[index..][1..] == s[index + 1..];
      if s[index] == 0 {
        AmplitudesEncodeFrom(s, index + 1, run + 1);
      } else {
        AmplitudesCons(Term(run, GetCorrespondingSize(s[index]), s[index]), EncodeFrom(s, index + 1, 0));
        AmplitudesEncodeFrom(s, index + 1, 0);
      }
    }
  }

  lemma EncodeAmplitudes(s: seq<int>)
    requires |s| == 64
    ensures Amplitudes(EncodeAC(s)) == NonZeros(s[1..])
  {
    AmplitudesEncodeFrom(s, 1, 0);
  }

  /**
   * The terms from position index end with a marker exactly when the block ends in zeros;
   * the marker then counts the pending zeros plus the zeros from index to the end.
   */
  lemma {:induction false} MarkerFrom(s: seq<int>, index: int, run: nat)
    requires |s| == 64 && 1 <= index <= 64 && run <= index - 1
    requires forall j :: index - run <= j < index ==> s[j] == 0
    requires index - run == 1 || s[index - run - 1] != 0
    ensures var terms := EncodeFrom(s, index, run);
      (index < 64 || run > 0) ==>
        |terms| > 0 && (IsMarker(terms[|terms| - 1]) <==> s[63] == 0) &&
        (IsMarker(terms[|terms| - 1]) ==> TrailingZeros(s, terms[|terms| - 1].runLength))
    decreases 64 - index
  {
    if index < 64 {
      if s[index] == 0 {
        MarkerFrom(s, index + 1, run + 1);
      } else {
        MarkerFrom(s, index + 1, 0);
      }
    }
  }

  /** s ends in exactly r zeros: the r last entries are zero and the one before (if any past s[0]) is not. */
  predicate TrailingZeros(s: seq<int>, r: int)
    requires |s| == 64
  {
    1 <= r <= 63 && (forall j :: 64 - r <= j < 64 ==> s[j] == 0) && (r == 63 || s[63 - r] != 0)
  }

  /** The AC list is never empty; it ends with a marker iff s[63] == 0, and the marker counts the final zeros. */
  lemma EncodeMarker(s: seq<int>)
    requires |s| == 64
    ensures |EncodeAC(s)| > 0
    ensures IsMarker(EncodeAC(s)[|EncodeAC(s)| - 1]) <==> s[63] == 0
    ensures IsMarker(EncodeAC(s)[|EncodeAC(s)| - 1]) ==> TrailingZeros(s, EncodeAC(s)[|EncodeAC(s)| - 1].runLength)
  {
    MarkerFrom(s, 1, 0);
  }
}
