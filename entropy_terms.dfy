/**
 * The records exchanged between the entropy encoder and decoder of one block:
 * the DC term, the mutable AC term objects and the Entropy record holding both.
 */
module EntropyTerms {

  /** The DC term of a block: the category of the first coefficient and the coefficient itself. */
  datatype DC = DC(size: int, amplitude: int)

  /** The value of an AC term at one moment: zeros before it, category, coefficient. */
  datatype Term = Term(runLength: int, size: int, amplitude: int)

  /**
   * A term with size 0 and amplitude 0 is the end-of-block marker; its run length counts
   * the zeros that close the block. Every other term is a value term.
   */
  predicate IsMarker(t: Term) {
    t.size == 0 && t.amplitude == 0
  }

  /** An AC term; the decoder counts its run length down in place. */
  class AC {
    var runLength: int
    var size: int
    var amplitude: int

    constructor (runLength: int, size: int, amplitude: int)
      ensures this.runLength == runLength && this.size == size && this.amplitude == amplitude
    {
      this.runLength := runLength;
      this.size := size;
      this.amplitude := amplitude;
    }

    method DecrementRunLength()
      modifies this
      ensures runLength == old(runLength) - 1
      ensures size == old(size) && amplitude == old(amplitude)
    {
      runLength := runLength - 1;
    }

    /** The term this object currently holds. */
    function Value(): Term
      reads this
    {
      Term(runLength, size, amplitude)
    }
  }

  /** The entropy record of one block: its DC term and its list of AC objects. */
  datatype Entropy = Entropy(dc: DC, acList: seq<AC>)

  /** The terms a list of AC objects holds in the current heap. */
  function Snapshot(acs: seq<AC>): (terms: seq<Term>)
    reads acs
    ensures |terms| == |acs|
    ensures forall i :: 0 <= i < |acs| ==> terms[i] == acs[i].Value()
  {
    seq(|acs|, i requires 0 <= i < |acs| reads acs => acs[i].Value())
  }

  /** Appending an object appends its term. */
  lemma SnapshotSnoc(acs: seq<AC>, a: AC)
    ensures Snapshot(acs + [a]) == Snapshot(acs) + [a.Value()]
  {
    var l := Snapshot(acs + [a]);
    var r := Snapshot(acs) + [a.Value()];
    assert |l| == |r|;
    assert forall i :: 0 <= i < |l| ==> l[i] == r[i];
  }

  /** The object at position i of a list. */
  function At(acs: seq<AC>, i: int): (a: AC)
    requires 0 <= i < |acs|
    ensures a == acs[i]
  {
    acs[i]
  }

  /**
   * No AC object occurs twice in the list, so updating one changes one term. The property is
   * phrased on At, so that the solver applies it only at positions a proof names with At.
   */
  predicate Distinct(acs: seq<AC>) {
    forall i, j {:trigger At(acs, i), At(acs, j)} :: 0 <= i < j < |acs| ==> At(acs, i) != At(acs, j)
  }

  /** The object at position i occurs at no other position. */
  lemma DistinctAt(acs: seq<AC>, i: int)
    requires Distinct(acs) && 0 <= i < |acs|
    ensures forall j :: 0 <= j < |acs| && j != i ==> acs[j] != acs[i]
  {
    forall j | 0 <= j < |acs| && j != i
      ensures acs[j] != acs[i]
    {
      if j < i {
        assert At(acs, j) != At(acs, i);
      } else {
        assert At(acs, i) != At(acs, j);
      }
    }
  }

  /** Appending an object not yet in the list keeps it free of repeats. */
  lemma DistinctSnoc(acs: seq<AC>, a: AC)
    requires Distinct(acs) && a !in acs
    ensures Distinct(acs + [a])
    ensures forall x :: x in acs + [a] ==> x in acs || x == a
  {
    var l := acs + [a];
    forall i, j | 0 <= i < j < |l|
      ensures At(l, i) != At(l, j)
    {
      if j < |acs| {
        assert At(acs, i) != At(acs, j);
      }
    }
  }

  /** The AC objects of all records of a list. */
  function Objects(list: seq<Entropy>): set<AC> {
    set j, a | 0 <= j < |list| && a in list[j].acList :: a
  }

  lemma ObjectsSnoc(list: seq<Entropy>, e: Entropy)
    ensures Objects(list + [e]) == Objects(list) + set a | a in e.acList
  {
    var l := list + [e];
    assert forall j :: 0 <= j < |list| ==> l[j] == list[j];
    assert l[|list|] == e;
  }

  lemma ObjectsHas(list: seq<Entropy>, j: int)
    requires 0 <= j < |list|
    ensures forall a :: a in list[j].acList ==> a in Objects(list)
  {
  }

  lemma ObjectsPrefix(list: seq<Entropy>, n: int)
    requires 0 <= n <= |list|
    ensures Objects(list[..n]) <= Objects(list)
  {
    forall a | a in Objects(list[..n])
      ensures a in Objects(list)
    {
      var j :| 0 <= j < n && a in list[..n][j].acList;
      assert list[..n][j] == list[j];
    }
  }

  /** No AC object is shared: none occurs twice in a record, and no two records share one. */
  predicate Separate(list: seq<Entropy>) {
    (forall j :: 0 <= j < |list| ==> Distinct(list[j].acList)) &&
    forall i, j, a :: 0 <= i < j < |list| && a in list[i].acList ==> a !in list[j].acList
  }
}
