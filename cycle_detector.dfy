/** `CycleDetector`: the chain of getters currently being compared, kept as a
    bidirectional map from position to getter, and the cycle found when a getter
    already on the chain is added again (CycleDetector.java:10-36). `DetectorState`
    is the abstract value of a detector; the class keeps the two directions of the
    bimap as two maps. */
module CycleDetector {
  import opened Wrappers
  import opened Getter
  import opened Cycle

  datatype DetectorState = DetectorState(sequence: seq<Getter>, cycle: Option<Cycle>)

  const Fresh := DetectorState([], None)

  predicate Distinct(s: seq<Getter>)
  {
    forall i, j :: 0 <= i < j < |s| ==> s[i] != s[j]
  }

  function IndexOf(s: seq<Getter>, g: Getter): (k: nat)
    requires g in s
    ensures k < |s| && s[k] == g
    ensures forall j :: 0 <= j < k ==> s[j] != g
  {
    if s[0] == g then 0 else 1 + IndexOf(s[1..], g)
  }

  /** `add(getter)`: a getter already on the chain records a cycle at its position
      and leaves the chain as it is; a new one is appended. */
  function Added(d: DetectorState, g: Getter): (r: DetectorState)
    ensures g in d.sequence ==> r.sequence == d.sequence && r.cycle.Some?
                                && r.cycle.value.getters == d.sequence
                                && r.cycle.value.idx < |d.sequence|
                                && d.sequence[r.cycle.value.idx] == g
    ensures g !in d.sequence ==> r == d.(sequence := d.sequence + [g])
  {
    if g in d.sequence then d.(cycle := Some(Cycle(d.sequence, IndexOf(d.sequence, g))))
    else d.(sequence := d.sequence + [g])
  }

  /** `remove()`: drops the last position; on an empty chain it does nothing, as
      `BiMap.remove(-1)` finds no key. */
  function Removed(d: DetectorState): (r: DetectorState)
    ensures r.cycle == d.cycle
    ensures d.sequence == [] ==> r == d
    ensures d.sequence != [] ==> r.sequence == d.sequence[..|d.sequence| - 1]
  {
    if d.sequence == [] then d else d.(sequence := d.sequence[..|d.sequence| - 1])
  }

  /** Adding keeps the chain free of repetitions, as the bimap requires. */
  lemma AddedKeepsDistinct(d: DetectorState, g: Getter)
    requires Distinct(d.sequence)
    ensures Distinct(Added(d, g).sequence)
  {
  }

  /** A getter not on the chain, added and then removed, leaves the detector as
      it was. */
  lemma RemovedUndoesAdded(d: DetectorState, g: Getter)
    requires g !in d.sequence
    ensures Removed(Added(d, g)) == d
  {
    assert (d.sequence + [g])[..|d.sequence|] == d.sequence;
  }

  /** A cycle is reported exactly when the getter is already on the chain, and it
      starts at the getter's first position. */
  lemma CycleIffRepeated(d: DetectorState, g: Getter)
    requires d.cycle.None? && Distinct(d.sequence)
    ensures Added(d, g).cycle.Some? <==> g in d.sequence
    ensures Added(d, g).cycle.Some? ==>
      Added(d, g).cycle.value.idx < |d.sequence|
      && forall j :: 0 <= j < |d.sequence| ==> (d.sequence[j] == g <==> j == Added(d, g).cycle.value.idx)
  {
  }

  /** The positions 0..n-1 of a map, in order. */
  function InOrder(m: map<int, Getter>, n: nat): (s: seq<Getter>)
    requires forall k :: 0 <= k < n ==> k in m
    ensures |s| == n && forall k :: 0 <= k < n ==> s[k] == m[k]
  {
    if n == 0 then [] else InOrder(m, n - 1) + [m[n - 1]]
  }

  /** The positions are 0..n-1 and the two maps are inverse to each other. */
  ghost predicate Bimap(f: map<int, Getter>, b: map<Getter, int>)
  {
    (forall k :: k in f <==> 0 <= k < |f|)
    && (forall k :: k in f ==> f[k] in b && b[f[k]] == k)
    && (forall g :: g in b ==> b[g] in f && f[b[g]] == g)
  }

  lemma InOrderPrefix(f: map<int, Getter>, f': map<int, Getter>, n: nat)
    requires forall k :: 0 <= k < n ==> k in f && k in f' && f[k] == f'[k]
    ensures InOrder(f, n) == InOrder(f', n)
  {
  }

  lemma RemoveLast(f: map<int, Getter>, b: map<Getter, int>)
    requires Bimap(f, b) && |f| > 0
    ensures var n := |f|;
      && Bimap(f - {n - 1}, b - {f[n - 1]})
      && |f - {n - 1}| == n - 1
      && InOrder(f - {n - 1}, n - 1) == InOrder(f, n)[..n - 1]
  {
    var n := |f|;
    var f' := f - {n - 1};
    assert n - 1 in f;
    assert f'.Keys == f.Keys - {n - 1};
    assert |f'| == n - 1;
    InOrderPrefix(f', f, n - 1);
  }

  class CycleDetector {
    /** Position to getter. */
    var forward: map<int, Getter>
    /** Getter to position: `sequence.inverse()`. */
    var backward: map<Getter, int>
    var cycle: Option<Cycle>

    ghost predicate Valid()
      reads this
    {
      Bimap(forward, backward)
    }

    ghost function Abstract(): DetectorState
      reads this
      requires Valid()
    {
      DetectorState(InOrder(forward, |forward|), cycle)
    }

    constructor ()
      ensures Valid() && Abstract() == Fresh
    {
      forward := map[];
      backward := map[];
      cycle := None;
    }

    /** `add(getter)`. */
    method Add(g: Getter)
      requires Valid()
      modifies this
      ensures Valid()
      ensures Abstract() == Added(old(Abstract()), g)
    {
      ghost var s := Abstract().sequence;
      if g in backward {
        var idx := backward[g];
        assert s[idx] == g;
        assert forall j :: 0 <= j < |s| && s[j] == g ==> j == idx;
        var c := CycleAt(idx);
        cycle := Some(c);
        return;
      }
      assert g !in s;
      var n := |forward|;
      assert n !in forward;
      forward := forward[n := g];
      backward := backward[g := n];
      assert |forward| == n + 1;
      assert InOrder(forward, n + 1) == s + [g];
    }

    /** `getCycle()`. */
    method GetCycle() returns (r: Option<Cycle>)
      requires Valid()
      ensures r == Abstract().cycle
    {
      r := cycle;
    }

    /** `remove()`: `sequence.remove(sequence.size() - 1)`. */
    method Remove()
      requires Valid()
      modifies this
      ensures Valid()
      ensures Abstract() == Removed(old(Abstract()))
    {
      var n := |forward|;
      if n - 1 in forward {
        RemoveLast(forward, backward);
        var g := forward[n - 1];
        forward := forward - {n - 1};
        backward := backward - {g};
      }
    }

    /** `cycle(idx)`: the getters in ascending position order. */
    method CycleAt(idx: int) returns (c: Cycle)
      requires Valid() && 0 <= idx < |forward|
      ensures c == Cycle(Abstract().sequence, idx)
    {
      var b: seq<Getter> := [];
      var i := 0;
      while i < |forward|
        invariant 0 <= i <= |forward|
        invariant b == InOrder(forward, i)
      {
        b := b + [forward[i]];
        i := i + 1;
      }
      c := Cycle(b, idx);
    }
  }
}
