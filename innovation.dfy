/**
 * The innovation registry of a training run: a memoising allocator of edge
 * innovation ids keyed by the ordered node pair an edge connects, and two
 * plain counters handing out species ids and genome ids.
 *
 * `Registry` is the registry's state as a value and `EdgeStep`, `SpecieStep`
 * and `GenomeStep` are its transitions; the class `Innovations` holds the same
 * state in mutable fields and each of its methods is proved to make exactly
 * the corresponding transition.
 */
module Innovation {

  /** An ordered node pair `(from, to)`; `(a, b)` and `(b, a)` are different keys. */
  type Pair = (nat, nat)

  datatype Registry = Registry(
    pastConnection: map<Pair, nat>,
    edgeCount: nat,
    specieCount: nat,
    genomeCount: nat)

  /**
   * The edge-map invariant: the recorded ids are exactly `0 .. edgeCount-1`
   * (every recorded id is below the counter and every id below it is
   * recorded), no id is recorded for two pairs, and there are `edgeCount` pairs.
   */
  ghost predicate WellFormed(r: Registry) {
    && (forall y | y in r.pastConnection :: r.pastConnection[y] < r.edgeCount)
    && (forall i: nat | i < r.edgeCount :: i in r.pastConnection.Values)
    && (forall y, z | y in r.pastConnection && z in r.pastConnection && y != z ::
          r.pastConnection[y] != r.pastConnection[z])
    && |r.pastConnection| == r.edgeCount
  }

  /** The registry of a new run: no edges recorded and every counter at 0. */
  function Fresh(): (r: Registry)
    ensures WellFormed(r)
    ensures r.pastConnection == map[] && r.edgeCount == 0
    ensures r.specieCount == 0 && r.genomeCount == 0
  {
    Registry(map[], 0, 0, 0)
  }

  /**
   * `new_edge(x)`: the id already recorded for `x`, or else the next edge id,
   * which is recorded for `x` and advances the edge counter.
   */
  function EdgeStep(r: Registry, x: Pair): (res: (Registry, nat))
    ensures x in res.0.pastConnection && res.0.pastConnection[x] == res.1
    ensures res.0.pastConnection.Keys == r.pastConnection.Keys + {x}
    ensures forall y | y in r.pastConnection :: res.0.pastConnection[y] == r.pastConnection[y]
    ensures x in r.pastConnection ==> res.0.edgeCount == r.edgeCount
    ensures x !in r.pastConnection ==> res.0.edgeCount == r.edgeCount + 1 && res.1 == r.edgeCount
    ensures res.0.specieCount == r.specieCount && res.0.genomeCount == r.genomeCount
    ensures WellFormed(r) ==> WellFormed(res.0) && res.1 < res.0.edgeCount
  {
    if x in r.pastConnection then
      (r, r.pastConnection[x])
    else
      var id := r.edgeCount;
      var r' := r.(pastConnection := r.pastConnection[x := id], edgeCount := id + 1);
      EdgeStepKeepsWellFormed(r, x);
      (r', id)
  }

  lemma EdgeStepKeepsWellFormed(r: Registry, x: Pair)
    requires x !in r.pastConnection
    ensures WellFormed(r) ==>
              WellFormed(r.(pastConnection := r.pastConnection[x := r.edgeCount], edgeCount := r.edgeCount + 1))
  {
    if !WellFormed(r) { return; }
    var n := r.edgeCount;
    var m := r.pastConnection;
    var m' := m[x := n];
    forall i: nat | i < n + 1 ensures i in m'.Values {
      if i == n {
        assert m'[x] == i;
      } else {
        assert i in m.Values;
        var k :| k in m && m[k] == i;
        assert k != x && m'[k] == i;
      }
    }
    forall y, z | y in m' && z in m' && y != z ensures m'[y] != m'[z] {
      if y != x && z != x {
        assert m'[y] == m[y] && m'[z] == m[z];
      }
    }
  }

  /** `new_specie()`: hands out the current species counter and advances it by one. */
  function SpecieStep(r: Registry): (res: (Registry, nat))
    ensures res.1 == r.specieCount && res.0.specieCount == r.specieCount + 1
    ensures res.0.pastConnection == r.pastConnection && res.0.edgeCount == r.edgeCount
    ensures res.0.genomeCount == r.genomeCount
    ensures WellFormed(r) ==> WellFormed(res.0)
  {
    (r.(specieCount := r.specieCount + 1), r.specieCount)
  }

  /** `new_genome()`: hands out the current genome counter and advances it by one. */
  function GenomeStep(r: Registry): (res: (Registry, nat))
    ensures res.1 == r.genomeCount && res.0.genomeCount == r.genomeCount + 1
    ensures res.0.pastConnection == r.pastConnection && res.0.edgeCount == r.edgeCount
    ensures res.0.specieCount == r.specieCount
    ensures WellFormed(r) ==> WellFormed(res.0)
  {
    (r.(genomeCount := r.genomeCount + 1), r.genomeCount)
  }

  /** On a fresh registry the first edge, species and genome ids are all 0. */
  lemma FreshIdsAreZero(x: Pair)
    ensures EdgeStep(Fresh(), x).1 == 0
    ensures SpecieStep(Fresh()).1 == 0
    ensures GenomeStep(Fresh()).1 == 0
  {
  }

  /** Asking again for the same pair returns the same id and changes nothing. */
  lemma EdgeStepIdempotent(r: Registry, x: Pair)
    ensures EdgeStep(EdgeStep(r, x).0, x) == EdgeStep(r, x)
  {
  }

  /** Direction matters: two new pairs `(a, b)` and `(b, a)` get different ids. */
  lemma EdgeStepDirected(r: Registry, a: nat, b: nat)
    requires WellFormed(r) && a != b
    requires (a, b) !in r.pastConnection && (b, a) !in r.pastConnection
    ensures EdgeStep(r, (a, b)).1 != EdgeStep(EdgeStep(r, (a, b)).0, (b, a)).1
  {
  }

  /** Two successive species ids strictly increase, and so do two genome ids. */
  lemma CountersIncrease(r: Registry)
    ensures SpecieStep(r).1 < SpecieStep(SpecieStep(r).0).1
    ensures GenomeStep(r).1 < GenomeStep(GenomeStep(r).0).1
  {
  }

  /**
   * A run of `new_edge` calls, one per pair of `xs` in order: the final
   * registry and the ids the calls returned.
   */
  function EdgeRun(r: Registry, xs: seq<Pair>): (res: (Registry, seq<nat>))
    ensures |res.1| == |xs|
    decreases |xs|
  {
    if xs == [] then
      (r, [])
    else
      var (r1, id) := EdgeStep(r, xs[0]);
      var (r2, ids) := EdgeRun(r1, xs[1..]);
      (r2, [id] + ids)
  }

  /**
   * Over any run of `new_edge` calls from a well-formed registry: every id
   * returned is the one finally recorded for its pair, earlier records are
   * never changed, and the species and genome counters are untouched.
   */
  lemma {:induction false} EdgeRunRecords(r: Registry, xs: seq<Pair>)
    requires WellFormed(r)
    ensures WellFormed(EdgeRun(r, xs).0)
    ensures forall i | 0 <= i < |xs| ::
              xs[i] in EdgeRun(r, xs).0.pastConnection &&
              EdgeRun(r, xs).0.pastConnection[xs[i]] == EdgeRun(r, xs).1[i]
    ensures forall y | y in r.pastConnection ::
              y in EdgeRun(r, xs).0.pastConnection &&
              EdgeRun(r, xs).0.pastConnection[y] == r.pastConnection[y]
    ensures r.edgeCount <= EdgeRun(r, xs).0.edgeCount
    ensures EdgeRun(r, xs).0.specieCount == r.specieCount
    ensures EdgeRun(r, xs).0.genomeCount == r.genomeCount
    decreases |xs|
  {
    if xs != [] {
      var (r1, id) := EdgeStep(r, xs[0]);
      EdgeRunRecords(r1, xs[1..]);
      var (r2, ids) := EdgeRun(r1, xs[1..]);
      assert EdgeRun(r, xs) == (r2, [id] + ids);
      forall i | 0 <= i < |xs|
        ensures xs[i] in r2.pastConnection && r2.pastConnection[xs[i]] == ([id] + ids)[i]
      {
        if i > 0 {
          assert xs[i] == xs[1..][i - 1];
        }
      }
    }
  }

  /**
   * Identical structural mutations share an id and different ones never do:
   * in any run of `new_edge` calls, two calls return the same id exactly when
   * they were made with the same pair.
   */
  lemma EdgeRunIdsMatchPairs(r: Registry, xs: seq<Pair>, i: nat, j: nat)
    requires WellFormed(r)
    requires i < |xs| && j < |xs|
    ensures EdgeRun(r, xs).1[i] == EdgeRun(r, xs).1[j] <==> xs[i] == xs[j]
  {
    EdgeRunRecords(r, xs);
  }

  /**
   * The registry of a run. The source keeps the counters in atomics and the
   * edge map behind a mutex; here the state is plain and the calls sequential.
   */
  class Innovations {
    var edgeCount: nat
    var specieCount: nat
    var genomeCount: nat
    var pastConnection: map<Pair, nat>

    /** The registry's state as a value. */
    function Model(): Registry
      reads this
    {
      Registry(pastConnection, edgeCount, specieCount, genomeCount)
    }

    ghost predicate Valid()
      reads this
    {
      WellFormed(Model())
    }

    constructor ()
      ensures Valid()
      ensures Model() == Fresh()
    {
      edgeCount, specieCount, genomeCount := 0, 0, 0;
      pastConnection := map[];
    }

    method NewEdge(x: Pair) returns (id: nat)
      requires Valid()
      modifies this
      ensures Valid()
      ensures (Model(), id) == EdgeStep(old(Model()), x)
    {
      if x in pastConnection {
        id := pastConnection[x];
      } else {
        EdgeStepKeepsWellFormed(Model(), x);
        id := edgeCount;
        edgeCount := edgeCount + 1;
        pastConnection := pastConnection[x := id];
      }
    }

    method NewSpecie() returns (id: nat)
      requires Valid()
      modifies this
      ensures Valid()
      ensures (Model(), id) == SpecieStep(old(Model()))
    {
      id := specieCount;
      specieCount := specieCount + 1;
    }

    method NewGenome() returns (id: nat)
      requires Valid()
      modifies this
      ensures Valid()
      ensures (Model(), id) == GenomeStep(old(Model()))
    {
      id := genomeCount;
      genomeCount := genomeCount + 1;
    }
  }
}
