/**
 * Species bookkeeping over the trainer's shared population: selecting the
 * members of one species, counting them, culling the lowest-fitness fraction
 * of them from the population, and updating the species' mean fitness and
 * stagnation counter.
 *
 * A genome is reduced to the three fields this code reads: its id, its
 * species id (absent until it is classified) and its fitness (absent until
 * it is scored). The population is the `agents` sequence of a `Trainer`.
 */
module Species {
  import opened Innovation

  datatype Option<T> = None | Some(value: T) {
    function GetOr(default: T): T {
      match this
      case Some(v) => v
      case None => default
    }
  }

  datatype Genome = Genome(id: nat, species: Option<nat>, fitness: Option<real>)

  function Min(a: nat, b: nat): nat {
    if a <= b then a else b
  }

  // ---------------------------------------------------------------------
  // Facts about populations

  /** Every genome has been assigned a species (reading one unwraps it). */
  predicate AllClassified(pop: seq<Genome>) {
    forall g | g in pop :: g.species.Some?
  }

  /** Every genome has been scored (sorting and summing unwrap the fitness). */
  predicate FitnessKnown(s: seq<Genome>) {
    forall g | g in s :: g.fitness.Some?
  }

  /**
   * The fitness that `unwrap` yields. Every operation that reads it requires
   * the fitness to be present, so the default is never used there.
   */
  function Fit(g: Genome): real {
    g.fitness.GetOr(0.0)
  }

  /** No two genomes share an id, as when every id comes from `new_genome`. */
  ghost predicate UniqueIds(s: seq<Genome>) {
    forall i, j | 0 <= i < j < |s| :: s[i].id != s[j].id
  }

  function IdSet(s: seq<Genome>): set<nat> {
    set g | g in s :: g.id
  }

  /** `a` stands at an earlier position of `s` than `b`. */
  ghost predicate OccursBefore(s: seq<Genome>, a: Genome, b: Genome) {
    exists i, j | 0 <= i < j < |s| :: s[i] == a && s[j] == b
  }

  /** `t` is `s` with some elements left out and the rest in their original order. */
  ghost predicate Subsequence(t: seq<Genome>, s: seq<Genome>)
    decreases |s|
  {
    t == [] || (s != [] && ((t[0] == s[0] && Subsequence(t[1..], s[1..])) || Subsequence(t, s[1..])))
  }

  lemma {:induction false} SubsequenceMembers(t: seq<Genome>, s: seq<Genome>)
    requires Subsequence(t, s)
    ensures forall g | g in t :: g in s
    decreases |s|
  {
    if t != [] {
      if t[0] == s[0] && Subsequence(t[1..], s[1..]) {
        SubsequenceMembers(t[1..], s[1..]);
        forall g | g in t ensures g in s {
          if g != t[0] { assert g in t[1..]; }
        }
      } else {
        SubsequenceMembers(t, s[1..]);
      }
    }
  }

  /** A subsequence keeps the relative order of the elements it keeps. */
  lemma {:induction false} SubsequenceKeepsOrder(t: seq<Genome>, s: seq<Genome>, a: Genome, b: Genome)
    requires Subsequence(t, s) && OccursBefore(t, a, b)
    ensures OccursBefore(s, a, b)
    decreases |s|
  {
    var i, j :| 0 <= i < j < |t| && t[i] == a && t[j] == b;
    if t[0] == s[0] && Subsequence(t[1..], s[1..]) {
      if i == 0 {
        SubsequenceMembers(t[1..], s[1..]);
        assert b in t[1..] by { assert t[1..][j - 1] == b; }
        var k :| 0 <= k < |s[1..]| && s[1..][k] == b;
        assert s[0] == a && s[k + 1] == b;
      } else {
        assert t[1..][i - 1] == a && t[1..][j - 1] == b;
        SubsequenceKeepsOrder(t[1..], s[1..], a, b);
        var i', j' :| 0 <= i' < j' < |s[1..]| && s[1..][i'] == a && s[1..][j'] == b;
        assert s[i' + 1] == a && s[j' + 1] == b;
      }
    } else {
      SubsequenceKeepsOrder(t, s[1..], a, b);
      var i', j' :| 0 <= i' < j' < |s[1..]| && s[1..][i'] == a && s[1..][j'] == b;
      assert s[i' + 1] == a && s[j' + 1] == b;
    }
  }

  lemma IdSetCons(s: seq<Genome>)
    requires s != []
    ensures IdSet(s) == {s[0].id} + IdSet(s[1..])
  {
    forall g | g in s ensures g == s[0] || g in s[1..] {
      var k :| 0 <= k < |s| && s[k] == g;
      if k > 0 { assert s[1..][k - 1] == g; }
    }
  }

  lemma HeadIdFresh(s: seq<Genome>)
    requires s != [] && UniqueIds(s)
    ensures s[0].id !in IdSet(s[1..])
    ensures UniqueIds(s[1..])
  {
    forall g | g in s[1..] ensures g.id != s[0].id {
      var k :| 0 <= k < |s[1..]| && s[1..][k] == g;
      assert s[k + 1] == g;
    }
    forall i, j | 0 <= i < j < |s[1..]| ensures s[1..][i].id != s[1..][j].id {
      assert s[1..][i] == s[i + 1] && s[1..][j] == s[j + 1];
    }
  }

  lemma UniqueCons(x: Genome, s: seq<Genome>)
    requires UniqueIds(s) && x.id !in IdSet(s)
    ensures UniqueIds([x] + s)
  {
    var t := [x] + s;
    forall i, j | 0 <= i < j < |t| ensures t[i].id != t[j].id {
      assert t[j] == s[j - 1];
      if i > 0 { assert t[i] == s[i - 1]; }
      else { assert t[j] in s; }
    }
  }

  lemma {:induction false} IdSetAtMostLength(s: seq<Genome>)
    ensures |IdSet(s)| <= |s|
  {
    if s != [] {
      IdSetCons(s);
      IdSetAtMostLength(s[1..]);
    }
  }

  /** Ids are unique exactly when there are as many ids as genomes. */
  lemma {:induction false} UniqueIdsIffDistinctCount(s: seq<Genome>)
    ensures UniqueIds(s) <==> |IdSet(s)| == |s|
  {
    if s != [] {
      IdSetCons(s);
      IdSetAtMostLength(s[1..]);
      UniqueIdsIffDistinctCount(s[1..]);
      if s[0].id in IdSet(s[1..]) {
        // The head's id repeats, and the repeat also costs one distinct id.
        var g :| g in s[1..] && g.id == s[0].id;
        var k :| 0 <= k < |s[1..]| && s[1..][k] == g;
        assert s[k + 1].id == s[0].id;
      } else {
        if UniqueIds(s) {
          HeadIdFresh(s);
        }
        if UniqueIds(s[1..]) {
          assert s == [s[0]] + s[1..];
          UniqueCons(s[0], s[1..]);
        }
      }
    }
  }

  lemma {:induction false} SubsequenceKeepsUniqueIds(t: seq<Genome>, s: seq<Genome>)
    requires Subsequence(t, s) && UniqueIds(s)
    ensures UniqueIds(t)
    decreases |s|
  {
    if t != [] {
      HeadIdFresh(s);
      if t[0] == s[0] && Subsequence(t[1..], s[1..]) {
        SubsequenceKeepsUniqueIds(t[1..], s[1..]);
        SubsequenceMembers(t[1..], s[1..]);
        assert t == [t[0]] + t[1..];
        UniqueCons(t[0], t[1..]);
      } else {
        SubsequenceKeepsUniqueIds(t, s[1..]);
      }
    }
  }

  // ---------------------------------------------------------------------
  // this_species and count

  /**
   * `this_species`: the members of species `id`, in population order. The
   * source unwraps every genome's species, so all must be classified.
   */
  function ThisSpecies(pop: seq<Genome>, id: nat): (members: seq<Genome>)
    requires AllClassified(pop)
    ensures forall g :: g in members <==> g in pop && g.species == Some(id)
    ensures Subsequence(members, pop)
    ensures |members| <= |pop|
  {
    if pop == [] then
      []
    else if pop[0].species.value == id then
      [pop[0]] + ThisSpecies(pop[1..], id)
    else
      ThisSpecies(pop[1..], id)
  }

  lemma {:induction false} ThisSpeciesAppend(pop: seq<Genome>, x: Genome, id: nat)
    requires AllClassified(pop + [x])
    ensures ThisSpecies(pop + [x], id) ==
              ThisSpecies(pop, id) + (if x.species == Some(id) then [x] else [])
  {
    if pop != [] {
      assert (pop + [x])[1..] == pop[1..] + [x];
      ThisSpeciesAppend(pop[1..], x, id);
    } else {
      assert [x][1..] == [];
    }
  }

  /** The positions of the population that hold members of species `id`. */
  ghost function MemberPositions(pop: seq<Genome>, id: nat): set<nat> {
    set i: nat | i < |pop| && pop[i].species == Some(id)
  }

  lemma MemberPositionsSnoc(pop: seq<Genome>, id: nat)
    requires pop != []
    ensures |MemberPositions(pop, id)| ==
              |MemberPositions(pop[..|pop| - 1], id)| + (if pop[|pop| - 1].species == Some(id) then 1 else 0)
  {
    var q, x := pop[..|pop| - 1], pop[|pop| - 1];
    var extra: set<nat> := if x.species == Some(id) then {|q|} else {};
    assert MemberPositions(pop, id) == MemberPositions(q, id) + extra;
    assert |q| !in MemberPositions(q, id);
  }

  lemma ThisSpeciesSnoc(pop: seq<Genome>, id: nat)
    requires pop != [] && AllClassified(pop)
    ensures AllClassified(pop[..|pop| - 1])
    ensures |ThisSpecies(pop, id)| ==
              |ThisSpecies(pop[..|pop| - 1], id)| + (if pop[|pop| - 1].species == Some(id) then 1 else 0)
  {
    var q, x := pop[..|pop| - 1], pop[|pop| - 1];
    assert pop == q + [x];
    ThisSpeciesAppend(q, x, id);
  }

  lemma {:induction false} MemberPositionsCount(pop: seq<Genome>, id: nat)
    requires AllClassified(pop)
    ensures |MemberPositions(pop, id)| == |ThisSpecies(pop, id)|
    decreases |pop|
  {
    if pop != [] {
      ThisSpeciesSnoc(pop, id);
      MemberPositionsSnoc(pop, id);
      MemberPositionsCount(pop[..|pop| - 1], id);
    }
  }

  /**
   * `count`: how many genomes of the population belong to species `id`,
   * that is, the number of positions holding one.
   */
  function Count(pop: seq<Genome>, id: nat): (n: nat)
    requires AllClassified(pop)
    ensures n == |MemberPositions(pop, id)|
    ensures n <= |pop|
  {
    MemberPositionsCount(pop, id);
    |ThisSpecies(pop, id)|
  }

  // ---------------------------------------------------------------------
  // The stable sort of kill

  predicate SortedByFitness(s: seq<Genome>) {
    forall p, q | 0 <= p < q < |s| :: Fit(s[p]) <= Fit(s[q])
  }

  /** How many leading elements of `s` have a fitness strictly below `x`'s. */
  function InsertPosition(x: Genome, s: seq<Genome>): (m: nat)
    ensures m <= |s|
    ensures forall t | 0 <= t < m :: Fit(s[t]) < Fit(x)
    ensures m < |s| ==> Fit(x) <= Fit(s[m])
  {
    if s == [] || Fit(x) <= Fit(s[0]) then 0 else 1 + InsertPosition(x, s[1..])
  }

  /**
   * Puts `x` into the sorted `s` ahead of every element of equal fitness, so
   * that an element inserted later (one that came earlier in the input)
   * stays ahead of the ones already there.
   */
  function Insert(x: Genome, s: seq<Genome>): (r: seq<Genome>)
  {
    var m := InsertPosition(x, s);
    s[..m] + [x] + s[m..]
  }

  lemma InsertPermutes(x: Genome, s: seq<Genome>)
    ensures |Insert(x, s)| == |s| + 1
    ensures multiset(Insert(x, s)) == multiset(s) + multiset{x}
  {
    var m := InsertPosition(x, s);
    assert s == s[..m] + s[m..];
  }

  lemma InsertSorted(x: Genome, s: seq<Genome>)
    requires SortedByFitness(s)
    ensures SortedByFitness(Insert(x, s))
  {
    var m := InsertPosition(x, s);
    var r := Insert(x, s);
    assert |r| == |s| + 1;
    forall p, q | 0 <= p < q < |r| ensures Fit(r[p]) <= Fit(r[q]) {
      if q < m {
        assert r[p] == s[p] && r[q] == s[q];
      } else if q == m {
        assert r[p] == s[p] && r[q] == x;
      } else if p < m {
        assert r[p] == s[p] && r[q] == s[q - 1];
      } else if p == m {
        assert r[p] == x && r[q] == s[q - 1];
      } else {
        assert r[p] == s[p - 1] && r[q] == s[q - 1];
      }
    }
  }

  /**
   * The `sort_by` of kill: ascending by fitness. Rust's `sort_by` is stable,
   * which `StableSortIsStable` states: within each fitness class the input
   * order is kept.
   */
  function StableSort(s: seq<Genome>): (r: seq<Genome>)
    ensures |r| == |s| && multiset(r) == multiset(s)
    ensures SortedByFitness(r)
  {
    if s == [] then
      []
    else
      var t := StableSort(s[1..]);
      InsertPermutes(s[0], t);
      InsertSorted(s[0], t);
      assert s == [s[0]] + s[1..];
      Insert(s[0], t)
  }

  /** Sorting neither adds nor drops a genome. */
  lemma StableSortMembers(s: seq<Genome>)
    ensures forall g :: g in StableSort(s) <==> g in s
  {
    var r := StableSort(s);
    forall g ensures g in r <==> g in s {
      assert g in r <==> g in multiset(r);
      assert g in s <==> g in multiset(s);
    }
  }

  /** The elements of `s` whose fitness is `f`, in their order in `s`. */
  function FitnessClass(s: seq<Genome>, f: real): seq<Genome>
  {
    if s == [] then []
    else (if Fit(s[0]) == f then [s[0]] else []) + FitnessClass(s[1..], f)
  }

  lemma {:induction false} FitnessClassConcat(a: seq<Genome>, b: seq<Genome>, f: real)
    ensures FitnessClass(a + b, f) == FitnessClass(a, f) + FitnessClass(b, f)
  {
    if a == [] {
      assert a + b == b;
    } else {
      var head := if Fit(a[0]) == f then [a[0]] else [];
      assert (a + b)[0] == a[0] && (a + b)[1..] == a[1..] + b;
      assert FitnessClass(a + b, f) == head + FitnessClass(a[1..] + b, f);
      FitnessClassConcat(a[1..], b, f);
      assert FitnessClass(a, f) == head + FitnessClass(a[1..], f);
    }
  }

  lemma {:induction false} FitnessClassEmpty(a: seq<Genome>, f: real)
    requires forall i | 0 <= i < |a| :: Fit(a[i]) != f
    ensures FitnessClass(a, f) == []
  {
    if a != [] {
      FitnessClassEmpty(a[1..], f);
    }
  }

  /**
   * Inserting `x` puts it at the head of its fitness class and leaves every
   * class otherwise as it was.
   */
  lemma InsertFitnessClass(x: Genome, t: seq<Genome>, f: real)
    ensures FitnessClass(Insert(x, t), f) == (if Fit(x) == f then [x] else []) + FitnessClass(t, f)
  {
    var m := InsertPosition(x, t);
    assert t == t[..m] + t[m..];
    FitnessClassConcat(t[..m], t[m..], f);
    FitnessClassConcat(t[..m] + [x], t[m..], f);
    FitnessClassConcat(t[..m], [x], f);
    assert FitnessClass([x], f) == (if Fit(x) == f then [x] else []) + FitnessClass([], f);
    if Fit(x) == f {
      FitnessClassEmpty(t[..m], f);
    }
  }

  /**
   * Stability: for every fitness value, the genomes of that fitness appear
   * in the sorted list in exactly the order (and number) they have in the input.
   */
  lemma {:induction false} StableSortIsStable(s: seq<Genome>, f: real)
    ensures FitnessClass(StableSort(s), f) == FitnessClass(s, f)
    decreases |s|
  {
    if s != [] {
      StableSortIsStable(s[1..], f);
      InsertFitnessClass(s[0], StableSort(s[1..]), f);
    }
  }

  /** Equal-fitness elements of `r` stand in the order they have in `s`. */
  ghost predicate StableWrt(r: seq<Genome>, s: seq<Genome>) {
    forall p, q | 0 <= p < q < |r| && Fit(r[p]) == Fit(r[q]) :: OccursBefore(s, r[p], r[q])
  }

  lemma ShiftBefore(s: seq<Genome>, a: Genome, b: Genome)
    requires s != [] && OccursBefore(s[1..], a, b)
    ensures OccursBefore(s, a, b)
  {
    var i, j :| 0 <= i < j < |s[1..]| && s[1..][i] == a && s[1..][j] == b;
    assert s[i + 1] == a && s[j + 1] == b;
  }

  /**
   * The tie order `kill` relies on: of two equally fit genomes in the sorted
   * list, the first also occurs before the second in the input.
   */
  lemma {:induction false} StableSortKeepsTieOrder(s: seq<Genome>)
    ensures StableWrt(StableSort(s), s)
    decreases |s|
  {
    if s != [] {
      var x, t := s[0], StableSort(s[1..]);
      StableSortKeepsTieOrder(s[1..]);
      var m := InsertPosition(x, t);
      var r := StableSort(s);
      assert r == t[..m] + [x] + t[m..];
      forall p, q | 0 <= p < q < |r| && Fit(r[p]) == Fit(r[q])
        ensures OccursBefore(s, r[p], r[q])
      {
        if p == m {
          assert r[p] == x && r[q] == t[q - 1];
          assert t[q - 1] in multiset(s[1..]);
          var k :| 0 <= k < |s[1..]| && s[1..][k] == r[q];
          assert s[0] == r[p] && s[k + 1] == r[q];
        } else if q == m {
          assert false;
        } else {
          var p', q' := if p < m then p else p - 1, if q < m then q else q - 1;
          assert r[p] == t[p'] && r[q] == t[q'] && p' < q';
          ShiftBefore(s, r[p], r[q]);
        }
      }
    }
  }

  // ---------------------------------------------------------------------
  // kill

  /**
   * `(n as f32 * kill_percent) as usize`: the product rounded toward zero;
   * the saturating cast turns a negative product into 0.
   */
  function ToRemove(n: nat, killPercent: real): (k: nat)
    ensures n as real * killPercent <= 0.0 ==> k == 0
    ensures n as real * killPercent > 0.0 ==>
              k as real <= n as real * killPercent < k as real + 1.0
  {
    var x := n as real * killPercent;
    if x <= 0.0 then 0 else x.Floor
  }

  lemma ToRemoveAtMostCount(n: nat, killPercent: real)
    requires 0.0 <= killPercent <= 1.0
    ensures ToRemove(n, killPercent) <= n
  {
    assert n as real * killPercent <= n as real * 1.0;
  }

  function Ids(s: seq<Genome>): (ids: seq<nat>)
    ensures |ids| == |s|
    ensures forall i | 0 <= i < |s| :: ids[i] == s[i].id
  {
    seq(|s|, i requires 0 <= i < |s| => s[i].id)
  }

  /**
   * The ids `kill` removes: those of the first `to_remove` members of the
   * species once sorted by fitness (all of them if there are fewer).
   */
  function KillList(pop: seq<Genome>, id: nat, killPercent: real): (remove: seq<nat>)
    requires AllClassified(pop) && FitnessKnown(ThisSpecies(pop, id))
    ensures |remove| == Min(ToRemove(Count(pop, id), killPercent), Count(pop, id))
    ensures forall x | x in remove :: x in IdSet(ThisSpecies(pop, id))
  {
    var species := ThisSpecies(pop, id);
    var toRemove := ToRemove(|species|, killPercent);
    var sorted := StableSort(species);
    var victims := sorted[..Min(toRemove, |sorted|)];
    StableSortMembers(species);
    Ids(victims)
  }

  /** `retain(|x| !remove.contains(&x.id))`. */
  function Retain(pop: seq<Genome>, remove: seq<nat>): (kept: seq<Genome>)
    ensures forall g :: g in kept <==> g in pop && g.id !in remove
    ensures forall g :: multiset(kept)[g] == if g.id in remove then 0 else multiset(pop)[g]
    ensures Subsequence(kept, pop)
  {
    if pop == [] then
      []
    else
      assert pop == [pop[0]] + pop[1..];
      if pop[0].id !in remove then
        [pop[0]] + Retain(pop[1..], remove)
      else
        Retain(pop[1..], remove)
  }

  /** With unique ids, `retain` drops one genome per listed id that is present. */
  lemma {:induction false} RetainDropsListed(pop: seq<Genome>, remove: seq<nat>)
    requires UniqueIds(pop)
    ensures |pop| == |Retain(pop, remove)| + |IdSet(pop) * set x | x in remove|
  {
    if pop != [] {
      IdSetCons(pop);
      HeadIdFresh(pop);
      RetainDropsListed(pop[1..], remove);
      var listed := set x | x in remove;
      if pop[0].id in remove {
        assert IdSet(pop) * listed == {pop[0].id} + IdSet(pop[1..]) * listed;
      } else {
        assert IdSet(pop) * listed == IdSet(pop[1..]) * listed;
      }
    }
  }

  lemma StableSortKeepsUniqueIds(s: seq<Genome>)
    requires UniqueIds(s)
    ensures UniqueIds(StableSort(s))
  {
    var r := StableSort(s);
    StableSortMembers(s);
    UniqueIdsIffDistinctCount(s);
    assert IdSet(r) == IdSet(s);
    UniqueIdsIffDistinctCount(r);
  }

  lemma IdsCoverIdSet(t: seq<Genome>)
    ensures (set x | x in Ids(t)) == IdSet(t)
  {
    forall x | x in Ids(t) ensures x in IdSet(t) {
      var i :| 0 <= i < |t| && Ids(t)[i] == x;
      assert t[i] in t;
    }
    forall x | x in IdSet(t) ensures x in Ids(t) {
      var g :| g in t && g.id == x;
      var i :| 0 <= i < |t| && t[i] == g;
      assert Ids(t)[i] == x;
    }
  }

  lemma PrefixDistinctIds(t: seq<Genome>, k: nat)
    requires UniqueIds(t) && k <= |t|
    ensures |IdSet(t[..k])| == k
  {
    assert UniqueIds(t[..k]);
    UniqueIdsIffDistinctCount(t[..k]);
  }

  lemma RetainDropsAllListed(pop: seq<Genome>, remove: seq<nat>)
    requires UniqueIds(pop) && forall x | x in remove :: x in IdSet(pop)
    ensures |pop| - |Retain(pop, remove)| == |set x | x in remove|
  {
    RetainDropsListed(pop, remove);
    assert IdSet(pop) * (set x | x in remove) == (set x | x in remove);
  }

  /** The sort-and-take selection behind `KillList`, as used by the kill lemmas. */
  lemma KillListVictims(pop: seq<Genome>, id: nat, killPercent: real)
    requires AllClassified(pop) && FitnessKnown(ThisSpecies(pop, id)) && UniqueIds(pop)
    ensures var sorted := StableSort(ThisSpecies(pop, id));
            var k := Min(ToRemove(|sorted|, killPercent), |sorted|);
            && UniqueIds(sorted)
            && KillList(pop, id, killPercent) == Ids(sorted[..k])
            && (set x | x in KillList(pop, id, killPercent)) == IdSet(sorted[..k])
            && |IdSet(sorted[..k])| == k
  {
    var species := ThisSpecies(pop, id);
    var sorted := StableSort(species);
    var k := Min(ToRemove(|sorted|, killPercent), |sorted|);
    SubsequenceKeepsUniqueIds(species, pop);
    StableSortKeepsUniqueIds(species);
    PrefixDistinctIds(sorted, k);
    IdsCoverIdSet(sorted[..k]);
  }

  /**
   * With unique genome ids, `kill` removes exactly `to_remove` genomes
   * (capped at the species size), that is `floor(n * kill_percent)` for a
   * percentage between 0 and 1.
   */
  lemma KillRemovesExactly(pop: seq<Genome>, id: nat, killPercent: real)
    requires AllClassified(pop) && FitnessKnown(ThisSpecies(pop, id)) && UniqueIds(pop)
    ensures |pop| - |Retain(pop, KillList(pop, id, killPercent))| ==
              Min(ToRemove(Count(pop, id), killPercent), Count(pop, id))
    ensures 0.0 <= killPercent <= 1.0 ==>
              |pop| - |Retain(pop, KillList(pop, id, killPercent))| == ToRemove(Count(pop, id), killPercent)
  {
    var remove := KillList(pop, id, killPercent);
    KillListVictims(pop, id, killPercent);
    assert forall x | x in remove :: x in IdSet(pop) by {
      forall x | x in remove ensures x in IdSet(pop) {
        var g :| g in ThisSpecies(pop, id) && g.id == x;
      }
    }
    RetainDropsAllListed(pop, remove);
    if 0.0 <= killPercent <= 1.0 {
      ToRemoveAtMostCount(Count(pop, id), killPercent);
    }
  }

  /** A genome `kill` removes is one of the first `k` members in sorted order. */
  lemma RemovedIsVictim(pop: seq<Genome>, id: nat, killPercent: real, g: Genome)
    requires AllClassified(pop) && FitnessKnown(ThisSpecies(pop, id)) && UniqueIds(pop)
    requires g in pop && g !in Retain(pop, KillList(pop, id, killPercent))
    ensures var sorted := StableSort(ThisSpecies(pop, id));
            g in sorted[..Min(ToRemove(|sorted|, killPercent), |sorted|)]
  {
    var sorted := StableSort(ThisSpecies(pop, id));
    var k := Min(ToRemove(|sorted|, killPercent), |sorted|);
    KillListVictims(pop, id, killPercent);
    StableSortMembers(ThisSpecies(pop, id));
    assert g.id in IdSet(sorted[..k]);
    var v :| v in sorted[..k] && v.id == g.id;
    assert v in pop;
    var i :| 0 <= i < |pop| && pop[i] == g;
    var i' :| 0 <= i' < |pop| && pop[i'] == v;
    assert i == i';
  }

  /** A surviving member of the species comes after the first `k` in sorted order. */
  lemma SurvivorIsNotVictim(pop: seq<Genome>, id: nat, killPercent: real, h: Genome)
    requires AllClassified(pop) && FitnessKnown(ThisSpecies(pop, id)) && UniqueIds(pop)
    requires h in Retain(pop, KillList(pop, id, killPercent)) && h.species == Some(id)
    ensures var sorted := StableSort(ThisSpecies(pop, id));
            exists q | Min(ToRemove(|sorted|, killPercent), |sorted|) <= q < |sorted| :: sorted[q] == h
  {
    var sorted := StableSort(ThisSpecies(pop, id));
    var k := Min(ToRemove(|sorted|, killPercent), |sorted|);
    KillListVictims(pop, id, killPercent);
    StableSortMembers(ThisSpecies(pop, id));
    assert h in sorted;
    assert h.id !in IdSet(sorted[..k]);
    forall t | 0 <= t < k ensures sorted[t] != h {
      assert sorted[t] in sorted[..k];
    }
    var q :| 0 <= q < |sorted| && sorted[q] == h;
  }

  /**
   * Every genome `kill` removes belongs to the species and is no fitter than
   * any surviving member; between equally fit members, the one earlier in
   * the population goes first.
   */
  lemma KillRemovesLeastFit(pop: seq<Genome>, id: nat, killPercent: real, g: Genome, h: Genome)
    requires AllClassified(pop) && FitnessKnown(ThisSpecies(pop, id)) && UniqueIds(pop)
    requires g in pop && g !in Retain(pop, KillList(pop, id, killPercent))
    requires h in Retain(pop, KillList(pop, id, killPercent)) && h.species == Some(id)
    ensures g.species == Some(id) && g.fitness.Some? && h.fitness.Some?
    ensures Fit(g) <= Fit(h)
    ensures Fit(g) == Fit(h) ==> OccursBefore(pop, g, h)
  {
    var species := ThisSpecies(pop, id);
    var sorted := StableSort(species);
    var k := Min(ToRemove(|sorted|, killPercent), |sorted|);
    RemovedIsVictim(pop, id, killPercent, g);
    SurvivorIsNotVictim(pop, id, killPercent, h);
    var p :| 0 <= p < k && sorted[p] == g;
    var q :| k <= q < |sorted| && sorted[q] == h;
    StableSortMembers(species);
    assert g in species;
    if Fit(g) == Fit(h) {
      StableSortKeepsTieOrder(species);
      assert OccursBefore(species, g, h);
      SubsequenceKeepsOrder(species, pop, g, h);
    }
  }

  /**
   * `kill` touches only the species: with unique ids, every genome of
   * another species survives. Survivors keep their order, by
   * `Retain`'s contract.
   */
  lemma KillSparesOtherSpecies(pop: seq<Genome>, id: nat, killPercent: real)
    requires AllClassified(pop) && FitnessKnown(ThisSpecies(pop, id)) && UniqueIds(pop)
    ensures forall g | g in pop && g.species != Some(id) ::
              g in Retain(pop, KillList(pop, id, killPercent))
  {
    var species := ThisSpecies(pop, id);
    var remove := KillList(pop, id, killPercent);
    forall g | g in pop && g.species != Some(id)
      ensures g in Retain(pop, remove)
    {
      forall v | v in species ensures v.id != g.id {
        var i :| 0 <= i < |pop| && pop[i] == g;
        var i' :| 0 <= i' < |pop| && pop[i'] == v;
        assert i != i';
      }
      assert g.id !in IdSet(species);
    }
  }

  /** Retaining leaves a species alone when none of its members' ids is listed. */
  lemma {:induction false} RetainKeepsUnlistedSpecies(pop: seq<Genome>, remove: seq<nat>, other: nat)
    requires AllClassified(pop)
    requires forall g | g in pop && g.species == Some(other) :: g.id !in remove
    ensures AllClassified(Retain(pop, remove))
    ensures ThisSpecies(Retain(pop, remove), other) == ThisSpecies(pop, other)
  {
    if pop != [] {
      assert AllClassified(pop[1..]) by { forall g | g in pop[1..] ensures g in pop { } }
      RetainKeepsUnlistedSpecies(pop[1..], remove, other);
      if pop[0].id !in remove {
        assert Retain(pop, remove)[1..] == Retain(pop[1..], remove);
      }
    }
  }

  /**
   * With unique ids, the member list of every other species is the same,
   * in the same order, after `kill` as before it.
   */
  lemma KillKeepsOtherSpecies(pop: seq<Genome>, id: nat, killPercent: real, other: nat)
    requires AllClassified(pop) && FitnessKnown(ThisSpecies(pop, id)) && UniqueIds(pop)
    requires other != id
    ensures AllClassified(Retain(pop, KillList(pop, id, killPercent)))
    ensures ThisSpecies(Retain(pop, KillList(pop, id, killPercent)), other) == ThisSpecies(pop, other)
  {
    KillSparesOtherSpecies(pop, id, killPercent);
    RetainKeepsUnlistedSpecies(pop, KillList(pop, id, killPercent), other);
  }

  // ---------------------------------------------------------------------
  // update_fitness

  function SumFitness(s: seq<Genome>): real
    decreases |s|
  {
    if s == [] then 0.0
    else
      SumFitness(s[..|s| - 1]) + Fit(s[|s| - 1])
  }

  /**
   * The mean member fitness. For an empty species the source computes
   * 0.0 / 0.0, a NaN, which it replaces by 0.
   */
  function MeanFitness(s: seq<Genome>): real
    requires FitnessKnown(s)
  {
    if |s| == 0 then 0.0 else SumFitness(s) / |s| as real
  }

  lemma ScaleSucc(k: nat, x: real)
    ensures (k + 1) as real * x == k as real * x + x
  {
  }

  lemma {:induction false} SumFitnessBounds(s: seq<Genome>, lo: real, hi: real)
    requires forall g | g in s :: lo <= Fit(g) <= hi
    ensures |s| as real * lo <= SumFitness(s) <= |s| as real * hi
    decreases |s|
  {
    if s != [] {
      var q := s[..|s| - 1];
      assert forall g | g in q :: g in s;
      SumFitnessBounds(q, lo, hi);
      assert s[|s| - 1] in s;
      var k := |q|;
      assert |s| == k + 1;
      assert SumFitness(s) == SumFitness(q) + Fit(s[k]);
      ScaleSucc(k, lo);
      ScaleSucc(k, hi);
    }
  }

  /** The species fitness lies between the lowest and the highest member fitness. */
  lemma MeanFitnessBounds(s: seq<Genome>, lo: real, hi: real)
    requires FitnessKnown(s) && s != []
    requires forall g | g in s :: lo <= Fit(g) <= hi
    ensures lo <= MeanFitness(s) <= hi
  {
    SumFitnessBounds(s, lo, hi);
    QuotientBounds(SumFitness(s), |s| as real, lo, hi);
  }

  lemma QuotientBounds(a: real, n: real, lo: real, hi: real)
    requires n > 0.0 && n * lo <= a <= n * hi
    ensures lo <= a / n <= hi
  {
    assert a / n - lo == (a - n * lo) / n;
    assert hi - a / n == (n * hi - a) / n;
  }

  // ---------------------------------------------------------------------
  // The shared state

  /** The parts of the trainer the species code reaches through its owner genome. */
  class Trainer {
    const innovator: Innovations
    const populationKillPercent: real
    var gen: nat
    var agents: seq<Genome>

    constructor (innovator: Innovations, populationKillPercent: real, gen: nat, agents: seq<Genome>)
      ensures this.innovator == innovator && this.populationKillPercent == populationKillPercent
      ensures this.gen == gen && this.agents == agents
    {
      this.innovator := innovator;
      this.populationKillPercent := populationKillPercent;
      this.gen := gen;
      this.agents := agents;
    }
  }

  class Specie {
    const id: nat
    /** The genome that classifies the species. */
    var owner: Genome
    var count: nat
    /** The generation at which the species was created. */
    const age: nat
    var fitness: Option<real>
    /** The number of generations the fitness has not gone up. */
    var stagnant: nat
    const trainer: Trainer

    constructor Init(id: nat, owner: Genome, age: nat, trainer: Trainer)
      ensures this.id == id && this.owner == owner && this.age == age && this.trainer == trainer
      ensures count == 0 && fitness == None && stagnant == 0
    {
      this.id := id;
      this.owner := owner;
      this.age := age;
      this.trainer := trainer;
      count := 0;
      fitness := None;
      stagnant := 0;
    }

    /**
     * `Specie::new`: takes the next species id from the registry and returns
     * it beside a species with that id, no members counted, no fitness yet
     * and created in the current generation.
     */
    static method New(owner: Genome, trainer: Trainer) returns (id: nat, s: Specie)
      requires trainer.innovator.Valid()
      modifies trainer.innovator
      ensures trainer.innovator.Valid()
      ensures (trainer.innovator.Model(), id) == SpecieStep(old(trainer.innovator.Model()))
      ensures fresh(s) && s.id == id && s.owner == owner && s.trainer == trainer
      ensures s.count == 0 && s.fitness == None && s.stagnant == 0 && s.age == trainer.gen
    {
      id := trainer.innovator.NewSpecie();
      s := new Specie.Init(id, owner, trainer.gen, trainer);
    }

    /** `kill`: removes the lowest-fitness `to_remove` members from the population. */
    method Kill()
      requires AllClassified(trainer.agents) && FitnessKnown(ThisSpecies(trainer.agents, id))
      modifies trainer`agents
      ensures trainer.agents ==
                Retain(old(trainer.agents), KillList(old(trainer.agents), id, trainer.populationKillPercent))
    {
      var species := ThisSpecies(trainer.agents, id);
      var toRemove := ToRemove(|species|, trainer.populationKillPercent);
      var sorted := StableSort(species);
      var remove := Ids(sorted[..Min(toRemove, |sorted|)]);
      trainer.agents := Retain(trainer.agents, remove);
    }

    /**
     * `update_fitness`: the species fitness becomes the mean member fitness;
     * the stagnation counter goes up unless that mean beats the previous
     * fitness (0 if there was none), in which case it restarts at 0.
     */
    method UpdateFitness()
      requires AllClassified(trainer.agents) && FitnessKnown(ThisSpecies(trainer.agents, id))
      modifies this`fitness, this`stagnant
      ensures fitness == Some(MeanFitness(ThisSpecies(trainer.agents, id)))
      ensures stagnant ==
                if MeanFitness(ThisSpecies(trainer.agents, id)) <= old(fitness).GetOr(0.0)
                then old(stagnant) + 1 else 0
    {
      var species := ThisSpecies(trainer.agents, id);
      var len := |species|;
      var sum := 0.0;
      for i := 0 to len
        invariant sum == SumFitness(species[..i])
      {
        assert species[..i + 1][..i] == species[..i];
        sum := sum + species[i].fitness.value;
      }
      assert species[..len] == species;
      // sum / len is 0.0 / 0.0 (NaN) for an empty species, replaced by 0.
      var mean := if len == 0 then 0.0 else sum / len as real;
      if mean <= fitness.GetOr(0.0) {
        stagnant := stagnant + 1;
      } else {
        stagnant := 0;
      }
      fitness := Some(mean);
    }
  }
}
