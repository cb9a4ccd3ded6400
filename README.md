# Innovation registry and species bookkeeping of a NEAT trainer

This project models two stateful parts of a NEAT-style neuroevolution engine.
NEAT evolves neural networks whose topology changes over time.

- **The innovation registry** (`Innovations`). One registry exists per training
  run. It maps each ordered node pair `(from, to)` to an edge-innovation id,
  handing out the next id the first time a pair is seen. This way, identical
  structural mutations in different genomes share an id. It also keeps two
  plain counters, one for species ids and one for genome ids.
- **Species bookkeeping** (`Specie`). A species has an id, a representative
  genome, a creation generation, a last fitness and a stagnation counter. Its
  operations read and update the trainer's shared population:
  - `this_species` and `count` select and count the members.
  - `kill` culls the lowest-fitness fraction of the members from the population.
  - `update_fitness` sets the species fitness to the mean member fitness and
    advances or resets the stagnation counter.

`innovation.dfy` (module `Innovation`) models the registry in two layers:

- `Registry` is the registry's state as a value.
- `EdgeStep`, `SpecieStep` and `GenomeStep` are the transitions that
  `new_edge`, `new_specie` and `new_genome` make. The lemmas are proved about
  these transitions.
- `Innovations` is a class with the same four fields. Each of its methods is
  proved to make exactly the corresponding transition, and each keeps the
  invariant `WellFormed`. The invariant says:
  - the recorded ids are exactly `0 .. edgeCount-1`;
  - no two pairs share an id;
  - the map has `edgeCount` entries.

`species.dfy` (module `Species`) models a genome as a record of the three fields
this code uses: `id`, `species: Option<nat>` and `fitness: Option<real>`.

- A small `Trainer` class holds the shared state the species code reaches
  through its owner genome: the population `agents`, the generation `gen`, the
  registry and the `population_kill_percent` parameter.
- `this_species` and `count` only read the population. They are modelled as
  functions of the population and the species id.
- The selection inside `kill` is modelled as pure functions: a stable sort by
  fitness, then taking a prefix of ids.
- `Specie.Kill` and `Specie.UpdateFitness` are methods that update the
  trainer's population and the species' own fields.

The source's `Specie` reads `owner.trainer`, `genome.id`, `genome.species` and
`genome.fitness`. The genome type in `src/genome.rs` has none of these fields:
it is a generic node/gene graph. The model follows `src/species.rs` and uses an
abstract genome record with just those fields.

## Model

`SumFitness` and `MeanFitness` are the specification functions of `update_fitness` (src/species.rs:62-71): the sum of the member fitnesses, and that sum divided by the member count, or 0 for an empty species. `FitnessClass(s, f)` is the list of elements of `s` with fitness `f`, in order. The class `Trainer` stands for what the species code reaches through `owner.trainer`: the population `agents`, the generation `gen`, the registry `innovator` and `config.population_kill_percent`.

| member | source | states |
|---|---|---|
| `Innovation.Fresh` | src/innovation.rs:25-32 | A new registry has an empty edge map and all three counters at 0, and it satisfies the edge-map invariant. |
| `Innovation.FreshIdsAreZero` | src/innovation.rs:25-49 | On a fresh registry, the first `new_edge`, `new_specie` and `new_genome` calls each return 0. |
| `Innovation.EdgeStep` | src/innovation.rs:35-41 | `new_edge(x)` returns the id recorded for `x`. If `x` was already present, the counter is unchanged. If not, the id is the old edge counter and the counter goes up by one. Exactly `x` is added to the keys, earlier entries keep their ids, the species and genome counters are untouched, and a well-formed registry stays well-formed with the id below the counter. |
| `Innovation.EdgeStepIdempotent` | src/innovation.rs:35-41 | A second `new_edge` with the same pair returns the same id and leaves the registry unchanged. |
| `Innovation.EdgeStepDirected` | src/innovation.rs:35-41 | When both `(a, b)` and `(b, a)` are new, they are separate keys and receive different ids. |
| `Innovation.EdgeRunRecords` | src/innovation.rs:35-41 | For any run of `new_edge` calls: each returned id is the one finally recorded for its pair, earlier entries never change, the edge counter never decreases, the species and genome counters are untouched, and the invariant holds at the end of every run from a well-formed registry. |
| `Innovation.EdgeRunIdsMatchPairs` | src/innovation.rs:35-41 | In a run of `new_edge` calls, two calls return the same id if and only if they were made with the same pair. |
| `Innovation.SpecieStep` | src/innovation.rs:43-45 | `new_specie` returns the old species counter and raises it by exactly one. The edge map, the edge counter and the genome counter are unchanged. |
| `Innovation.GenomeStep` | src/innovation.rs:47-49 | `new_genome` returns the old genome counter and raises it by exactly one. The edge map, the edge counter and the species counter are unchanged. |
| `Innovation.CountersIncrease` | src/innovation.rs:43-49 | Two successive species ids strictly increase, and so do two successive genome ids. |
| `Innovation.Innovations.constructor` | src/innovation.rs:25-32 | The new object's state is the fresh registry and satisfies the invariant. |
| `Innovation.Innovations.NewEdge` | src/innovation.rs:35-41 | The insert-if-absent on the map plus the counter increment make exactly the `EdgeStep` transition and keep the invariant. |
| `Innovation.Innovations.NewSpecie` | src/innovation.rs:43-45 | The post-increment makes exactly the `SpecieStep` transition and keeps the invariant. |
| `Innovation.Innovations.NewGenome` | src/innovation.rs:47-49 | The post-increment makes exactly the `GenomeStep` transition and keeps the invariant. |
| `Species.Specie.Init` | src/species.rs:29-36 | The struct literal: the species gets the given id, owner, age and trainer, with `count = 0`, no fitness and `stagnant = 0`. |
| `Species.Specie.New` | src/species.rs:24-38 | The returned id is the new species' own id, and it is the value `new_specie` handed out. The registry makes the `SpecieStep` transition. The species starts with the given owner, `count = 0`, no fitness, `stagnant = 0` and the trainer's current generation as its age. |
| `Species.ThisSpecies` | src/species.rs:88-97 | The result contains a genome if and only if that genome is in the population and belongs to the species. It is a subsequence of the population, so population order is kept. Every genome must have a species, because the source unwraps it. |
| `Species.Count` | src/species.rs:84-86 | The count equals the number of population positions whose genome belongs to the species, and it never exceeds the population size. |
| `Species.StableSort` | src/species.rs:45 | The result is a permutation of the members (same multiset, same length), ascending by fitness. |
| `Species.StableSortIsStable` | src/species.rs:45 | For every fitness value `f`, the members of fitness `f` form the same sequence (same genomes, same order, same copies) in the sorted list as in the input, as with Rust's stable `sort_by`. |
| `Species.StableSortKeepsTieOrder` | src/species.rs:45 | Of two equally fit genomes in the sorted list, the first also occurs before the second in the input; this is the form `KillRemovesLeastFit` uses. |
| `Species.ToRemove` | src/species.rs:43-44 | A positive `n * kill_percent` is rounded down to a natural number. A product of 0 or below gives 0, which is the saturating float-to-`usize` cast. |
| `Species.ToRemoveAtMostCount` | src/species.rs:43-44 | For a kill percent between 0 and 1, `to_remove` is at most the species size. |
| `Species.KillList` | src/species.rs:42-50 | The removal list has `min(to_remove, n)` ids, where `n` is the species size (this is `take`). Every id on it belongs to a member of the species. |
| `Species.Retain` | src/species.rs:51-55 | A genome survives if and only if it was in the population and its id is not on the removal list. Every copy of an unlisted genome survives and no copy of a listed one does, so each genome's multiplicity is either kept or zero. The survivors form a subsequence of the population, in their original order. |
| `Species.KillRemovesExactly` | src/species.rs:42-55 | With unique genome ids, `kill` removes exactly `min(floor(n * p), n)` genomes. For `0 <= p <= 1` this is exactly `floor(n * p)`. |
| `Species.KillRemovesLeastFit` | src/species.rs:45-50 | With unique ids, every removed genome belongs to the species and has fitness no greater than every surviving member. A removed genome whose fitness equals a survivor's stands earlier in the population. |
| `Species.KillSparesOtherSpecies` | src/species.rs:51-55 | With unique ids, every genome of another species survives `kill`. |
| `Species.KillKeepsOtherSpecies` | src/species.rs:51-55 | With unique ids, every other species has the same member list after `kill` as before, in the same order. |
| `Species.Specie.Kill` | src/species.rs:41-56 | The population becomes the old population with the genomes whose ids are on `KillList` removed by `Retain`. Nothing else changes. |
| `Species.MeanFitnessBounds` | src/species.rs:59-71 | The mean member fitness of a non-empty species lies between any lower and upper bound of its members' fitnesses. |
| `Species.Specie.UpdateFitness` | src/species.rs:59-80 | The loop sums the member fitnesses. The species fitness becomes `Some(mean)`, with 0 for an empty species because of the NaN guard. `stagnant` restarts at 0 exactly when the mean is strictly greater than the previous fitness (a missing fitness counts as 0); otherwise it goes up by one. |

## Left out

- Atomics, `Mutex` and `RwLock` in both files: all calls are modelled as sequential. The model says nothing about concurrent callers.
- `f32` arithmetic: fitness and the kill percent are `real`. Rounding, overflow and infinities are not modelled. NaN appears only as the empty-species `0.0 / 0.0`, which the source replaces by 0, and the model does the same.
- Species.Specie.Kill: requires every member of the species to have a fitness. It does not model the panic of `unwrap` or `partial_cmp(..).unwrap()` on a missing fitness or a NaN. The requirement also excludes a one-member species without a fitness, where the source does not panic, because `sort_by` makes no comparison on fewer than two elements; the same holds for `KillList`.
- Species.Specie.UpdateFitness: requires every member of the species to have a fitness, for the same reason: the source unwraps it.
- Species.StableSort: Rust's merge sort is modelled by an insertion sort. Both are stable and so yield the same order, but the model does not capture how the sort reaches it. A missing fitness reads as 0 here; `KillList` and `Kill` require every member to have a fitness, so the sort is never applied to a member without one.
- Species.KillRemovesExactly: holds only when genome ids are unique. `retain` removes every genome whose id is listed, so with duplicate ids it can remove more genomes.
- Species.KillRemovesLeastFit: holds only when genome ids are unique, for the same reason.
- Species.KillSparesOtherSpecies: holds only when genome ids are unique. With duplicate ids, a genome of another species that shares a victim's id is removed too.
- Species.KillKeepsOtherSpecies: holds only when genome ids are unique, for the same reason.
- The `count` field of `Specie` is never updated by this code. The model keeps it and sets it to 0 at creation.
- `usize` bounds on the counters: the counters are unbounded naturals, so the model does not capture `fetch_add` wrap-around.
- `src/trainer.rs` (a wrapper around caller-supplied closures), `src/misc.rs` (float sign formatting), `src/main.rs` (a demo), `src/config.rs` (parameter defaults) and `src/genome.rs` (graph type declarations) have no behaviour used here and are not modelled. Only `population_kill_percent` from the configuration appears, as a field of `Trainer`.
