# FindThePhrase in Dafny

A model of the evolution engine of FindThePhrase. The engine is a genetic
algorithm that evolves a population of candidate strings ("chromosomes")
until one spells a target phrase. The model covers:

- the `Genetic` class: population initialisation, fitness evaluation,
  ranking, crossover, mutation and the convergence test;
- the `Chromosome` record;
- the sampling-without-replacement helper `RandomUtils.MultiSample`.

The C# code changes state in place, and the model keeps that form.
`Chromosome` and `Genetic` are Dafny classes. The population is a
`seq<Chromosome>` field. Phrases and fitness values are updated through object
references, and every loop in the source is a `while`/`for` loop with
invariants. Each method is proved against value-level specification functions.
Properties relating several calls are proved as lemmas about those functions:

- `Evolution.MatchCount` specifies fitness.
- `Evolution.Recombine` specifies one crossover stage.
- `Evolution.MutatePhrases` specifies one mutation stage.
- `Utils.Draw` specifies sampling.

Modules:

- `DotNet` (`dotnet.dfy`): the few .NET semantics the code relies on.
  - `Random.Next(n)` returns a value in `[0, n)`, or 0 for `n == 0`.
  - `Random.Next(a, b)` returns a value in `[a, b)`, returns `a` when `a == b`,
    and throws when `a > b`.
  - C#'s integer division truncates toward zero.
  - `int` multiplication wraps at 32 bits.
- `DataStructures` (`chromosome.dfy`): the `Chromosome` class.
- `Utils` (`random_utils.dfy`): `MultiSample`, its specification `Draw`, and
  the sequence facts its contract uses.
- `Evolution` (`evolution.dfy`): the value-level specifications and their lemmas.
- `FindThePhrase` (`genetic.dfy`): the `Genetic` class and the loops of its
  crossover and mutation.

Randomness is not modelled as a generator. Each operation receives the values
its `Random` calls return:

- one sequence of gene positions per chromosome for `InitPopulation`;
- one `Mating` (two parents, two slots) per couple for `Crossover`;
- one `MutationPick` (chromosome, two gene-set draws, gene position) per step
  for `Mutation`.

Predicates such as `MatingsDrawn` and `MutationsDrawn` state that these values
are ones the `Random` calls can actually return.

`Random.Next`'s upper bound is exclusive, so the code leaves some positions
alone whenever a range is non-empty. It then never picks the chromosome at
`PopulationLimit / 2 - 1` as a parent, and never overwrites or mutates the
last chromosome at `PopulationLimit - 1`. When a range is empty, `Next(a, a)`
returns `a`, and that bound is used after all. With `PopulationLimit` 2 or 3,
the parent is always 0, which is `PopulationLimit / 2 - 1`. With
`PopulationLimit` 2, the slot written is 1, the last one. With
`Elitsim == PopulationLimit - 1`, the last chromosome is the one mutated. The
model keeps these bounds exactly as written. `CrossoverParentsDrawn`,
`CrossoverSparesParents` and `MutationSparesElite` state the positions each
stage uses and leaves alone, with the empty-range cases included.

The comment above `SortPopulation` (`Genetic.cs:95`) says "ascending". The
comparator `ind2.Fitness.CompareTo(ind1.Fitness)` sorts by fitness,
descending. The model follows the code: `Ranked` means best first.

## Model

| member | source | states |
|---|---|---|
| DotNet.IsNextBelow | FindThePhrase/Genetic.cs:160 | `Random.Next(n)` returns a value below `n`, except 0 for `n == 0`, and throws for negative `n` |
| DotNet.IsNextBetween | FindThePhrase/Genetic.cs:149 | `Random.Next(lo, hi)` returns at most `hi`, and `hi` only when `lo == hi`; it throws for `lo > hi` |
| DotNet.Quot | FindThePhrase/Genetic.cs:112-113 | C# `int` division: the magnitude is the floor quotient of the magnitudes, the sign that of the exact quotient |
| DotNet.Wrap32 | FindThePhrase/Genetic.cs:145 | unchecked 32-bit `int` arithmetic: in range, congruent modulo 2^32, and unchanged when the value fits |
| DataStructures.Chromosome.constructor | FindThePhrase/DataStructures/Chromosome.cs:8-11 | both properties hold the given phrase and fitness |
| DataStructures.Chromosome.SetPhrase | FindThePhrase/DataStructures/Chromosome.cs:5 | the phrase setter changes the phrase only; the fitness is untouched |
| DataStructures.Chromosome.SetFitness | FindThePhrase/DataStructures/Chromosome.cs:6 | the fitness setter changes the fitness only; the phrase is untouched |
| Utils.RemoveAt | FindThePhrase/Utils/RandomUtils.cs:16 | `List.RemoveAt`: one element shorter; elements before the index stay put, those after move down by one |
| Utils.RemoveAtMultiset | FindThePhrase/Utils/RandomUtils.cs:15-16 | the removed element plus what remains is exactly the original multiset |
| Utils.RemoveAtIsSubsequence | FindThePhrase/Utils/RandomUtils.cs:16 | removal keeps the remaining elements in their relative order |
| Utils.DrawsFit | FindThePhrase/Utils/RandomUtils.cs:14-15 | the drawn positions are what `Next(elements.Count)` returns on a list one shorter per call, each accepted by `ElementAt`: the `k`-th pick is a `Next(size - k)` result |
| Utils.Draw | FindThePhrase/Utils/RandomUtils.cs:12-18 | sampling `n` elements at the drawn positions takes exactly `n` elements and leaves `|elements| - n` |
| Utils.DrawMultiset | FindThePhrase/Utils/RandomUtils.cs:12-18 | nothing is lost or invented: taken plus left over is the input multiset |
| Utils.DrawKeepsOrder | FindThePhrase/Utils/RandomUtils.cs:12-18 | the list left behind is a subsequence of the input, in its original order |
| Utils.DrawIsDistinct | FindThePhrase/Utils/RandomUtils.cs:12-18 | every sampled element comes from the input; from a list without repeats, the sample has no repeats (sampling without replacement) |
| Utils.MultiSample | FindThePhrase/Utils/RandomUtils.cs:5-21 | throws `InvalidOperationException` exactly when the list is shorter than `length`, leaving it untouched; otherwise returns the draw in order and the list's new contents, with the multiset, order and no-repeat guarantees above |
| Evolution.MatchCount | FindThePhrase/Genetic.cs:211-222 | the fitness count never exceeds the number of compared positions |
| Evolution.MatchCountIsCardinality | FindThePhrase/Genetic.cs:211-222 | the fitness is the number of positions where phrase and target agree |
| Evolution.MatchCountFullIffEqual | FindThePhrase/Genetic.cs:211-222 | the fitness is maximal if and only if the compared prefixes are equal |
| Evolution.Splice | FindThePhrase/Genetic.cs:123-124 | `Substring(0, h) + Substring(h)`: the first parent's genes before `h`, the second's from `h` on, as long as the second parent |
| Evolution.Recombine | FindThePhrase/Genetic.cs:107-134 | a crossover stage keeps the number of chromosomes and never changes the upper half `[0, PopulationLimit / 2)` |
| Evolution.RecombineStep | FindThePhrase/Genetic.cs:116-133 | one more couple writes its two offspring, parents read before either write, on top of the earlier couples |
| Evolution.RecombineKeepsUnwritten | FindThePhrase/Genetic.cs:116-133 | a chromosome no couple overwrites keeps its phrase |
| Evolution.RecombineWritesOffspring | FindThePhrase/Genetic.cs:119-132 | every overwritten chromosome is the splice of two phrases of the original upper half |
| Evolution.Slots | FindThePhrase/Genetic.cs:126-132 | every slot a couple writes is in the set of written slots |
| Evolution.MutateGene | FindThePhrase/Genetic.cs:160-161 | only the chosen gene changes; it becomes the new gene or the alternate, and it really changes when the two differ |
| Evolution.StepGenes | FindThePhrase/Genetic.cs:155-157 | a mutation step samples exactly two genes |
| Evolution.MutatePhrases | FindThePhrase/Genetic.cs:139-164 | a mutation stage keeps the number of chromosomes and the length of every phrase |
| Evolution.Indices | FindThePhrase/Genetic.cs:149 | every chromosome a step chooses is in the set of chosen indices |
| Evolution.MutateStep | FindThePhrase/Genetic.cs:147-163 | one more step mutates one gene of the chosen phrase, on top of the earlier steps |
| Evolution.MutateKeepsUnchosen | FindThePhrase/Genetic.cs:147-163 | a chromosome no step chooses keeps its phrase |
| Evolution.MutationStepChangesOneGene | FindThePhrase/Genetic.cs:151-162 | a step changes exactly one gene of one phrase; the new gene is from the gene set, and with a repeat-free gene set it differs from the old one |
| FindThePhrase.SampleOf | FindThePhrase/Genetic.cs:196-201 | a random sample has one gene per draw, each taken from the gene set |
| FindThePhrase.IsSample | FindThePhrase/Genetic.cs:196-199 | every drawn position is a result of `Next(GeneSet.Length)` that `Substring(index, 1)` accepts |
| FindThePhrase.MatingsDrawn | FindThePhrase/Genetic.cs:119-132 | possible `Random.Next` results for the couples fit the crossover's delimiters and the phrases' lengths |
| FindThePhrase.IsMatingDraw | FindThePhrase/Genetic.cs:119-132 | a drawn couple takes its parents from below `PopulationLimit / 2` and writes at or above it; the last index of either range is drawn only when that range is empty |
| FindThePhrase.MatingDrawn | FindThePhrase/Genetic.cs:119-132 | each drawn couple's slots are what `Next(PopulationLimit / 2, PopulationLimit - 1)` can return |
| FindThePhrase.SlotsDrawn | FindThePhrase/Genetic.cs:126-132 | every slot written by crossover lies in `[PopulationLimit / 2, PopulationLimit - 1)` |
| FindThePhrase.CrossoverSparesParents | FindThePhrase/Genetic.cs:112-132 | crossover never overwrites the upper half it draws parents from, nor the last chromosome when the slot range is non-empty |
| FindThePhrase.CrossoverParentsDrawn | FindThePhrase/Genetic.cs:119-132 | every written phrase is the splice of two original phrases at positions `Next(0, PopulationLimit / 2 - 1)` can return: below `PopulationLimit / 2 - 1`, or 0 when that range is empty |
| FindThePhrase.MutationsDrawn | FindThePhrase/Genetic.cs:149-161 | possible `Random.Next` results for the mutation steps fit the phrases when the gene set can supply two genes |
| FindThePhrase.IsMutationDraw | FindThePhrase/Genetic.cs:149-161 | a drawn step chooses a chromosome at or above `Elitsim`, the last one only when `[Elitsim, PopulationLimit - 1)` is empty; with two genes to draw, its gene position lies in the chosen phrase |
| FindThePhrase.MutationIndicesDrawn | FindThePhrase/Genetic.cs:149 | every chromosome chosen for mutation is what `Next(Elitsim, PopulationLimit - 1)` can return |
| FindThePhrase.MutationSparesElite | FindThePhrase/Genetic.cs:148-149 | the `Elitsim` best chromosomes, and the last one when the range is non-empty, are never mutated and keep their phrases |
| FindThePhrase.Mate | FindThePhrase/Genetic.cs:119-132 | one couple: two new chromosomes with fitness 0 replace the two slots, holding the two splices; all other positions keep their objects |
| FindThePhrase.MateCouples | FindThePhrase/Genetic.cs:116-133 | the crossover loop yields the phrases `Recombine` specifies; unwritten positions keep their objects; written ones hold freshly allocated chromosomes with fitness 0 |
| FindThePhrase.MutateOne | FindThePhrase/Genetic.cs:151-162 | one step: throws as `MultiSample` does when the gene set has fewer than two genes; otherwise the chromosome's phrase becomes `MutateGene` of its old phrase |
| FindThePhrase.MutateChromosomes | FindThePhrase/Genetic.cs:145-163 | the mutation loop fails at the first step if and only if the gene set has fewer than two genes, with phrases unchanged; otherwise phrases become `MutatePhrases` of the old ones |
| FindThePhrase.IndexOfFittest | FindThePhrase/Genetic.cs:99 | within the selection sort that stands in for `List.Sort`: a position of maximal fitness in the unsorted part |
| FindThePhrase.RankByFitness | FindThePhrase/Genetic.cs:99 | the result is a permutation of the population, ranked by fitness with the best first |
| FindThePhrase.Genetic.constructor | FindThePhrase/Genetic.cs:41-67 | stores target, gene set and limit; the chromosome length is the target's length; defaults: empty population, `Couples` 0, `Elitsim` 0, `MutationScope` 50 |
| FindThePhrase.Genetic.GetSampleFromGenes | FindThePhrase/Genetic.cs:190-204 | a phrase of `ChromosomeLength` genes, each from the gene set at the drawn position |
| FindThePhrase.Genetic.InitPopulation | FindThePhrase/Genetic.cs:72-81 | `PopulationLimit` new distinct chromosomes, each with fitness 0 and a random sample of the gene set |
| FindThePhrase.Genetic.ComparedLength | FindThePhrase/Genetic.cs:214 | the fitness loop compares at most `Target.Length` positions |
| FindThePhrase.Genetic.GetFitness | FindThePhrase/Genetic.cs:211-222 | the fitness is the match count against the target, between 0 and the target's length |
| FindThePhrase.Genetic.UpdateFitnessPopulation | FindThePhrase/Genetic.cs:86-92 | the list keeps its chromosomes in order; every chromosome's fitness becomes the match count of its phrase; phrases stay; a second call changes nothing |
| FindThePhrase.Genetic.SortPopulation | FindThePhrase/Genetic.cs:97-100 | the population becomes a permutation of itself, ranked by fitness descending |
| FindThePhrase.Genetic.CouplesInEffect | FindThePhrase/Genetic.cs:109-110 | the number of couples is never 0: a set value is kept, 0 means 20 |
| FindThePhrase.Genetic.PopulationDelimiter | FindThePhrase/Genetic.cs:112 | `PopulationLimit / 2` truncated toward zero: twice it is the limit or one less |
| FindThePhrase.Genetic.GenesDelimiter | FindThePhrase/Genetic.cs:113 | `ChromosomeLength / 2` truncated toward zero: twice it is the length or one less |
| FindThePhrase.Genetic.Crossover | FindThePhrase/Genetic.cs:107-134 | `Couples` 0 becomes 20; the phrases become `Recombine` of the old ones; positions not written keep their objects; written positions hold freshly allocated chromosomes with fitness 0 |
| FindThePhrase.Genetic.ElitismInEffect | FindThePhrase/Genetic.cs:141-142 | the number of protected chromosomes is never 0: a set value is kept, 0 means 10 |
| FindThePhrase.Genetic.MutationCount | FindThePhrase/Genetic.cs:145 | `PopulationLimit * MutationScope / 100` in C# `int` arithmetic: within the range the wrapped product allows, and the plain quotient when the product is non-negative and fits in 32 bits |
| FindThePhrase.Genetic.Mutation | FindThePhrase/Genetic.cs:139-164 | `Elitsim` 0 becomes 10; the population list is unchanged; throws if and only if a step runs and the gene set has fewer than two genes; otherwise phrases become `MutatePhrases` of the old ones |
| FindThePhrase.Genetic.IsTheFirstChromosomeOptimal | FindThePhrase/Genetic.cs:172-180 | true exactly when the first fitness equals the target's length; leaves the engine unchanged; with fitness up to date, exactly when the first phrase spells the target; once ranked, exactly when some phrase does |

## Left out

- `Program.cs` (the driver that sets `Elitsim` and `Couples` and runs the generations) and `Display.cs` (console reporting) are not part of this model.
- The console message of `IsTheFirstChromosomeOptimal` (`Genetic.cs:177`) is output only and not modelled.
- `System.Random` is replaced by the values its calls return, passed as parameters. Uniformity and seeding are not modelled; only the range of each call is.
- `GeneSet`, `Target`, `PopulationLimit` and `ChromosomeLength` are `const` fields. The engine never writes them after construction, and their public setters are not modelled. `Couples`, `Elitsim` and `MutationScope` are fields, but their setters are not modelled either.
- Exceptions other than `MultiSample`'s are preconditions. These are: an index out of range in `ElementAt`, indexing or `Substring`; `Random.Next` with `lo > hi` or a negative bound; `First()` on an empty list.
- FindThePhrase.Genetic.SortPopulation: states a ranked permutation only. `List.Sort`'s algorithm and its order among equal fitness values are not modelled; a selection sort (`RankByFitness`) stands in.
- Utils.MultiSample: the caller's list is changed in place by the source; the model returns its new contents as `remaining`. Aliasing of the list is not modelled; `Mutation` passes a fresh copy (`GeneSet.ToList()`) anyway.
- Integer overflow: the model wraps only the product `PopulationLimit * MutationScope` at 32 bits. No other C# arithmetic in the core can overflow for the lengths involved, so nothing else is wrapped.
- Strings: C# `string` and `char` are UTF-16 code units, while a Dafny `string` is a sequence of Unicode scalar values. `Target.Length`, `Substring`, `ToArray`, `new string` and `GeneSet.ToList()` all count and split code units. For text outside the Basic Multilingual Plane the lengths therefore differ, and crossover or mutation can split a surrogate pair; the model cannot represent either.
