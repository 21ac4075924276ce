/** The evolution engine (`Genetic`): a population of chromosomes changed in place
    by initialisation, fitness evaluation, ranking, crossover and mutation.
    `System.Random` is replaced by the values its calls return, passed to each
    operation; the predicates `IsNextBelow`/`IsNextBetween` say which values a
    call can return. */
module FindThePhrase {
  import opened DotNet
  import opened Utils
  import opened DataStructures
  import opened Evolution

  /** Population is sorted by fitness, best first. */
  ghost predicate Ranked(s: seq<Chromosome>)
    reads s
  {
    forall i, j :: 0 <= i < j < |s| ==> s[i].fitness >= s[j].fitness
  }

  /** The phrases of `s`, in order. */
  ghost function PhrasesOf(s: seq<Chromosome>): (ps: seq<string>)
    reads s
    ensures |ps| == |s|
    ensures forall k :: 0 <= k < |s| ==> ps[k] == s[k].phrase
  {
    seq(|s|, k requires 0 <= k < |s| reads s => s[k].phrase)
  }

  /** Each of `picks` is a position in the gene set. */
  predicate IndexesGenes(picks: seq<nat>, geneSet: string) {
    forall k :: 0 <= k < |picks| ==> picks[k] < |geneSet|
  }

  /** Replacing one chromosome by an object not in the population keeps the
      chromosomes separate. */
  lemma DistinctAfterReplace(s: seq<Chromosome>, i: int, c: Chromosome)
    requires Distinct(s) && 0 <= i < |s| && c !in s
    ensures Distinct(s[i := c])
  {
    var t := s[i := c];
    forall a, b | 0 <= a < b < |t| ensures t[a] != t[b] {
      if a != i && b != i {
        assert t[a] == s[a] && t[b] == s[b];
      }
    }
  }

  /** Replacing one chromosome replaces its phrase, and no other. */
  lemma PhrasesAfterReplace(s: seq<Chromosome>, i: int, c: Chromosome)
    requires 0 <= i < |s|
    ensures PhrasesOf(s[i := c]) == PhrasesOf(s)[i := c.phrase]
  {
  }

  /** `picks` are the results of the `Random.Next(GeneSet.Length)` calls that build
      one phrase of `ChromosomeLength` genes. */
  predicate IsSample(picks: seq<nat>, chromosomeLength: int, geneSet: string)
    // each pick is a result of `Next(GeneSet.Length)` that `Substring(index, 1)` accepts
    ensures IsSample(picks, chromosomeLength, geneSet) ==>
              forall k :: 0 <= k < |picks| ==> IsNextBelow(|geneSet|, picks[k]) && picks[k] < |geneSet|
  {
    |picks| == Max0(chromosomeLength) && IndexesGenes(picks, geneSet)
  }

  /** The phrase that the gene-set positions `picks` spell. */
  function SampleOf(picks: seq<nat>, geneSet: string): (phrase: string)
    requires IndexesGenes(picks, geneSet)
    ensures |phrase| == |picks|
    ensures forall k :: 0 <= k < |phrase| ==> phrase[k] in geneSet
  {
    seq(|picks|, k requires 0 <= k < |picks| => geneSet[picks[k]])
  }

  /** `m` holds what the four `Random.Next` calls of one couple return, and with
      them the substring and slot operations on the phrases `ps` do not throw. */
  predicate IsMatingDraw(ps: seq<string>, populationLimit: int, chromosomeLength: int, m: Mating)
    // parents come from the fitter half, offspring go to the weaker half
    ensures IsMatingDraw(ps, populationLimit, chromosomeLength, m) ==>
              0 <= m.parent1 < Quot(populationLimit, 2) <= m.slot1 < |ps|
              && 0 <= m.parent2 < Quot(populationLimit, 2) <= m.slot2 < |ps|
    // the last index of either range is drawn only when that range is empty
    ensures IsMatingDraw(ps, populationLimit, chromosomeLength, m) ==>
              (m.parent1 == Quot(populationLimit, 2) - 1 ==> m.parent1 == 0)
              && (m.parent2 == Quot(populationLimit, 2) - 1 ==> m.parent2 == 0)
              && (m.slot1 == populationLimit - 1 ==> m.slot1 == Quot(populationLimit, 2))
              && (m.slot2 == populationLimit - 1 ==> m.slot2 == Quot(populationLimit, 2))
  {
    var delim := Quot(populationLimit, 2);
    var h := Quot(chromosomeLength, 2);
    IsNextBetween(0, delim - 1, m.parent1) && IsNextBetween(0, delim - 1, m.parent2)
    && IsNextBetween(delim, populationLimit - 1, m.slot1) && IsNextBetween(delim, populationLimit - 1, m.slot2)
    && 0 <= h && MatingFits(ps, delim, h, m)
  }

  /** Every couple of `ms` is a possible draw; then all of them fit the phrases
      with the crossover's delimiters. */
  predicate MatingsDrawn(ps: seq<string>, populationLimit: int, chromosomeLength: int, ms: seq<Mating>)
    ensures MatingsDrawn(ps, populationLimit, chromosomeLength, ms) ==>
              MatingsFit(ps, Quot(populationLimit, 2), Max0(Quot(chromosomeLength, 2)), ms)
  {
    forall j :: 0 <= j < |ms| ==> IsMatingDraw(ps, populationLimit, chromosomeLength, ms[j])
  }

  /** What the draws of the `j`-th couple guarantee. */
  lemma MatingDrawn(ps: seq<string>, populationLimit: int, chromosomeLength: int, ms: seq<Mating>, j: int)
    requires MatingsDrawn(ps, populationLimit, chromosomeLength, ms) && 0 <= j < |ms|
    ensures MatingFits(ps, Quot(populationLimit, 2), Max0(Quot(chromosomeLength, 2)), ms[j])
    ensures 0 <= Quot(chromosomeLength, 2)
    ensures IsNextBetween(Quot(populationLimit, 2), populationLimit - 1, ms[j].slot1)
    ensures IsNextBetween(Quot(populationLimit, 2), populationLimit - 1, ms[j].slot2)
  {
    assert IsMatingDraw(ps, populationLimit, chromosomeLength, ms[j]);
  }

  /** `p` holds what the `Random.Next` calls of one mutation step return, and with
      them `ElementAt` and the gene assignment on the phrases `ps` do not throw. The
      gene set's draws and the gene position are only reached when the gene set can
      supply two genes; otherwise `MultiSample` throws first. */
  predicate IsMutationDraw(ps: seq<string>, elitism: int, populationLimit: int, chromosomeLength: int,
                           geneSet: string, p: MutationPick)
    // the chosen chromosome is outside the elite, and is the last one only when the range is empty
    ensures IsMutationDraw(ps, elitism, populationLimit, chromosomeLength, geneSet, p) ==>
              elitism <= p.index < |ps| && (p.index == populationLimit - 1 ==> p.index == elitism)
    // with two genes to draw, the chosen gene position is in the chromosome
    ensures IsMutationDraw(ps, elitism, populationLimit, chromosomeLength, geneSet, p) && 2 <= |geneSet| ==>
              0 <= p.index < |ps| && 0 <= p.gene < |ps[p.index]|
  {
    IsNextBetween(elitism, populationLimit - 1, p.index) && 0 <= p.index < |ps|
    && (2 <= |geneSet| ==>
          DrawsFit(|geneSet|, p.draws, 2) && IsNextBelow(chromosomeLength, p.gene) && p.gene < |ps[p.index]|)
  }

  /** Every step of `steps` is a possible draw; then, when the gene set can supply
      two genes, all of them fit the phrases. */
  predicate MutationsDrawn(ps: seq<string>, elitism: int, populationLimit: int, chromosomeLength: int,
                           geneSet: string, steps: seq<MutationPick>)
    ensures MutationsDrawn(ps, elitism, populationLimit, chromosomeLength, geneSet, steps) && 2 <= |geneSet| ==>
              PicksFit(ps, geneSet, steps)
  {
    forall j :: 0 <= j < |steps| ==> IsMutationDraw(ps, elitism, populationLimit, chromosomeLength, geneSet, steps[j])
  }

  /** One couple of a crossover on the population `s`: both parents are read,
      then the two offspring, new chromosomes of fitness 0, replace the
      chromosomes at the two slots. */
  method Mate(s: seq<Chromosome>, m: Mating, genesDelimiter: int, ghost original: seq<Chromosome>)
    returns (t: seq<Chromosome>)
    requires Distinct(s)
    requires 0 <= m.parent1 < |s| && 0 <= m.parent2 < |s| && 0 <= m.slot1 < |s| && 0 <= m.slot2 < |s|
    requires 0 <= genesDelimiter <= |s[m.parent1].phrase| && genesDelimiter <= |s[m.parent2].phrase|
    ensures Distinct(t) && |t| == |s|
    ensures PhrasesOf(t) == PhrasesOf(s)[m.slot1 := Splice(s[m.parent1].phrase, s[m.parent2].phrase, genesDelimiter)]
                                        [m.slot2 := Splice(s[m.parent2].phrase, s[m.parent1].phrase, genesDelimiter)]
    ensures forall k :: 0 <= k < |s| && k != m.slot1 && k != m.slot2 ==> t[k] == s[k]
    ensures fresh(t[m.slot1]) && t[m.slot1].fitness == 0 && t[m.slot1] !in original
    ensures fresh(t[m.slot2]) && t[m.slot2].fitness == 0 && t[m.slot2] !in original
  {
    var parent1 := s[m.parent1];
    var parent2 := s[m.parent2];
    var phrase1 := parent1.phrase[..genesDelimiter] + parent2.phrase[genesDelimiter..];
    var offspring1 := new Chromosome(phrase1, 0);
    DistinctAfterReplace(s, m.slot1, offspring1);
    PhrasesAfterReplace(s, m.slot1, offspring1);
    t := s[m.slot1 := offspring1];
    var phrase2 := parent2.phrase[..genesDelimiter] + parent1.phrase[genesDelimiter..];
    var offspring2 := new Chromosome(phrase2, 0);
    DistinctAfterReplace(t, m.slot2, offspring2);
    PhrasesAfterReplace(t, m.slot2, offspring2);
    t := t[m.slot2 := offspring2];
  }

  /** After one more mating, the chromosomes at every slot written so far are
      offspring, and every other position still holds its original chromosome. */
  lemma OffspringAccumulate(s: seq<Chromosome>, previous: seq<Chromosome>, t: seq<Chromosome>,
                            written: set<int>, m: Mating)
    requires |t| == |previous| == |s|
    requires 0 <= m.slot1 < |t| && 0 <= m.slot2 < |t|
    requires forall k :: 0 <= k < |previous| && k !in written ==> previous[k] == s[k]
    requires forall k :: k in written ==> 0 <= k < |previous| && previous[k] !in s && previous[k].fitness == 0
    requires forall k :: 0 <= k < |previous| && k != m.slot1 && k != m.slot2 ==> t[k] == previous[k]
    requires t[m.slot1] !in s && t[m.slot1].fitness == 0 && t[m.slot2] !in s && t[m.slot2].fitness == 0
    ensures forall k :: 0 <= k < |t| && k !in written + {m.slot1, m.slot2} ==> t[k] == s[k]
    ensures forall k :: k in written + {m.slot1, m.slot2} ==> 0 <= k < |t| && t[k] !in s && t[k].fitness == 0
  {
  }

  /** The crossover loop: the first `couples` matings, in order, on the
      population `s`. */
  method MateCouples(s: seq<Chromosome>, matings: seq<Mating>, couples: int,
                     populationDelimiter: int, genesDelimiter: int) returns (t: seq<Chromosome>)
    requires Distinct(s) && Max0(couples) <= |matings|
    requires 0 < couples ==> 0 <= genesDelimiter
    requires MatingsFit(PhrasesOf(s), populationDelimiter, Max0(genesDelimiter), matings[..Max0(couples)])
    ensures Distinct(t) && |t| == |s|
    ensures PhrasesOf(t) == Recombine(PhrasesOf(s), populationDelimiter, Max0(genesDelimiter), matings[..Max0(couples)])
    ensures forall k :: 0 <= k < |s| && k !in Slots(matings[..Max0(couples)]) ==> t[k] == s[k]
    ensures forall k :: k in Slots(matings[..Max0(couples)]) ==>
              0 <= k < |t| && fresh(t[k]) && t[k] !in s && t[k].fitness == 0
  {
    ghost var ps0 := PhrasesOf(s);
    ghost var ms := matings[..Max0(couples)];
    ghost var h := Max0(genesDelimiter);
    ghost var written: set<int> := {};
    t := s;
    var i := 0;
    while i < couples
      invariant 0 <= i <= |ms|
      invariant |t| == |ps0| && Distinct(t)
      invariant written == Slots(ms[..i])
      invariant PhrasesOf(t) == Recombine(ps0, populationDelimiter, h, ms[..i])
      invariant forall k :: 0 <= k < |t| && k !in written ==> t[k] == s[k]
      invariant forall k :: k in written ==> 0 <= k < |t| && t[k] !in s && t[k].fitness == 0
      invariant forall k :: k in written ==> fresh(t[k])
    {
      var m := matings[i];
      assert m == ms[i];
      RecombineStep(ps0, populationDelimiter, h, ms, i);
      ghost var previous := t;
      t := Mate(t, m, genesDelimiter, s);
      OffspringAccumulate(s, previous, t, written, m);
      written := written + {m.slot1, m.slot2};
      i := i + 1;
    }
    assert ms[..i] == ms;
  }

  /** The mutation loop: the first `mutationCount` steps, in order, on the
      chromosomes of `s`, each changing one gene of one phrase in place. When the
      gene set cannot supply two genes, `MultiSample` throws at the first step. */
  method MutateChromosomes(s: seq<Chromosome>, geneSet: string, mutationCount: int, picks: seq<MutationPick>)
    returns (outcome: Outcome)
    requires Distinct(s) && Max0(mutationCount) <= |picks|
    requires forall j :: 0 <= j < Max0(mutationCount) ==> 0 <= picks[j].index < |s|
    requires 2 <= |geneSet| ==> PicksFit(PhrasesOf(s), geneSet, picks[..Max0(mutationCount)])
    modifies s`phrase
    ensures outcome.Fail? <==> 0 < mutationCount && |geneSet| < 2
    ensures outcome.Fail? ==> outcome.error == InvalidOperation(2) && PhrasesOf(s) == old(PhrasesOf(s))
    ensures outcome.Pass? ==> PhrasesOf(s) == MutatePhrases(old(PhrasesOf(s)), geneSet, picks[..Max0(mutationCount)])
  {
    ghost var ps0 := PhrasesOf(s);
    ghost var steps := picks[..Max0(mutationCount)];
    outcome := Pass;
    var i := 0;
    while i < mutationCount
      invariant 0 <= i <= |steps| && (i == 0 || 2 <= |geneSet|)
      invariant PicksFit(ps0, geneSet, steps[..i])
      invariant PhrasesOf(s) == MutatePhrases(ps0, geneSet, steps[..i])
    {
      var pick := picks[i];
      assert pick == steps[i];
      if 2 <= |geneSet| {
        MutateStep(ps0, geneSet, steps, i);
      }
      var mutatedIndividual := s[pick.index];
      ghost var before := PhrasesOf(s);
      var stepOutcome := MutateOne(mutatedIndividual, geneSet, pick);
      if stepOutcome.Fail? {
        outcome := stepOutcome;
        assert steps[..i] == [];
        return;
      }
      forall k | 0 <= k < |s| && k != pick.index ensures s[k].phrase == before[k] {
        assert s[k] != mutatedIndividual;
      }
      PhrasesAfterSetPhrase(s, before, pick.index);
      i := i + 1;
    }
    assert steps[..i] == steps;
  }

  /** The body of one mutation step on the chosen chromosome: its genes are copied
      to an array, two genes are sampled from the gene set, the chosen gene is
      overwritten and the array becomes the phrase again. */
  method MutateOne(mutatedIndividual: Chromosome, geneSet: string, pick: MutationPick) returns (outcome: Outcome)
    requires 2 <= |geneSet| ==> DrawsFit(|geneSet|, pick.draws, 2) && 0 <= pick.gene < |mutatedIndividual.phrase|
    modifies mutatedIndividual`phrase
    ensures outcome.Fail? <==> |geneSet| < 2
    ensures outcome.Fail? ==> outcome.error == InvalidOperation(2) && mutatedIndividual.phrase == old(mutatedIndividual.phrase)
    ensures outcome.Pass? ==>
              mutatedIndividual.phrase
              == MutateGene(old(mutatedIndividual.phrase), StepGenes(geneSet, pick)[0], StepGenes(geneSet, pick)[1], pick.gene)
  {
    var phrase := mutatedIndividual.phrase;
    var childGenes := new char[|phrase|](k requires 0 <= k < |phrase| => phrase[k]);
    var randomGenes, unused := MultiSample(geneSet, 2, pick.draws);
    if randomGenes.Err? {
      return Fail(randomGenes.error);
    }
    var newGene := randomGenes.value[0];
    var alternate := randomGenes.value[1];
    var geneIndex := pick.gene;
    assert childGenes[..] == phrase;
    childGenes[geneIndex] := if newGene == childGenes[geneIndex] then alternate else newGene;
    mutatedIndividual.SetPhrase(childGenes[..]);
    return Pass;
  }

  /** When only the phrase at `i` may differ from `before`, the phrases are
      `before` with that one replaced. */
  lemma PhrasesAfterSetPhrase(s: seq<Chromosome>, before: seq<string>, i: int)
    requires |before| == |s| && 0 <= i < |s|
    requires forall k :: 0 <= k < |s| && k != i ==> s[k].phrase == before[k]
    ensures PhrasesOf(s) == before[i := s[i].phrase]
  {
  }

  /** Every chromosome a mutation step chooses is a valid position at or above
      `elitism`, below `PopulationLimit - 1` unless that range is empty. */
  lemma {:induction false} MutationIndicesDrawn(ps: seq<string>, elitism: int, populationLimit: int,
                                               chromosomeLength: int, geneSet: string, steps: seq<MutationPick>)
    requires MutationsDrawn(ps, elitism, populationLimit, chromosomeLength, geneSet, steps)
    ensures forall j :: 0 <= j < |steps| ==> 0 <= steps[j].index < |ps|
    ensures forall k :: k in Indices(steps) ==> IsNextBetween(elitism, populationLimit - 1, k)
    decreases |steps|
  {
    if steps != [] {
      var init := steps[..|steps| - 1];
      assert MutationsDrawn(ps, elitism, populationLimit, chromosomeLength, geneSet, init) by {
        forall j | 0 <= j < |init| ensures init[j] == steps[j] { }
      }
      MutationIndicesDrawn(ps, elitism, populationLimit, chromosomeLength, geneSet, init);
      assert IsMutationDraw(ps, elitism, populationLimit, chromosomeLength, geneSet, steps[|steps| - 1]);
    }
  }

  /** Mutation spares the elite: no drawn step touches a position below `elitism`,
      nor the last position `populationLimit - 1` when the range
      `[elitism, populationLimit - 1)` is not empty. */
  lemma {:induction false} MutationSparesElite(ps: seq<string>, elitism: int, populationLimit: int, chromosomeLength: int,
                            geneSet: string, steps: seq<MutationPick>, k: int)
    requires MutationsDrawn(ps, elitism, populationLimit, chromosomeLength, geneSet, steps) && 2 <= |geneSet|
    requires 0 <= k < |ps| && (k < elitism || (k == populationLimit - 1 && elitism < populationLimit - 1))
    ensures k !in Indices(steps)
    ensures MutatePhrases(ps, geneSet, steps)[k] == ps[k]
  {
    MutationIndicesDrawn(ps, elitism, populationLimit, chromosomeLength, geneSet, steps);
    MutateKeepsUnchosen(ps, geneSet, steps, k);
  }

  /** Every slot the drawn couples write lies in `[PopulationLimit / 2, PopulationLimit - 1)`,
      or is `PopulationLimit / 2` itself when that range is empty. */
  lemma {:induction false} SlotsDrawn(ps: seq<string>, populationLimit: int, chromosomeLength: int, ms: seq<Mating>)
    requires MatingsDrawn(ps, populationLimit, chromosomeLength, ms)
    ensures forall k :: k in Slots(ms) ==> IsNextBetween(Quot(populationLimit, 2), populationLimit - 1, k)
    decreases |ms|
  {
    if ms != [] {
      var init := ms[..|ms| - 1];
      assert MatingsDrawn(ps, populationLimit, chromosomeLength, init) by {
        forall j | 0 <= j < |init| ensures init[j] == ms[j] { }
      }
      SlotsDrawn(ps, populationLimit, chromosomeLength, init);
      MatingDrawn(ps, populationLimit, chromosomeLength, ms, |ms| - 1);
    }
  }

  /** Crossover spares the fitter half, which supplies the parents, and the last
      chromosome when the range of slots is not empty: their phrases are unchanged. */
  lemma {:induction false} CrossoverSparesParents(ps: seq<string>, populationLimit: int, chromosomeLength: int, ms: seq<Mating>, k: int)
    requires MatingsDrawn(ps, populationLimit, chromosomeLength, ms) && 0 <= k < |ps|
    requires k < Quot(populationLimit, 2) || (k == populationLimit - 1 && Quot(populationLimit, 2) < populationLimit - 1)
    ensures k !in Slots(ms)
    ensures Recombine(ps, Quot(populationLimit, 2), Max0(Quot(chromosomeLength, 2)), ms)[k] == ps[k]
  {
    SlotsDrawn(ps, populationLimit, chromosomeLength, ms);
    RecombineKeepsUnwritten(ps, Quot(populationLimit, 2), Max0(Quot(chromosomeLength, 2)), ms, k);
  }

  /** Every phrase the drawn couples write is the splice of two phrases of the
      original population whose positions `Random.Next(0, PopulationLimit / 2 - 1)`
      can return: below `PopulationLimit / 2 - 1`, or 0 when that range is empty. */
  lemma {:induction false} CrossoverParentsDrawn(ps: seq<string>, populationLimit: int, chromosomeLength: int,
                                                 ms: seq<Mating>, k: int)
    requires MatingsDrawn(ps, populationLimit, chromosomeLength, ms) && 0 <= k < |ps| && k in Slots(ms)
    ensures exists a, b :: IsNextBetween(0, Quot(populationLimit, 2) - 1, a)
                           && IsNextBetween(0, Quot(populationLimit, 2) - 1, b)
                           && 0 <= a < |ps| && 0 <= b < |ps|
                           && Max0(Quot(chromosomeLength, 2)) <= |ps[a]| && Max0(Quot(chromosomeLength, 2)) <= |ps[b]|
                           && Recombine(ps, Quot(populationLimit, 2), Max0(Quot(chromosomeLength, 2)), ms)[k]
                              == Splice(ps[a], ps[b], Max0(Quot(chromosomeLength, 2)))
    decreases |ms|
  {
    var lo := Quot(populationLimit, 2);
    var h := Max0(Quot(chromosomeLength, 2));
    var init := ms[..|ms| - 1];
    var m := ms[|ms| - 1];
    assert MatingsDrawn(ps, populationLimit, chromosomeLength, init) by {
      forall j | 0 <= j < |init| ensures init[j] == ms[j] { }
    }
    assert IsMatingDraw(ps, populationLimit, chromosomeLength, m);
    var prev := Recombine(ps, lo, h, init);
    var r := Recombine(ps, lo, h, ms);
    assert prev[m.parent1] == ps[m.parent1] && prev[m.parent2] == ps[m.parent2];
    if k == m.slot2 {
      assert r[k] == Splice(ps[m.parent2], ps[m.parent1], h);
    } else if k == m.slot1 {
      assert r[k] == Splice(ps[m.parent1], ps[m.parent2], h);
    } else {
      assert r[k] == prev[k];
      CrossoverParentsDrawn(ps, populationLimit, chromosomeLength, init, k);
    }
  }

  /** The position of a fittest chromosome among `s[from..]`. */
  method IndexOfFittest(s: seq<Chromosome>, from: nat) returns (m: nat)
    requires from < |s|
    ensures from <= m < |s|
    ensures forall k :: from <= k < |s| ==> s[k].fitness <= s[m].fitness
  {
    m := from;
    var k := from + 1;
    while k < |s|
      invariant from <= m < k <= |s|
      invariant forall j :: from <= j < k ==> s[j].fitness <= s[m].fitness
    {
      if s[k].fitness > s[m].fitness {
        m := k;
      }
      k := k + 1;
    }
  }

  /** The first `i` chromosomes are ranked and none after them is fitter. */
  ghost predicate RankedUpTo(s: seq<Chromosome>, i: int)
    reads s
  {
    i <= |s|
    && (forall a, b :: 0 <= a < b < i ==> s[a].fitness >= s[b].fitness)
    && (forall a, b :: 0 <= a < i <= b < |s| ==> s[a].fitness >= s[b].fitness)
  }

  /** Swapping the fittest of the unranked part to its front ranks one more. */
  lemma SwapFittest(s: seq<Chromosome>, i: nat, m: nat)
    requires i <= m < |s| && RankedUpTo(s, i)
    requires forall k :: i <= k < |s| ==> s[k].fitness <= s[m].fitness
    ensures multiset(s[i := s[m]][m := s[i]]) == multiset(s)
    ensures RankedUpTo(s[i := s[m]][m := s[i]], i + 1)
  {
  }

  /** `List.Sort` with the comparator `b.Fitness.CompareTo(a.Fitness)`: a permutation
      ranked by fitness, best first. Selection sort stands in for the library's sort. */
  method RankByFitness(s: seq<Chromosome>) returns (t: seq<Chromosome>)
    ensures multiset(t) == multiset(s) && Ranked(t)
  {
    t := s;
    var i := 0;
    while i < |t|
      invariant multiset(t) == multiset(s) && RankedUpTo(t, i)
    {
      var m := IndexOfFittest(t, i);
      SwapFittest(t, i, m);
      t := t[i := t[m]][m := t[i]];
      i := i + 1;
    }
  }

  class Genetic {
    // set once by the constructor; no operation of the engine changes them
    const geneSet: string
    const target: string
    const populationLimit: int
    const chromosomeLength: int
    var population: seq<Chromosome>
    var couples: int
    var elitsim: int  // the source's spelling of "elitism"
    var mutationScope: int

    /** Every chromosome is a separate object, as the engine allocates each one fresh,
        and the chromosome length is the target's, as the constructor sets it. */
    ghost predicate Valid()
      reads this`population
    {
      Distinct(population) && chromosomeLength == |target|
    }

    /** The phrases of the population, in order. */
    ghost function Phrases(): (ps: seq<string>)
      reads this`population, population
      ensures ps == PhrasesOf(population)
    {
      PhrasesOf(population)
    }

    constructor (target: string, geneSet: string, populationLimit: int)
      ensures this.target == target && this.geneSet == geneSet && this.populationLimit == populationLimit
      ensures chromosomeLength == |target|
      ensures population == [] && couples == 0 && elitsim == 0 && mutationScope == 50
      ensures Valid()
    {
      this.target := target;
      this.geneSet := geneSet;
      this.populationLimit := populationLimit;
      chromosomeLength := |target|;
      population := [];
      couples := 0;
      elitsim := 0;
      mutationScope := 50;
    }

    // ------------------------------------------------------------ initialisation

    method GetSampleFromGenes(picks: seq<nat>) returns (randomSample: string)
      requires IsSample(picks, chromosomeLength, geneSet)
      ensures randomSample == SampleOf(picks, geneSet)
      ensures |randomSample| == Max0(chromosomeLength)
      ensures forall k :: 0 <= k < |randomSample| ==> randomSample[k] in geneSet
    {
      randomSample := "";
      var localGeneSet := geneSet;
      while |randomSample| < chromosomeLength
        invariant |randomSample| <= |picks|
        invariant randomSample == SampleOf(picks[..|randomSample|], localGeneSet)
      {
        var index := picks[|randomSample|];
        var selectedLetter := localGeneSet[index..index + 1];
        randomSample := randomSample + selectedLetter;
      }
      assert picks[..|randomSample|] == picks;
    }

    method InitPopulation(samples: seq<seq<nat>>)
      requires Valid()
      requires |samples| == Max0(populationLimit)
      requires forall i :: 0 <= i < |samples| ==>
                 |samples[i]| == Max0(chromosomeLength) && IndexesGenes(samples[i], geneSet)
      modifies this`population
      ensures Valid() && |population| == Max0(populationLimit)
      ensures forall i :: 0 <= i < |population| ==> fresh(population[i]) && population[i].fitness == 0
      ensures forall i :: 0 <= i < |population| ==> population[i].phrase == SampleOf(samples[i], geneSet)
      ensures forall i :: 0 <= i < |population| ==> |population[i].phrase| == Max0(chromosomeLength)
      ensures forall i, k :: 0 <= i < |population| && 0 <= k < |population[i].phrase| ==>
                population[i].phrase[k] in geneSet
    {
      population := [];
      var i := 0;
      while i < populationLimit
        invariant i == |population| <= |samples|
        invariant Valid()
        invariant forall j :: 0 <= j < i ==> fresh(population[j]) && population[j].fitness == 0
        invariant forall j :: 0 <= j < i ==> population[j].phrase == SampleOf(samples[j], geneSet)
      {
        var individualGenes := GetSampleFromGenes(samples[i]);
        var generatedIndividual := new Chromosome(individualGenes, 0);
        population := population + [generatedIndividual];
        i := i + 1;
      }
    }

    // ------------------------------------------------------------------ fitness

    /** How many leading positions `GetFitness` compares: both `ChromosomeLength`
        and `Target.Length` bound its loop. */
    function ComparedLength(): (n: nat)
      ensures n <= |target|
    {
      if chromosomeLength < |target| then Max0(chromosomeLength) else |target|
    }

    method GetFitness(individualPhrase: string) returns (fitness: int)
      requires ComparedLength() <= |individualPhrase|
      ensures fitness == MatchCount(target, individualPhrase, ComparedLength())
      ensures 0 <= fitness <= |target|
    {
      fitness := 0;
      var i := 0;
      while i < chromosomeLength && i < |target|
        invariant 0 <= i <= ComparedLength()
        invariant fitness == MatchCount(target, individualPhrase, i)
      {
        if target[i] == individualPhrase[i] {
          fitness := fitness + 1;
        }
        i := i + 1;
      }
    }

    /** Every fitness is the match count of its own phrase. */
    ghost predicate FitnessUpToDate()
      reads this`population, population
    {
      forall k :: 0 <= k < |population| ==>
        ComparedLength() <= |population[k].phrase|
        && population[k].fitness == MatchCount(target, population[k].phrase, ComparedLength())
    }

    method UpdateFitnessPopulation()
      requires forall k :: 0 <= k < |population| ==> ComparedLength() <= |population[k].phrase|
      modifies population
      ensures population == old(population) && FitnessUpToDate()
      ensures forall k :: 0 <= k < |population| ==> 0 <= population[k].fitness <= |target|
      ensures forall k :: 0 <= k < |population| ==> population[k].phrase == old(population[k].phrase)
      // a second call right after the first leaves every fitness as it is
      ensures old(FitnessUpToDate()) ==>
                forall k :: 0 <= k < |population| ==> population[k].fitness == old(population[k].fitness)
    {
      for i := 0 to |population|
        invariant forall k :: 0 <= k < |population| ==> population[k].phrase == old(population[k].phrase)
        invariant forall k :: 0 <= k < i ==>
                    population[k].fitness == MatchCount(target, population[k].phrase, ComparedLength())
        invariant old(FitnessUpToDate()) ==>
                    forall k :: 0 <= k < |population| ==> population[k].fitness == old(population[k].fitness)
      {
        var individual := population[i];
        var fitness := GetFitness(individual.phrase);
        individual.SetFitness(fitness);
      }
    }

    // ------------------------------------------------------------------ ranking

    /** `List.Sort` with a comparator that puts higher fitness first. Only its
        contract matters: the order among equal fitness values is unspecified. */
    method SortPopulation()
      requires Valid()
      modifies this`population
      ensures Valid() && Ranked(population)
      ensures multiset(population) == multiset(old(population))
    {
      var s := RankByFitness(population);
      SubMultisetKeepsDistinct(s, population);
      population := s;
    }

    // ---------------------------------------------------------------- crossover

    /** The number of couples a crossover forms: 0 stands for "not set" and means 20. */
    function CouplesInEffect(): (n: int)
      reads this`couples
      ensures n != 0 && (couples != 0 ==> n == couples) && (couples == 0 ==> n == 20)
    {
      if couples == 0 then 20 else couples
    }

    /** `PopulationLimit / 2`: parents come from below it, offspring go at or above it. */
    function PopulationDelimiter(): (d: int)
      ensures 0 <= populationLimit ==> 0 <= 2 * d <= populationLimit <= 2 * d + 1
      ensures populationLimit < 0 ==> 2 * d - 1 <= populationLimit <= 2 * d <= 0
    {
      Quot(populationLimit, 2)
    }

    /** `ChromosomeLength / 2`: where the parents' phrases are cut. */
    function GenesDelimiter(): (h: int)
      ensures 0 <= chromosomeLength ==> 0 <= 2 * h <= chromosomeLength <= 2 * h + 1
      ensures chromosomeLength < 0 ==> 2 * h - 1 <= chromosomeLength <= 2 * h <= 0
    {
      Quot(chromosomeLength, 2)
    }

    method Crossover(matings: seq<Mating>)
      requires Valid()
      requires Max0(CouplesInEffect()) <= |matings|
      requires MatingsDrawn(Phrases(), populationLimit, chromosomeLength, matings[..Max0(CouplesInEffect())])
      modifies this`population, this`couples
      ensures couples == old(CouplesInEffect())
      ensures Valid() && |population| == old(|population|)
      ensures Phrases() == Recombine(old(Phrases()), PopulationDelimiter(), Max0(GenesDelimiter()),
                                     matings[..Max0(couples)])
      ensures forall k :: 0 <= k < |population| && k !in Slots(matings[..Max0(couples)]) ==>
                population[k] == old(population[k])
      ensures forall k :: k in Slots(matings[..Max0(couples)]) ==>
                0 <= k < |population| && fresh(population[k]) && population[k] !in old(population)
                && population[k].fitness == 0
    {
      ghost var before := Phrases();
      var s := population;
      if couples == 0 {
        couples := 20;
      }
      var populationDelimiter := PopulationDelimiter();
      var genesDelimiter := GenesDelimiter();
      if couples > 0 {
        MatingDrawn(before, populationLimit, chromosomeLength, matings[..couples], 0);
      }
      var t := MateCouples(s, matings, couples, populationDelimiter, genesDelimiter);
      assert PhrasesOf(s) == before;
      ghost var after := Recombine(before, populationDelimiter, Max0(genesDelimiter), matings[..Max0(couples)]);
      assert PhrasesOf(t) == after;
      population := t;
    }

    // ----------------------------------------------------------------- mutation

    /** The chromosomes protected from mutation: 0 stands for "not set" and means 10. */
    function ElitismInEffect(): (n: int)
      reads this`elitsim
      ensures n != 0 && (elitsim != 0 ==> n == elitsim) && (elitsim == 0 ==> n == 10)
    {
      if elitsim == 0 then 10 else elitsim
    }

    /** `PopulationLimit * MutationScope / 100`, in 32-bit C# arithmetic. */
    function MutationCount(): (n: int)
      reads this`mutationScope
      ensures -0x8000_0000 / 100 <= n < 0x8000_0000 / 100 + 1
      ensures 0 <= populationLimit * mutationScope < 0x8000_0000 ==> n == populationLimit * mutationScope / 100
    {
      Quot(Wrap32(populationLimit * mutationScope), 100)
    }

    method Mutation(picks: seq<MutationPick>) returns (outcome: Outcome)
      requires Valid()
      requires Max0(MutationCount()) <= |picks|
      requires MutationsDrawn(Phrases(), ElitismInEffect(), populationLimit, chromosomeLength, geneSet,
                              picks[..Max0(MutationCount())])
      modifies this`elitsim, population`phrase
      ensures elitsim == old(ElitismInEffect())
      ensures population == old(population)
      ensures outcome.Fail? <==> MutationCount() > 0 && |geneSet| < 2
      ensures outcome.Fail? ==> outcome.error == InvalidOperation(2) && Phrases() == old(Phrases())
      ensures outcome.Pass? ==> Phrases() == MutatePhrases(old(Phrases()), geneSet, picks[..Max0(MutationCount())])
    {
      if elitsim == 0 {
        elitsim := 10;
      }
      var mutationCount := Quot(Wrap32(populationLimit * mutationScope), 100);
      MutationIndicesDrawn(Phrases(), elitsim, populationLimit, chromosomeLength, geneSet, picks[..Max0(mutationCount)]);
      outcome := MutateChromosomes(population, geneSet, mutationCount, picks);
    }

    // -------------------------------------------------------------- convergence

    /** The convergence test (its console message is not modelled). */
    method IsTheFirstChromosomeOptimal() returns (isOptimal: bool)
      requires Valid() && |population| > 0
      ensures isOptimal == (population[0].fitness == |target|)
      // with fitness up to date, the first chromosome is optimal exactly when it spells the target
      ensures FitnessUpToDate() ==> (isOptimal <==> population[0].phrase[..|target|] == target)
      // once ranked as well, that happens exactly when some chromosome spells the target
      ensures FitnessUpToDate() && Ranked(population) ==>
                (isOptimal <==> exists k :: 0 <= k < |population| && |target| <= |population[k].phrase|
                                            && population[k].phrase[..|target|] == target)
    {
      isOptimal := population[0].fitness == |target|;
      if FitnessUpToDate() {
        MatchCountFullIffEqual(target, population[0].phrase, |target|);
        assert target[..|target|] == target;
        if Ranked(population) {
          forall k | 0 <= k < |population| && |target| <= |population[k].phrase|
                     && population[k].phrase[..|target|] == target
            ensures isOptimal
          {
            MatchCountFullIffEqual(target, population[k].phrase, |target|);
          }
        }
      }
    }
  }
}
