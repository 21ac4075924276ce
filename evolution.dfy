/** The engine's operations on plain values: the fitness count, the crossover
    recombination and the mutation of phrases. The class `Genetic` is proved
    against these functions; the lemmas here state what they promise. */
module Evolution {
  import opened Utils

  // ---------------------------------------------------------------- fitness

  /** The number of positions `i < n` where `phrase` agrees with `target`. */
  function MatchCount(target: string, phrase: string, n: nat): (r: nat)
    requires n <= |target| && n <= |phrase|
    ensures r <= n
  {
    if n == 0 then 0
    else MatchCount(target, phrase, n - 1) + (if target[n - 1] == phrase[n - 1] then 1 else 0)
  }

  /** The count is the size of the set of matching positions. */
  lemma {:induction false} MatchCountIsCardinality(target: string, phrase: string, n: nat)
    requires n <= |target| && n <= |phrase|
    ensures MatchCount(target, phrase, n) == |set i | 0 <= i < n && target[i] == phrase[i]|
  {
    if n > 0 {
      MatchCountIsCardinality(target, phrase, n - 1);
      var below := set i | 0 <= i < n - 1 && target[i] == phrase[i];
      var all := set i | 0 <= i < n && target[i] == phrase[i];
      if target[n - 1] == phrase[n - 1] {
        assert all == below + {n - 1};
      } else {
        assert all == below;
      }
    }
  }

  /** The count reaches its maximum exactly when the compared prefixes are equal. */
  lemma {:induction false} MatchCountFullIffEqual(target: string, phrase: string, n: nat)
    requires n <= |target| && n <= |phrase|
    ensures MatchCount(target, phrase, n) == n <==> target[..n] == phrase[..n]
  {
    if n > 0 {
      MatchCountFullIffEqual(target, phrase, n - 1);
      assert target[..n] == target[..n - 1] + [target[n - 1]];
      assert phrase[..n] == phrase[..n - 1] + [phrase[n - 1]];
      if target[..n] == phrase[..n] {
        assert target[..n - 1] == target[..n][..n - 1];
        assert phrase[..n - 1] == phrase[..n][..n - 1];
      }
    }
  }

  // -------------------------------------------------------------- crossover

  /** One couple of a crossover: the two parents drawn and the two slots that
      their offspring overwrite. */
  datatype Mating = Mating(parent1: int, parent2: int, slot1: int, slot2: int)

  /** The first `h` genes of `a` followed by the genes of `b` from `h` on. */
  function Splice(a: string, b: string, h: nat): (c: string)
    requires h <= |a| && h <= |b|
    ensures |c| == |b|
    ensures forall k :: 0 <= k < |c| ==> c[k] == if k < h then a[k] else b[k]
  {
    a[..h] + b[h..]
  }

  /** The mating's parents lie below `lo` and have at least `h` genes, and its
      slots lie in `[lo, |ps|)`. */
  predicate MatingFits(ps: seq<string>, lo: int, h: nat, m: Mating) {
    0 <= m.parent1 < lo && m.parent1 < |ps| && h <= |ps[m.parent1]|
    && 0 <= m.parent2 < lo && m.parent2 < |ps| && h <= |ps[m.parent2]|
    && lo <= m.slot1 < |ps| && lo <= m.slot2 < |ps|
  }

  predicate MatingsFit(ps: seq<string>, lo: int, h: nat, ms: seq<Mating>) {
    forall j :: 0 <= j < |ms| ==> MatingFits(ps, lo, h, ms[j])
  }

  /** The phrases after the couples `ms`, in order: each couple writes
      `p1[..h] + p2[h..]` into its first slot and `p2[..h] + p1[h..]` into its
      second, both parents read before either write. */
  function Recombine(ps: seq<string>, lo: int, h: nat, ms: seq<Mating>): (r: seq<string>)
    requires MatingsFit(ps, lo, h, ms)
    ensures |r| == |ps|
    ensures forall k :: 0 <= k < lo && k < |ps| ==> r[k] == ps[k]
    decreases |ms|
  {
    if ms == [] then ps
    else
      var prev := Recombine(ps, lo, h, ms[..|ms| - 1]);
      var m := ms[|ms| - 1];
      var a := prev[m.parent1];
      var b := prev[m.parent2];
      prev[m.slot1 := Splice(a, b, h)][m.slot2 := Splice(b, a, h)]
  }

  /** The slots some couple of `ms` writes. */
  function Slots(ms: seq<Mating>): (slots: set<int>)
    ensures forall j :: 0 <= j < |ms| ==> ms[j].slot1 in slots && ms[j].slot2 in slots
    decreases |ms|
  {
    if ms == [] then {}
    else Slots(ms[..|ms| - 1]) + {ms[|ms| - 1].slot1, ms[|ms| - 1].slot2}
  }

  /** The couples up to and including the `i`-th act as the couples before it
      followed by the `i`-th. */
  lemma RecombineStep(ps: seq<string>, lo: int, h: nat, ms: seq<Mating>, i: nat)
    requires MatingsFit(ps, lo, h, ms) && i < |ms|
    ensures MatingsFit(ps, lo, h, ms[..i]) && MatingsFit(ps, lo, h, ms[..i + 1])
    ensures MatingFits(ps, lo, h, ms[i])
    ensures var prev := Recombine(ps, lo, h, ms[..i]);
            var m := ms[i];
            Recombine(ps, lo, h, ms[..i + 1])
              == prev[m.slot1 := Splice(prev[m.parent1], prev[m.parent2], h)]
                     [m.slot2 := Splice(prev[m.parent2], prev[m.parent1], h)]
    ensures Slots(ms[..i + 1]) == Slots(ms[..i]) + {ms[i].slot1, ms[i].slot2}
  {
    assert ms[..i + 1][..i] == ms[..i];
  }

  /** A phrase no couple writes keeps its value. */
  lemma {:induction false} RecombineKeepsUnwritten(ps: seq<string>, lo: int, h: nat, ms: seq<Mating>, k: int)
    requires MatingsFit(ps, lo, h, ms) && 0 <= k < |ps| && k !in Slots(ms)
    ensures Recombine(ps, lo, h, ms)[k] == ps[k]
    decreases |ms|
  {
    if ms != [] {
      var init := ms[..|ms| - 1];
      assert MatingsFit(ps, lo, h, init) by {
        forall j | 0 <= j < |init| ensures init[j] == ms[j] { }
      }
      RecombineKeepsUnwritten(ps, lo, h, init, k);
    }
  }

  /** Every written phrase is an offspring of two phrases of the original upper
      part `[0, lo)`: a first half of one spliced onto the second half of the
      other, as long as the second parent. */
  lemma {:induction false} RecombineWritesOffspring(ps: seq<string>, lo: int, h: nat, ms: seq<Mating>, k: int)
    requires MatingsFit(ps, lo, h, ms) && 0 <= k < |ps| && k in Slots(ms)
    ensures exists a, b :: 0 <= a < lo && 0 <= b < lo && a < |ps| && b < |ps|
                           && h <= |ps[a]| && h <= |ps[b]|
                           && Recombine(ps, lo, h, ms)[k] == Splice(ps[a], ps[b], h)
    decreases |ms|
  {
    var init := ms[..|ms| - 1];
    var m := ms[|ms| - 1];
    var prev := Recombine(ps, lo, h, init);
    assert MatingsFit(ps, lo, h, init) by {
      forall j | 0 <= j < |init| ensures init[j] == ms[j] { }
    }
    var r := Recombine(ps, lo, h, ms);
    if k == m.slot2 {
      assert r[k] == Splice(ps[m.parent2], ps[m.parent1], h);
    } else if k == m.slot1 {
      assert r[k] == Splice(ps[m.parent1], ps[m.parent2], h);
    } else {
      assert r[k] == prev[k];
      RecombineWritesOffspring(ps, lo, h, init, k);
    }
  }

  // --------------------------------------------------------------- mutation

  /** One mutation step: the chromosome chosen, the two positions drawn from the
      gene set's list, and the gene position to change. */
  datatype MutationPick = MutationPick(index: int, draws: seq<nat>, gene: int)

  /** Writes the new gene at position `g`, or the alternate when the new gene is
      already there. */
  function MutateGene(phrase: string, newGene: char, alternate: char, g: nat): (q: string)
    requires g < |phrase|
    ensures |q| == |phrase|
    ensures forall k :: 0 <= k < |q| && k != g ==> q[k] == phrase[k]
    ensures q[g] == newGene || q[g] == alternate
    ensures newGene != alternate ==> q[g] != phrase[g]
  {
    phrase[g := if newGene == phrase[g] then alternate else newGene]
  }

  predicate PickFits(ps: seq<string>, geneSet: string, p: MutationPick) {
    0 <= p.index < |ps| && 2 <= |geneSet| && DrawsFit(|geneSet|, p.draws, 2)
    && 0 <= p.gene < |ps[p.index]|
  }

  predicate PicksFit(ps: seq<string>, geneSet: string, steps: seq<MutationPick>) {
    forall j :: 0 <= j < |steps| ==> PickFits(ps, geneSet, steps[j])
  }

  /** The two genes a step samples from the gene set: the new gene and the alternate. */
  function StepGenes(geneSet: string, p: MutationPick): (g: seq<char>)
    requires 2 <= |geneSet| && DrawsFit(|geneSet|, p.draws, 2)
    ensures |g| == 2
  {
    Draw(geneSet, p.draws, 2).taken
  }

  /** The phrases after the mutation steps, in order. */
  function MutatePhrases(ps: seq<string>, geneSet: string, steps: seq<MutationPick>): (r: seq<string>)
    requires PicksFit(ps, geneSet, steps)
    ensures |r| == |ps|
    ensures forall k :: 0 <= k < |ps| ==> |r[k]| == |ps[k]|
    decreases |steps|
  {
    if steps == [] then ps
    else
      var prev := MutatePhrases(ps, geneSet, steps[..|steps| - 1]);
      var p := steps[|steps| - 1];
      var genes := StepGenes(geneSet, p);
      prev[p.index := MutateGene(prev[p.index], genes[0], genes[1], p.gene)]
  }

  /** The chromosomes some step chooses. */
  function Indices(steps: seq<MutationPick>): (indices: set<int>)
    ensures forall j :: 0 <= j < |steps| ==> steps[j].index in indices
    decreases |steps|
  {
    if steps == [] then {} else Indices(steps[..|steps| - 1]) + {steps[|steps| - 1].index}
  }

  /** The steps up to and including the `i`-th act as the steps before it
      followed by the `i`-th. */
  lemma MutateStep(ps: seq<string>, geneSet: string, steps: seq<MutationPick>, i: nat)
    requires PicksFit(ps, geneSet, steps) && i < |steps|
    ensures PicksFit(ps, geneSet, steps[..i]) && PicksFit(ps, geneSet, steps[..i + 1])
    ensures PickFits(ps, geneSet, steps[i])
    ensures var prev := MutatePhrases(ps, geneSet, steps[..i]);
            var p := steps[i];
            var genes := StepGenes(geneSet, p);
            MutatePhrases(ps, geneSet, steps[..i + 1])
              == prev[p.index := MutateGene(prev[p.index], genes[0], genes[1], p.gene)]
    ensures Indices(steps[..i + 1]) == Indices(steps[..i]) + {steps[i].index}
  {
    assert steps[..i + 1][..i] == steps[..i];
  }

  /** A phrase no step chooses keeps its value. */
  lemma {:induction false} MutateKeepsUnchosen(ps: seq<string>, geneSet: string, steps: seq<MutationPick>, k: int)
    requires PicksFit(ps, geneSet, steps) && 0 <= k < |ps| && k !in Indices(steps)
    ensures MutatePhrases(ps, geneSet, steps)[k] == ps[k]
    decreases |steps|
  {
    if steps != [] {
      var init := steps[..|steps| - 1];
      assert PicksFit(ps, geneSet, init) by {
        forall j | 0 <= j < |init| ensures init[j] == steps[j] { }
      }
      MutateKeepsUnchosen(ps, geneSet, init, k);
    }
  }

  /** Each step changes one gene of one phrase and nothing else: the new gene comes
      from the gene set, and when the gene set has no repeated character it
      differs from the gene it replaces. */
  lemma MutationStepChangesOneGene(ps: seq<string>, geneSet: string, steps: seq<MutationPick>, p: MutationPick)
    requires PicksFit(ps, geneSet, steps + [p])
    ensures var before := MutatePhrases(ps, geneSet, steps);
            var after := MutatePhrases(ps, geneSet, steps + [p]);
            |after| == |before|
            && (forall k :: 0 <= k < |before| && k != p.index ==> after[k] == before[k])
            && |after[p.index]| == |before[p.index]|
            && (forall g :: 0 <= g < |before[p.index]| && g != p.gene ==> after[p.index][g] == before[p.index][g])
            && after[p.index][p.gene] in geneSet
            && (Distinct(geneSet) ==> after[p.index][p.gene] != before[p.index][p.gene])
  {
    var all := steps + [p];
    assert all[..|all| - 1] == steps;
    assert PicksFit(ps, geneSet, steps) by {
      forall j | 0 <= j < |steps| ensures steps[j] == all[j] { }
    }
    assert PickFits(ps, geneSet, all[|all| - 1]);
    var genes := StepGenes(geneSet, p);
    DrawIsDistinct(geneSet, p.draws, 2);
    assert genes[0] in geneSet && genes[1] in geneSet;
    assert Distinct(geneSet) ==> genes[0] != genes[1];
  }
}
