/** The candidate solution record of the engine. */
module DataStructures {

  /** One candidate: a phrase and the fitness last computed for it. Both are
      settable independently, and the engine updates them through references. */
  class Chromosome {
    var phrase: string
    var fitness: int

    /** Stores both values as given; the fitness is not range-checked. */
    constructor (phrase: string, fitness: int)
      ensures this.phrase == phrase && this.fitness == fitness
    {
      this.phrase := phrase;
      this.fitness := fitness;
    }

    /** The `Phrase` setter: the fitness keeps its old value. */
    method SetPhrase(value: string)
      modifies this`phrase
      ensures phrase == value && fitness == old(fitness)
    {
      phrase := value;
    }

    /** The `Fitness` setter: the phrase keeps its old value. */
    method SetFitness(value: int)
      modifies this`fitness
      ensures fitness == value && phrase == old(phrase)
    {
      fitness := value;
    }
  }
}
