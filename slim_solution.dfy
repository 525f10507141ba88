/**
 * The compact answer handed to the transport layer: the total income and
 * the names of the accepted contracts in chronological order. Unlike a
 * Solution it is updated in place, so it is a class.
 */
module SlimSolutions {
  import opened Contracts

  class SlimSolution {
    var income: int
    var path: seq<string>

    constructor (income: int, path: seq<string>)
      ensures this.income == income && this.path == path
    {
      this.income := income;
      this.path := path;
    }

    /** The smart constructor `empty()`. */
    constructor Empty()
      ensures income == 0 && path == []
      ensures IsEmpty()
    {
      income := 0;
      path := [];
    }

    predicate IsEmpty(): (r: bool)
      reads this
      ensures r ==> path == [] && income == 0
    {
      income == 0 && |path| == 0
    }

    /**
     * Accepts `c`: its price is added to the income and its name appended
     * to the path; the receiver itself is returned.
     */
    method AddContract(c: Contract) returns (self: SlimSolution)
      modifies this
      ensures self == this
      ensures income == old(income) + c.price
      ensures path == old(path) + [c.name]
      ensures |path| == |old(path)| + 1 && path[..|old(path)|] == old(path)
      ensures !IsEmpty()
    {
      income := income + c.price;
      path := path + [c.name];
      self := this;
    }
  }
}
