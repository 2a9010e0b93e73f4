/** Shared-object nodes of the dynamic linker and the list of loaded ones. */
module Dsos {
  import opened DepGraph

  /** The fields of `struct dso` that the modelled code reads or writes. A NULL-terminated
      `deps` array is a sequence. */
  class Dso {
    var next: Dso?
    var deps: seq<Dso>
    var ndepsDirect: nat
    var nextDep: nat
    var mark: bool
    var bfsBuilt: bool
    var relocated: bool
    /** The table of deferred relocations, the number of its entries, and the list of DSOs that have one. */
    var lazy: array?<nat>
    var lazyCnt: nat
    var lazyNext: Dso?
    /** From the dynamic section: whether all symbols are to be bound at once, and the sizes of the
        relocation tables in bytes. */
    const bindNow: bool
    const relSize: nat
    const relaSize: nat
    const pltSize: nat

    constructor (bindNow: bool, relSize: nat, relaSize: nat, pltSize: nat)
      ensures next == null && deps == [] && ndepsDirect == 0 && !mark && !bfsBuilt
      ensures !relocated && lazy == null && lazyCnt == 0 && lazyNext == null
      ensures this.bindNow == bindNow && this.relSize == relSize && this.relaSize == relaSize && this.pltSize == pltSize
    {
      next, deps, ndepsDirect, nextDep, mark, bfsBuilt := null, [], 0, 0, false, false;
      relocated, lazy, lazyCnt, lazyNext := false, null, 0, null;
      this.bindNow, this.relSize, this.relaSize, this.pltSize := bindNow, relSize, relaSize, pltSize;
    }
  }

  /** `all` is the chain of `next` links from its first node to NULL. */
  ghost predicate InList(all: seq<Dso>)
    reads all`next
  {
    && Distinct(all)
    && forall i | 0 <= i < |all| :: all[i].next == if i + 1 < |all| then all[i + 1] else null
  }
}
