/**
 * The pass registry of the kernel structure analyzer (Global.h): the global
 * context keeps pass-specific data by name, each name registered once, and
 * an iterative module pass has default hooks that a concrete pass overrides.
 *
 * A `void*` is an opaque handle with 0 as the null pointer; an llvm::Module*
 * is an opaque handle too.
 */
module GlobalContext {

  /** A void*, as an opaque handle. */
  type Ptr = nat

  const NullPtr: Ptr := 0

  /** The pass-data map of GlobalContext. */
  class GlobalContext {
    var passData: map<string, Ptr>

    constructor ()
      ensures passData == map[]
    {
      passData := map[];
    }

    /**
     * add: registers `data` under a new name and reports true; a name that is
     * already registered keeps its entry and the call reports false.
     */
    method Add(name: string, data: Ptr) returns (ok: bool)
      modifies this
      ensures ok <==> name !in old(passData)
      ensures ok ==> passData == old(passData)[name := data]
      ensures !ok ==> passData == old(passData)
      ensures Get(name) == if ok then data else old(Get(name))
    {
      if name in passData {
        return false;
      }
      passData := passData[name := data];
      return true;
    }

    /** get: the stored pointer, or null for an unknown name. */
    function Get(name: string): (p: Ptr)
      reads this
      ensures name in passData ==> p == passData[name]
      ensures name !in passData ==> p == NullPtr
    {
      if name in passData then passData[name] else NullPtr
    }
  }

  /** An llvm::Module*, as an opaque handle. */
  type Module = nat

  /**
   * IterativeModulePass with its default hooks: initialization and
   * finalization report success, the iterative pass reports that nothing
   * changed.
   */
  class IterativeModulePass {
    const ctx: GlobalContext
    const id: string

    constructor (ctx: GlobalContext, id: string)
      ensures this.ctx == ctx && this.id == id
    {
      this.ctx := ctx;
      this.id := id;
    }

    /** doInitialization: succeeds by default. */
    predicate DoInitialization(m: Module)
      ensures DoInitialization(m)
    {
      true
    }

    /** doFinalization: succeeds by default. */
    predicate DoFinalization(m: Module)
      ensures DoFinalization(m)
    {
      true
    }

    /** doModulePass: reports no change by default. */
    predicate DoModulePass(m: Module)
      ensures !DoModulePass(m)
    {
      false
    }
  }
}
