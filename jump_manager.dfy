/** The main window's back/forward bookkeeping between the pages of its notebook. */
module Navigation {
  import opened Wrappers

  /**
   * The jump manager. Every page lives in one notebook and is named by its page
   * index: four fixed pages (overview, apps, tweaks and the "please wait" page),
   * then one page per module opened so far. `M` stands for the module class the
   * loader hands out; the manager only stores and returns it.
   */
  class JumpManager<M> {
    // The fixed pages; unset until the window appends them to the notebook.
    var overviewIndex: Option<int>
    var appsIndex: Option<int>
    var tweaksIndex: Option<int>
    var waitIndex: Option<int>
    // The page "forward" goes to, and the page on show.
    var nextModule: Option<int>
    var currentModuleIndex: Option<int>
    // Module name to page index, and page index to module.
    var loadedModules: map<string, int>
    var modulesIndex: map<int, M>

    /** Every page a name is recorded on holds a module, so looking a loaded name up never fails. */
    ghost predicate Valid()
      reads this`loadedModules, this`modulesIndex
    {
      forall name :: name in loadedModules ==> loadedModules[name] in modulesIndex
    }

    constructor ()
      ensures Valid()
      ensures overviewIndex == None && appsIndex == None && tweaksIndex == None && waitIndex == None
      ensures nextModule == None && currentModuleIndex == None
      ensures loadedModules == map[] && modulesIndex == map[]
      ensures !CanBackwards() && !CanForward()
      ensures forall name :: !ModuleIsLoaded(name)
    {
      overviewIndex, appsIndex, tweaksIndex, waitIndex := None, None, None, None;
      nextModule, currentModuleIndex := None, None;
      loadedModules, modulesIndex := map[], map[];
    }

    /** The window records where it appended its four fixed pages. */
    method SetFixedPages(overview: int, apps: int, tweaks: int, wait: int)
      modifies this`overviewIndex, this`appsIndex, this`tweaksIndex, this`waitIndex
      ensures overviewIndex == Some(overview) && appsIndex == Some(apps)
      ensures tweaksIndex == Some(tweaks) && waitIndex == Some(wait)
    {
      overviewIndex, appsIndex, tweaksIndex, waitIndex := Some(overview), Some(apps), Some(tweaks), Some(wait);
    }

    /** "Back" is offered while some page other than the tweaks list is current. */
    predicate CanBackwards()
      reads this`currentModuleIndex, this`tweaksIndex
    {
      currentModuleIndex != None && currentModuleIndex != tweaksIndex
    }

    /** "Forward" is offered while a page is pending and it is not the one on show. */
    predicate CanForward()
      reads this`nextModule, this`currentModuleIndex
    {
      nextModule != None && nextModule != currentModuleIndex
    }

    /**
     * Going back always lands on the tweaks list and remembers the page left,
     * whether or not going back was offered.
     */
    method GetBackwardsIndex() returns (index: Option<int>)
      modifies this`nextModule, this`currentModuleIndex
      ensures index == tweaksIndex
      ensures currentModuleIndex == tweaksIndex && nextModule == old(currentModuleIndex)
      ensures !CanBackwards()
      ensures old(CanBackwards()) ==> CanForward()
    {
      nextModule := currentModuleIndex;
      currentModuleIndex := tweaksIndex;
      index := tweaksIndex;
    }

    /**
     * Going forward consumes the pending page and makes it current; with
     * nothing pending it yields None and leaves no page current.
     */
    method GetForwardIndex() returns (index: Option<int>)
      modifies this`nextModule, this`currentModuleIndex
      ensures index == old(nextModule)
      ensures currentModuleIndex == index && nextModule == None
      ensures !CanForward()
      ensures old(nextModule) == None ==> index == None && currentModuleIndex == None
    {
      index := nextModule;
      nextModule := None;
      currentModuleIndex := index;
    }

    predicate ModuleIsLoaded(name: string)
      reads this`loadedModules
    {
      name in loadedModules
    }

    /**
     * Records that `mod` is on page `index` under `name` and shows it. The
     * name is rebound on every call: the last page recorded for a name wins.
     */
    method StoreCurrentModule(name: string, mod: M, index: int)
      requires Valid()
      modifies this`loadedModules, this`modulesIndex, this`currentModuleIndex, this`nextModule
      ensures Valid()
      ensures loadedModules == old(loadedModules)[name := index]
      ensures modulesIndex == old(modulesIndex)[index := mod]
      ensures currentModuleIndex == Some(index) && nextModule == Some(index)
      ensures ModuleIsLoaded(name) && GetModuleAndIndex(name) == (mod, index)
      ensures GetModuleFromIndex(Some(index)) == Some(mod) && GetCurrentModule() == Some(mod)
      ensures !CanForward()
      ensures CanBackwards() <==> tweaksIndex != Some(index)
    {
      loadedModules := loadedModules[name := index];
      currentModuleIndex := Some(index);
      modulesIndex := modulesIndex[index := mod];
      nextModule := Some(index);
    }

    /** The module a loaded name stands for and the page it is on. */
    function GetModuleAndIndex(name: string): (r: (M, int))
      reads this`loadedModules, this`modulesIndex
      requires Valid() && ModuleIsLoaded(name)
      ensures r.1 == loadedModules[name] && r.1 in modulesIndex && modulesIndex[r.1] == r.0
    {
      var index := loadedModules[name];
      (modulesIndex[index], index)
    }

    /** The module on page `index`; None where Python raises KeyError (a fixed page, an unused page, no page). */
    function GetModuleFromIndex(index: Option<int>): (r: Option<M>)
      reads this`modulesIndex
      ensures r != None <==> index != None && index.value in modulesIndex
      ensures r != None ==> modulesIndex[index.value] == r.value
    {
      if index != None && index.value in modulesIndex then Some(modulesIndex[index.value]) else None
    }

    /** The module on the current page, None where Python raises KeyError. */
    function GetCurrentModule(): (r: Option<M>)
      reads this`modulesIndex, this`currentModuleIndex
      ensures r != None <==> currentModuleIndex != None && currentModuleIndex.value in modulesIndex
      ensures r != None ==> modulesIndex[currentModuleIndex.value] == r.value
    {
      GetModuleFromIndex(currentModuleIndex)
    }
  }

  /**
   * The back button and then the next button, as the window drives them:
   * starting from a module page, forward is offered in between and returns to
   * that page, after which nothing is pending.
   */
  method BackThenForward<M>(jumper: JumpManager<M>) returns (back: Option<int>, forwardOffered: bool, forward: Option<int>)
    requires jumper.CanBackwards()
    modifies jumper`nextModule, jumper`currentModuleIndex
    ensures back == jumper.tweaksIndex && forwardOffered
    ensures forward == old(jumper.currentModuleIndex) && jumper.currentModuleIndex == forward
    ensures jumper.nextModule == None && !jumper.CanForward()
  {
    back := jumper.GetBackwardsIndex();
    forwardOffered := jumper.CanForward();
    forward := jumper.GetForwardIndex();
  }

  /**
   * The window's start-up and first navigation: fixed pages 0 to 3, one module
   * opened on page 4, then back and forward.
   */
  method OpenBackForward<M>(mod: M) returns (backAtStart: bool, back: Option<int>, shown: Option<M>, forward: Option<int>, forwardAfter: bool)
    ensures !backAtStart
    ensures back == Some(2) && shown == None
    ensures forward == Some(4) && !forwardAfter
  {
    var jumper := new JumpManager<M>();
    jumper.SetFixedPages(0, 1, 2, 3);
    backAtStart := jumper.CanBackwards();
    jumper.StoreCurrentModule("Compiz", mod, 4);
    back := jumper.GetBackwardsIndex();
    shown := jumper.GetModuleFromIndex(back);
    forward := jumper.GetForwardIndex();
    forwardAfter := jumper.CanForward();
  }
}
