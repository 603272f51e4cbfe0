/**
 The module-wide state of the logo driver and its two entry points: the
 selector `fb_find_logo` and the late-init hook that marks the logos freed.
 */
module FbLogo {
  import opened Wrappers
  import opened LogoCatalog
  import opened LogoSelect

  class LogoModule {
    /** CONFIG_LOGO_OF_SELECT: which build of ASSIGN_LOGO is compiled. */
    const ofSelect: bool
    /** The logo variants, with the Kconfig options of this build. */
    const catalog: seq<Entry>
    /** The `nologo` module parameter, fixed once parsed. */
    const nologo: bool
    /** Set by the late-init hook, before `kernel_init` frees the init data holding the logos, so no later lookup uses them. */
    var logosFreed: bool

    /** The catalog has the shape every build gives it. */
    ghost predicate Valid() {
      IsCatalog(catalog)
    }

    /** The driver's state at load: `nologo` as parsed, logos not yet freed. */
    constructor (ofSelect: bool, catalog: seq<Entry>, nologo: bool)
      requires IsCatalog(catalog)
      ensures Valid()
      ensures this.ofSelect == ofSelect && this.catalog == catalog
      ensures this.nologo == nologo && !logosFreed
    {
      this.ofSelect := ofSelect;
      this.catalog := catalog;
      this.nologo := nologo;
      logosFreed := false;
    }

    /** `fb_logo_late_init`: mark the logos freed; it always succeeds. */
    method LateInit() returns (status: int)
      modifies this`logosFreed
      ensures logosFreed && status == 0
    {
      logosFreed := true;
      status := 0;
    }

    /**
     `fb_find_logo`. `ofLogo` is the `logo` property of the device tree's
     `/chosen` node (or `/chosen@0` when there is no `/chosen`), None when the
     node or the property is missing; only the OF-select build consults it.
     The method changes no state.
     */
    method FindLogo(depth: int, ofLogo: Option<string>, isMac: bool) returns (logo: Option<Entry>)
      requires Valid()
      ensures nologo || logosFreed ==> logo == None
      ensures !nologo && !logosFreed ==> logo == Selected(ofSelect, catalog, depth, ofLogo, isMac)
    {
      if nologo || logosFreed {
        return None;
      }
      logo := ScanCatalog(ofSelect, catalog, depth, ofLogo, isMac);
    }
  }

  /** After the late-init hook has run, every lookup returns no logo. */
  method LookupAfterLateInit(m: LogoModule, depth: int, ofLogo: Option<string>, isMac: bool)
    returns (logo: Option<Entry>)
    requires m.Valid()
    modifies m
    ensures m.logosFreed
    ensures logo == None
  {
    var _ := m.LateInit();
    logo := m.FindLogo(depth, ofLogo, isMac);
  }

  /** Two lookups with the same state and inputs return the same logo. */
  method RepeatedLookup(m: LogoModule, depth: int, ofLogo: Option<string>, isMac: bool)
    returns (first: Option<Entry>, second: Option<Entry>)
    requires m.Valid()
    ensures first == second
    ensures m.nologo || m.logosFreed ==> first == None
  {
    first := m.FindLogo(depth, ofLogo, isMac);
    second := m.FindLogo(depth, ofLogo, isMac);
  }
}
