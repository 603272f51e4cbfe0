/**
 The selection rule of `fb_find_logo`, once the global flags have let it
 through: a walk over the catalog in declaration order that applies
 ASSIGN_LOGO to every entry whose depth block, build option and machine guard
 admit it.

 ASSIGN_LOGO has two builds. Without CONFIG_LOGO_OF_SELECT it overwrites the
 result unconditionally, so the LAST eligible entry wins. With it, the result
 is filled only while still empty and only by an entry whose name equals the
 firmware-supplied name, so the FIRST eligible entry of that name wins, and
 there is no fallback when no entry matches.
 */
module LogoSelect {
  import opened Wrappers
  import opened LogoCatalog

  /** `assign_if_match`: the entry itself when the firmware name equals its name, else nothing. */
  function AssignIfMatch(ofLogo: Option<string>, e: Entry): (r: Option<Entry>)
    ensures r.Some? <==> ofLogo.Some? && ofLogo.value == e.name
    ensures r.Some? ==> r.value == e
  {
    if ofLogo.Some? && ofLogo.value == e.name then Some(e) else None
  }

  /** An entry that ASSIGN_LOGO in the OF-select build would store into an empty result. */
  predicate Matches(e: Entry, depth: int, ofLogo: Option<string>, isMac: bool) {
    Eligible(e, depth, isMac) && AssignIfMatch(ofLogo, e).Some?
  }

  /** Index of the last eligible entry: where the overwriting walk ends up. */
  function LastEligible(c: seq<Entry>, depth: int, isMac: bool): (r: Option<nat>)
    ensures r.Some? ==> r.value < |c| && Eligible(c[r.value], depth, isMac)
    ensures r.Some? ==> forall j :: r.value < j < |c| ==> !Eligible(c[j], depth, isMac)
    ensures r.None? ==> forall j :: 0 <= j < |c| ==> !Eligible(c[j], depth, isMac)
    decreases |c|
  {
    if c == [] then None
    else if Eligible(c[|c| - 1], depth, isMac) then Some(|c| - 1)
    else LastEligible(c[..|c| - 1], depth, isMac)
  }

  /** Index of the first eligible entry carrying the firmware name: what the fill-once walk keeps. */
  function FirstMatch(c: seq<Entry>, depth: int, ofLogo: Option<string>, isMac: bool): (r: Option<nat>)
    ensures r.Some? ==> r.value < |c| && Matches(c[r.value], depth, ofLogo, isMac)
    ensures r.Some? ==> forall j :: 0 <= j < r.value ==> !Matches(c[j], depth, ofLogo, isMac)
    ensures r.None? ==> forall j :: 0 <= j < |c| ==> !Matches(c[j], depth, ofLogo, isMac)
    decreases |c|
  {
    if c == [] then None
    else
      var earlier := FirstMatch(c[..|c| - 1], depth, ofLogo, isMac);
      if earlier.Some? then earlier
      else if Matches(c[|c| - 1], depth, ofLogo, isMac) then Some(|c| - 1)
      else None
  }

  /**
   The logo the selector returns for catalog `c` when neither `nologo` nor
   `logos_freed` is set.
   */
  function Selected(ofSelect: bool, c: seq<Entry>, depth: int, ofLogo: Option<string>, isMac: bool)
    : (r: Option<Entry>)
    ensures r.Some? ==> r.value in c && Eligible(r.value, depth, isMac)
    ensures depth < 1 ==> r == None
    ensures !ofSelect ==> (r.Some? <==> exists j :: 0 <= j < |c| && Eligible(c[j], depth, isMac))
    ensures ofSelect ==> (r.Some? <==> exists j :: 0 <= j < |c| && Matches(c[j], depth, ofLogo, isMac))
    ensures ofSelect && r.Some? ==> ofLogo == Some(r.value.name)
    ensures ofSelect && ofLogo.None? ==> r == None
  {
    var k := if ofSelect then FirstMatch(c, depth, ofLogo, isMac) else LastEligible(c, depth, isMac);
    if k.Some? then Some(c[k.value]) else None
  }

  /**
   The body of `fb_find_logo` after its flag test: the three cumulative depth
   blocks, each applying ASSIGN_LOGO to its compiled-in entries in order.
   Since the catalog is grouped by tier, testing each entry's own threshold
   visits exactly the entries those blocks visit, in the same order.
   */
  method ScanCatalog(ofSelect: bool, c: seq<Entry>, depth: int, ofLogo: Option<string>, isMac: bool)
    returns (logo: Option<Entry>)
    ensures logo == Selected(ofSelect, c, depth, ofLogo, isMac)
  {
    logo := None;
    for i := 0 to |c|
      invariant logo == Selected(ofSelect, c[..i], depth, ofLogo, isMac)
    {
      var e := c[i];
      assert c[..i + 1][..i] == c[..i];
      if Eligible(e, depth, isMac) {
        // ASSIGN_LOGO(e)
        if !ofSelect {
          logo := Some(e);
        } else if logo == None {
          logo := AssignIfMatch(ofLogo, e);
        }
      }
    }
    assert c[..|c|] == c;
  }

  /**
   With OF select, a result once assigned is never replaced: scanning more of
   the catalog returns what the scan of a prefix already returned.
   */
  lemma OfSelectKeepsFirstAssignment(c: seq<Entry>, i: int, depth: int, ofLogo: Option<string>, isMac: bool)
    requires 0 <= i <= |c|
    requires Selected(true, c[..i], depth, ofLogo, isMac).Some?
    ensures Selected(true, c, depth, ofLogo, isMac) == Selected(true, c[..i], depth, ofLogo, isMac)
  {
  }

  /**
   Without OF select, at a depth of 8 or more any eligible 224-colour logo
   overrides every mono and VGA16 logo: the result is a 224-colour logo.
   */
  lemma Clut224Overrides(c: seq<Entry>, depth: int, ofLogo: Option<string>, isMac: bool, j: int)
    requires IsCatalog(c)
    requires 0 <= j < |c| && TierOf(c[j].id) == Clut224 && Eligible(c[j], depth, isMac)
    ensures Selected(false, c, depth, ofLogo, isMac).Some?
    ensures TierOf(Selected(false, c, depth, ofLogo, isMac).value.id) == Clut224
  {
  }

  /**
   The depth blocks are cumulative: with OF select, a named mono logo is
   returned at every depth of 1 or more, 8 included, as long as it is the
   first entry of that name and compiled in.
   */
  lemma OfSelectReachesLowerTier(c: seq<Entry>, depth: int, isMac: bool)
    requires IsCatalog(c) && c[0].enabled && depth >= 1
    ensures Selected(true, c, depth, Some(c[0].name), isMac) == Some(c[0])
  {
  }

  /**
   With OF select, a logo chosen for some depth is still the one chosen for
   any greater depth: a deeper display only admits entries declared later.
   */
  lemma OfSelectStableUnderDeeperDepth(c: seq<Entry>, depth: int, depth': int, ofLogo: Option<string>, isMac: bool)
    requires IsCatalog(c) && depth <= depth'
    requires Selected(true, c, depth, ofLogo, isMac).Some?
    ensures Selected(true, c, depth', ofLogo, isMac) == Selected(true, c, depth, ofLogo, isMac)
  {
  }

  /** The catalog as a build without the Macintosh logo would have it. */
  function WithoutMac(c: seq<Entry>): seq<Entry> {
    seq(|c|, j requires 0 <= j < |c| => if NeedsMac(c[j].id) then c[j].(enabled := false) else c[j])
  }

  /**
   When the machine is not a Macintosh, the Macintosh logo is skipped and the
   scan goes on: the result is the one a build without that logo gives.
   */
  lemma MacSkipIsTransparent(ofSelect: bool, c: seq<Entry>, depth: int, ofLogo: Option<string>)
    ensures Selected(ofSelect, c, depth, ofLogo, false) == Selected(ofSelect, WithoutMac(c), depth, ofLogo, true)
  {
    var d := WithoutMac(c);
    forall j | 0 <= j < |c|
      ensures Eligible(c[j], depth, false) <==> Eligible(d[j], depth, true)
      ensures c[j].name == d[j].name
    {
      assert d[j] == if NeedsMac(c[j].id) then c[j].(enabled := false) else c[j];
    }
  }
}
