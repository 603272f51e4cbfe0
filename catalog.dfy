/**
 The catalog of boot logos that `fb_find_logo` walks: fourteen variants in a
 fixed declaration order, each with a depth tier, a build-time "enabled" flag
 (its Kconfig option) and, for the Macintosh logo only, a machine guard.
 The pixel data of a logo is opaque and not modelled; an entry carries the
 logo's name, which is what a firmware override is compared with.
 */
module LogoCatalog {

  /** The colour-depth classes of the logos. */
  datatype Tier = Mono | Vga16 | Clut224

  /** The `depth >= n` test guarding each block of the selector. */
  function Threshold(t: Tier): int {
    match t
    case Mono => 1
    case Vga16 => 4
    case Clut224 => 8
  }

  /** The variants the selector knows about, one per ASSIGN_LOGO site. */
  datatype LogoId =
    | LinuxMono | SuperhMono
    | LinuxVga16 | SuperhVga16
    | LinuxClut224 | DecClut224 | MacClut224 | PariscClut224 | SgiClut224
    | SunClut224 | SuperhClut224
    | Baw1024x600Clut224 | Baw800x480Clut224 | Baw480x272Clut224

  function TierOf(id: LogoId): Tier {
    match id
    case LinuxMono | SuperhMono => Mono
    case LinuxVga16 | SuperhVga16 => Vga16
    case _ => Clut224
  }

  /** Only the Macintosh logo is guarded by a machine check (`MACH_IS_MAC`). */
  predicate NeedsMac(id: LogoId) {
    id == MacClut224
  }

  /** The order in which the selector visits the variants. */
  const Declared: seq<LogoId> := [
    LinuxMono, SuperhMono,
    LinuxVga16, SuperhVga16,
    LinuxClut224, DecClut224, MacClut224, PariscClut224, SgiClut224,
    SunClut224, SuperhClut224,
    Baw1024x600Clut224, Baw800x480Clut224, Baw480x272Clut224
  ]

  /**
   One catalog slot: which variant, the name stored in its logo data, and
   whether the build configuration compiled it in.
   */
  datatype Entry = Entry(id: LogoId, name: string, enabled: bool)

  /** A catalog as a build produces it: every variant, in declaration order. */
  predicate IsCatalog(c: seq<Entry>) {
    |c| == |Declared| && forall i :: 0 <= i < |c| ==> c[i].id == Declared[i]
  }

  /**
   An entry the selector may assign for a display of depth `depth`: it is
   compiled in, its block's depth test passes, and its machine guard holds.
   */
  predicate Eligible(e: Entry, depth: int, isMac: bool) {
    e.enabled && Threshold(TierOf(e.id)) <= depth && (NeedsMac(e.id) ==> isMac)
  }

  /** Later variants never belong to a lower tier: the blocks run 1, 4, 8. */
  lemma DeclaredTiersAscend(i: int, j: int)
    requires 0 <= i <= j < |Declared|
    ensures Threshold(TierOf(Declared[i])) <= Threshold(TierOf(Declared[j]))
  {
  }
}
