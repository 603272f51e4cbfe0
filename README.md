# Boot-logo selection (`fb_find_logo`)

A Dafny model of the boot-logo selector of the Linux framebuffer logo driver
(`drivers/video/logo/logo.c`). At boot the framebuffer console asks
`fb_find_logo(depth)` for a logo fitting a display of colour depth `depth`.
The driver answers from a fixed, ordered catalog of compiled-in logo
variants, or answers NULL. Two module-wide flags can stop it: the `nologo`
module parameter, and `logos_freed`. The logos live in init data that
`kernel_init` frees. The late-init hook sets `logos_freed` before that release,
so that no later lookup can use the logos.

The model has four modules:

- `Wrappers` (wrappers.dfy): `Option`, where `None` is a NULL pointer.
- `LogoCatalog` (catalog.dfy): the fourteen logo variants. Each has a tier
  (mono, VGA16 or 224-colour) and a depth threshold (1, 4 or 8). The
  declaration order is fixed. Each entry carries its name and a build-time
  "enabled" flag that stands for its Kconfig option. The Macintosh logo also
  has a machine guard.
- `LogoSelect` (select.dfy): the walk over the catalog, with both builds of
  `ASSIGN_LOGO`. `ScanCatalog` is the loop. `LastEligible`, `FirstMatch` and
  `Selected` are the specification functions it is proved against. The
  lemmas relate whole scans to each other.
- `FbLogo` (fb_logo.dfy): the class `LogoModule`. It holds the two flags and
  the build's options, and it has the late-init hook and `fb_find_logo`
  itself.

The two builds behave very differently:
- Without `CONFIG_LOGO_OF_SELECT`, `ASSIGN_LOGO` overwrites the result every
  time. So the last eligible entry wins, across all depth blocks the depth
  passes.
- With `CONFIG_LOGO_OF_SELECT`, `ASSIGN_LOGO` only fills an empty result, and
  only with an entry whose name equals the device tree's `logo` string. So the
  first eligible entry of that name wins. If no entry matches, or the string is
  absent, the result is NULL.

An entry is "eligible" when all three hold:
- it is compiled in;
- its block's `depth >= 1/4/8` test passes;
- for the Macintosh logo, `MACH_IS_MAC` holds.

Notes on what the code does:
- The `depth >= 1`, `depth >= 4` and `depth >= 8` blocks are cumulative
  (logo.c:89, 100, 111). At depth 8 all three run.
- Without OF select the last eligible entry wins, because `ASSIGN_LOGO`
  overwrites (logo.c:55).
- With OF select, an absent or unmatched name gives NULL (logo.c:45-49, 151).
  There is no default.
- An empty name is compared like any other string (logo.c:45). It matches an
  entry whose name is empty.

## Model

| member | source | states |
|---|---|---|
| `LogoCatalog.DeclaredTiersAscend` | drivers/video/logo/logo.c:89-150 | In declaration order the depth thresholds never decrease (mono block, then VGA16, then 224-colour). |
| `LogoSelect.AssignIfMatch` | drivers/video/logo/logo.c:43-50 | Returns the entry exactly when a firmware name is present and equals the entry's name. Otherwise it returns NULL. |
| `LogoSelect.LastEligible` | drivers/video/logo/logo.c:55 | The overwriting walk ends on an eligible entry with no eligible entry after it. If it yields nothing, no entry is eligible. |
| `LogoSelect.FirstMatch` | drivers/video/logo/logo.c:57-61 | The fill-once walk keeps an eligible entry carrying the firmware name with no such entry before it. If it yields nothing, no eligible entry carries that name. |
| `LogoSelect.Selected` | drivers/video/logo/logo.c:89-151 | Any returned logo is in the catalog, compiled in, its threshold is at most the depth, and its machine guard holds. Depth below 1 gives NULL. Without OF select a logo is returned iff some entry is eligible. With OF select a logo is returned iff some eligible entry carries the firmware name. That logo carries that name, and an absent name gives NULL. |
| `LogoSelect.ScanCatalog` | drivers/video/logo/logo.c:89-151 | The loop of guarded `ASSIGN_LOGO` steps over the catalog returns exactly `Selected`, in both builds. |
| `LogoSelect.OfSelectKeepsFirstAssignment` | drivers/video/logo/logo.c:57-61 | With OF select, once a prefix of the scan has assigned a logo, the full scan returns that same logo. It is never reassigned. |
| `LogoSelect.Clut224Overrides` | drivers/video/logo/logo.c:111-150 | Without OF select, if any 224-colour logo is eligible, the result is a 224-colour logo. It overrides the mono and VGA16 ones. |
| `LogoSelect.OfSelectReachesLowerTier` | drivers/video/logo/logo.c:89-98 | With OF select and any depth of at least 1, 8 included, naming the compiled-in generic mono logo returns it. The depth blocks are cumulative. |
| `LogoSelect.OfSelectStableUnderDeeperDepth` | drivers/video/logo/logo.c:89-150 | With OF select, the logo chosen for a depth is also the one chosen for any greater depth. |
| `LogoSelect.MacSkipIsTransparent` | drivers/video/logo/logo.c:120-124 | On a machine that is not a Macintosh, the result is the one a build without the Macintosh logo gives. The scan skips that entry and goes on. |
| `FbLogo.LogoModule.constructor` | drivers/video/logo/logo.c:23-32 | Initial state: `nologo` as configured (a constant afterwards), `logos_freed` false, and a catalog of the declared shape (`Valid`). |
| `FbLogo.LogoModule.LateInit` | drivers/video/logo/logo.c:34-38 | Sets `logos_freed`, returns 0, and changes nothing else. |
| `FbLogo.LogoModule.FindLogo` | drivers/video/logo/logo.c:68-152 | If `nologo` or `logos_freed` is set, returns NULL for every depth and name. Otherwise returns `Selected` of the build's catalog. It changes no state (no modifies clause). |
| `FbLogo.LookupAfterLateInit` | drivers/video/logo/logo.c:34-40 | After the late-init hook, `logos_freed` is set and a lookup returns NULL. |
| `FbLogo.RepeatedLookup` | drivers/video/logo/logo.c:68-152 | Two lookups with the same state and inputs return the same result. With a flag set, both are NULL. |

## Left out

- Device-tree access (`of_find_node_by_path`, `of_property_read_string`) is a call into other code. Its combined outcome is the `ofLogo` parameter of `FindLogo`. It holds the `logo` property of the `/chosen` node. The `/chosen@0` node is used only when there is no `/chosen` node at all. It is None when the chosen node or its `logo` property is missing; a `/chosen` node without that property gives None, and `/chosen@0` is not read.
- `MACH_IS_MAC` is a hardware probe. It is the `isMac` parameter.
- The logo pixel data and the names stored in it (`linux_logo.h`) are not part of this model. An entry's name is whatever the build's logo data holds.
- Kconfig conditional compilation is the per-entry `enabled` flag and the `ofSelect` constant, not separate programs.
- `module_param` parsing, `late_initcall_sync` registration, `EXPORT_SYMBOL_GPL` and the release of `__initdata` memory are kernel infrastructure. Only the flag transition is kept. `nologo` is a constructor argument.
- Memory ordering and concurrency are not modelled. The driver has none.
