# Space-group identifier resolver of diffpy.structure, in Dafny

This project models how `diffpy.structure.spacegroups` turns a user-supplied
space-group identifier into a space-group definition. An identifier is an
integer number such as `14`, or a name such as `"P21/c"`, `"p 21/c"` or `" 14 "`.

- **The catalogue** is `SpaceGroupList`. It is the mmLib catalogue followed by
  the sgtbx catalogue. Here it is an abstract ordered sequence of
  `SpaceGroup` records (`number` and three optional names).
- **The lookup table** is `_sg_lookup_table`. `_buildSGLookupTable` clears it.
  It then walks the catalogue in order and offers five keys per group with
  `setdefault`: the integer number, the number's decimal text, the short name,
  the PDB name and the alternative name. Last, it deletes the `None` key.
  `BuildTable` states the resulting dictionary as a function of the catalogue.
  `TableFirstWins` proves the first-writer-wins rule: every key maps to the
  earliest group that offers it.
- **`GetSpaceGroup`** builds the table when it is empty, then tries the
  identifier as given. For a string only, it then tries three spellings in
  order: stripped and title-cased, stripped and upper-cased, and the original
  with every U+0020 space removed. Otherwise it raises `ValueError` with
  `repr(sgid)` in the message. `Resolve` states this as a function of the
  table, and `ResolveIsFallback` proves it is an ordered fallback over those
  attempts.
- **`IsSpaceGroupIdentifier`** reports whether that lookup would succeed.

Modules:

- `Wrappers` (wrappers.dfy): `Option` and `Result`.
- `PyStr` (pystr.dfy): the Python `str` operations used. These are `strip`,
  `upper`, `lower`, the slice-based title case, `replace(' ', '')`,
  `str(int)` with a parser that reads it back, and `repr` of a string with an
  unescaper that reads it back.
- `LookupTable` (lookup_table.dfy): the records, the keys and the table.
- `SpaceGroups` (spacegroups.dfy): resolution, and the class `Resolver`. The
  class holds the module's state: the catalogue and the mutable dictionary
  field that `Build`, `Get` and `IsIdentifier` update.

An identifier is a `Key`: `IntKey(n)` for a Python `int`, `StrKey(s)` for a
`str`, `NoneKey` for `None`. An exception is modelled as a `Failure` result
carrying the identifier.

The model follows the code in three places a reader might not expect:

- Empty names are not skipped. Only the `None` key is deleted
  (spacegroups.py:87-89). So a group whose name is `""` makes `""` a key, and
  then any all-whitespace identifier that is not itself a key resolves to
  the group stored under `""`, the earliest group with that name
  (`BlankIdentifierResolves`, `TableAtFirstOffer`).
- Blank removal drops only U+0020 spaces, from the original string, keeping
  its case and its tabs (spacegroups.py:54). So `"p 21"` does not find
  `"P21"` (`BlankRemovalKeepsCase`).
- All five keys share one first-writer-wins dictionary. So the decimal text
  of a number always resolves, to the earliest group that offers that text
  (`TableFirstWins`). When no group uses the text as a name, that group has
  the number (`DecimalNumberResolves`). Otherwise it may be a group with another
  number that has the text as a name.

## Model

| member | source | states |
|---|---|---|
| `PyStr.Strip` | src/diffpy/structure/spacegroups.py:45 | `sgid.strip()` is the piece of the input between its leading and trailing whitespace; everything outside it is whitespace, and the piece neither starts nor ends with whitespace |
| `PyStr.Upper` | src/diffpy/structure/spacegroups.py:46-50 | `.upper()` keeps the length and maps each character to its upper-case form, which is never a lower-case letter and is whitespace exactly when the original is |
| `PyStr.Lower` | src/diffpy/structure/spacegroups.py:46 | `.lower()` keeps the length and maps each character to its lower-case form, which is never an upper-case letter and is whitespace exactly when the original is |
| `PyStr.TitleCase` | src/diffpy/structure/spacegroups.py:46 | `s[:1].upper() + s[1:].lower()` keeps the length, upper-cases the first character, lower-cases the rest, and is total on the empty string |
| `PyStr.CaseNormalisationsIgnoreCase` | src/diffpy/structure/spacegroups.py:46-50 | two strings equal after lower-casing have the same title-cased and the same upper-cased spelling |
| `PyStr.StripLower` | src/diffpy/structure/spacegroups.py:45-46 | stripping commutes with lower-casing |
| `PyStr.StripUpper` | src/diffpy/structure/spacegroups.py:50 | stripping commutes with upper-casing, so the upper-cased spelling does not depend on the order of strip and case change |
| `PyStr.TitleCaseAfterStrip` | src/diffpy/structure/spacegroups.py:45-46 | title-casing does not commute with stripping: on `" pnma"` stripping first gives `"Pnma"`, title-casing first gives `"pnma"`, so the strip must come first |
| `PyStr.StripIdempotent` | src/diffpy/structure/spacegroups.py:45 | stripping a stripped string changes nothing |
| `PyStr.RemoveSpaces` | src/diffpy/structure/spacegroups.py:54 | `replace(' ', '')` leaves no U+0020, and leaves a space-free string as it is |
| `PyStr.RemoveSpacesKeepsOthers` | src/diffpy/structure/spacegroups.py:54 | every character other than U+0020 occurs in the result as often as in the input |
| `PyStr.RemoveSpacesConcat` | src/diffpy/structure/spacegroups.py:54 | blank removal works piece by piece, so it keeps the order of the remaining characters |
| `PyStr.InertIsNormal` | src/diffpy/structure/spacegroups.py:45-54 | text without letters and whitespace, such as a decimal number, is unchanged by every spelling the lookup tries |
| `PyStr.IntToDecimal` | src/diffpy/structure/spacegroups.py:83 | `str(number)` is non-empty, starts with `-` exactly for negative numbers, holds only digits and that sign, and is canonical: no leading zero and no `-0` |
| `PyStr.CanonicalDecimalUnique` | src/diffpy/structure/spacegroups.py:83 | `str(n)` is the only canonical decimal text that parses to `n` |
| `PyStr.DecimalRoundTrip` | src/diffpy/structure/spacegroups.py:83 | parsing `str(n)` gives back `n` |
| `PyStr.DecimalInjective` | src/diffpy/structure/spacegroups.py:83 | distinct numbers give distinct decimal keys |
| `PyStr.StrRepr` | src/diffpy/structure/spacegroups.py:41 | `repr` of a string is enclosed in matching single or double quotes |
| `PyStr.EscapeRoundTrip` | src/diffpy/structure/spacegroups.py:41 | unescaping the body of `repr(s)` gives back `s`, for either choice of quote |
| `PyStr.StrReprInjective` | src/diffpy/structure/spacegroups.py:41 | distinct strings have distinct reprs |
| `LookupTable.OffersIntKey` | src/diffpy/structure/spacegroups.py:82 | a group offers the integer key `n` exactly when its number is `n` |
| `LookupTable.SetDefaultAt` | src/diffpy/structure/spacegroups.py:82-86 | the contract of `SetDefault`, which models `dict.setdefault`, stated key by key: the key is added if missing, with the given group, every present key keeps its group, and no other key appears |
| `LookupTable.OfferAll` | src/diffpy/structure/spacegroups.py:82-86 | after one loop iteration the keys are the old keys plus the group's five keys; old keys keep their groups, and new keys map to this group |
| `LookupTable.Filled` | src/diffpy/structure/spacegroups.py:80-86 | after the loop, the keys are exactly the keys some group offers, and every value is a catalogue group |
| `LookupTable.PurgeNone` | src/diffpy/structure/spacegroups.py:87-89 | deleting the `None` key removes exactly that key and leaves every other key's group alone |
| `LookupTable.BuildTable` | src/diffpy/structure/spacegroups.py:80-89 | after a build `None` is not a key, every other offered key is, nothing else is, and every value comes from the catalogue |
| `LookupTable.FilledFirstWins` | src/diffpy/structure/spacegroups.py:81-86 | first writer wins: before the purge, every key maps to the earliest group that offers it |
| `LookupTable.TableFirstWins` | src/diffpy/structure/spacegroups.py:81-89 | after a build, every key maps to the earliest group that offers it |
| `LookupTable.TableAtFirstOffer` | src/diffpy/structure/spacegroups.py:81-89 | conversely, the earliest group offering a key that is not `None` is that key's value |
| `LookupTable.NumberKeysPresent` | src/diffpy/structure/spacegroups.py:82-83 | every group's number and its decimal text are keys after a build |
| `LookupTable.IntKeyFirstNumber` | src/diffpy/structure/spacegroups.py:82 | an integer key maps to the earliest group with that number |
| `LookupTable.CataloguePrecedence` | src/diffpy/structure/spacegroups.py:81-86 | concatenation order decides collisions: any key the first catalogue offers maps, in the table of both catalogues, to the same group as in the first catalogue's table |
| `SpaceGroups.Repr` | src/diffpy/structure/spacegroups.py:41 | `%r` of an identifier is non-empty |
| `SpaceGroups.ErrorMessage` | src/diffpy/structure/spacegroups.py:41 | the message is longer than the fixed prefix `Unknown space group identifier ` and starts with it |
| `SpaceGroups.ErrorMessageIdentifies` | src/diffpy/structure/spacegroups.py:41 | two errors with the same message were raised for the same identifier |
| `SpaceGroups.Attempts` | src/diffpy/structure/spacegroups.py:38-56 | the identifier itself is tried first, and more spellings are tried exactly when it is a string |
| `SpaceGroups.Resolve` | src/diffpy/structure/spacegroups.py:38-58 | a failure carries the original identifier, and a success returns a group stored in the table |
| `SpaceGroups.Fallback` | src/diffpy/structure/spacegroups.py:38-58 | an ordered fallback succeeds exactly when some attempted key is present, and otherwise raises for the original identifier |
| `SpaceGroups.FallbackFirstHit` | src/diffpy/structure/spacegroups.py:38-58 | the fallback returns the group of the first attempted key that is present |
| `SpaceGroups.ResolveIsFallback` | src/diffpy/structure/spacegroups.py:38-58 | resolution is the ordered fallback over the exact identifier, then for strings the title-cased, upper-cased and unblanked spellings |
| `SpaceGroups.ResolvedGroupInCatalogue` | src/diffpy/structure/spacegroups.py:38-58 | every resolved group is an element of the catalogue |
| `SpaceGroups.NoneNeverResolves` | src/diffpy/structure/spacegroups.py:87-89 | `None` never resolves: it is purged and it is not a string |
| `SpaceGroups.NumberResolves` | src/diffpy/structure/spacegroups.py:38-39 | every group's number resolves, to the earliest group with that number |
| `SpaceGroups.DecimalKeyNumber` | src/diffpy/structure/spacegroups.py:82-86 | for a group's number whose decimal text no group has as a name, the table maps that text to a group with that number |
| `SpaceGroups.DecimalNumberResolves` | src/diffpy/structure/spacegroups.py:83 | every group's decimal number text resolves; when no group has that text as a name, it resolves to a group with that number |
| `SpaceGroups.PaddedNumberResolves` | src/diffpy/structure/spacegroups.py:45-48 | when a number surrounded by whitespace is not itself a key and the bare decimal text is a key, the padded text resolves, through the stripped title-cased spelling, to the group stored under the bare decimal text |
| `SpaceGroups.ResolveIgnoresCase` | src/diffpy/structure/spacegroups.py:45-52 | two identifiers differing only in letter case resolve alike when neither is a key and a case normalisation hits |
| `SpaceGroups.LowerCaseNameResolves` | src/diffpy/structure/spacegroups.py:45-48 | when `"Pnma"` is a key and `"pnma"` is not itself a key, `"pnma"` resolves to the group stored under `"Pnma"` |
| `SpaceGroups.BlankRemovalKeepsCase` | src/diffpy/structure/spacegroups.py:54-56 | with `"P21"` stored and none of `"P 21"`, `"p 21"`, `"p21"` stored, `"P 21"` resolves to the `"P21"` group but `"p 21"` raises, because blank removal keeps the original case |
| `SpaceGroups.BlankIdentifierResolves` | src/diffpy/structure/spacegroups.py:87-89 | only `None` is purged, so an empty name becomes a key, and any all-whitespace identifier that is not itself a key resolves to it |
| `SpaceGroups.Resolver.constructor` | src/diffpy/structure/spacegroups.py:24 | the catalogue is the first catalogue followed by the second, and the dictionary starts empty, as `_sg_lookup_table` does at spacegroups.py:91 |
| `SpaceGroups.Resolver.OfferGroup` | src/diffpy/structure/spacegroups.py:82-86 | the five `setdefault` calls of one loop iteration leave the dictionary equal to `OfferAll` of the old one |
| `SpaceGroups.Resolver.Build` | src/diffpy/structure/spacegroups.py:74-90 | the loop leaves the dictionary equal to `BuildTable` of the catalogue, whatever it held before, so rebuilding is idempotent |
| `SpaceGroups.Resolver.Get` | src/diffpy/structure/spacegroups.py:27-58 | builds the dictionary if it is empty, then returns exactly `Resolve` of the built table; repeated calls agree |
| `SpaceGroups.Resolver.IsIdentifier` | src/diffpy/structure/spacegroups.py:61-71 | true exactly when `Get` would return a group rather than raise, and never raises itself |

## Left out

- `PyStr.Strip`: only ASCII whitespace is stripped. Python's `str.strip` also removes Unicode whitespace such as U+00A0 and U+2028.
- `PyStr.TitleCase`, `PyStr.Upper`, `PyStr.Lower`: only A-Z and a-z change case (`UpperChar`, `LowerChar`). Python's `upper` and `lower` also map other scripts and can lengthen a string (`'ß'.upper()` is `'SS'`).
- `PyStr.StrRepr`: only ASCII control characters are escaped. Python also escapes non-printable characters outside ASCII.
- Identifiers other than `int`, `str` and `None` are not modelled. A float or a `bool` that equals an integer key would hit it. An unhashable identifier makes the membership test raise `TypeError`, which `IsSpaceGroupIdentifier` does not catch.
- `SymOp`, the `SpaceGroup` class and the rotation and translation constants are not part of this model. They live in `spacegroupmod`, and applying them is floating-point arithmetic. A `SpaceGroup` here keeps only its number and names, and a returned group is compared by value, not by object identity.
- The contents of `mmLibSpaceGroupList` and `sgtbxSpaceGroupList` are not part of this model. They are static data, so the catalogue is a parameter.
- The re-export imports and `assert all(...)` lines (spacegroups.py:93-286) are not modelled. They only re-export constants.
- Thread safety of the lazy build is not modelled. The code has no locking.
- setup_args.py is packaging metadata with no logic.
