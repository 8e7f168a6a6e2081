# Windows resource icon engine, modelled in Dafny

This project models `QWindowsResourceIconEngine`, the part of the Qt Windows
platform plugin that builds a multi-resolution icon from the `RT_GROUP_ICON`
resources of an executable or DLL (`src/plugins/platforms/windows/qwindowsiconengines.cpp`).

What is modelled:

- **The group-icon directory** (`icon_group_format.dfy`, module `IconGroupFormat`).
  The packed `GRPICONDIR` header is 6 bytes. `idCount` is the little-endian WORD at
  offset 4. The header is followed by 14-byte `GRPICONDIRENTRY` records, and the
  height byte sits at offset 1 of each record. `CollectSizes` is the decoder's first
  loop. It reads `idCount` height bytes, turns 0 into 256 and collects the distinct
  sizes in a set. The reference for this is an encoder (`Encode`) of a
  `GroupIconDir` value. Decoding what it writes gives back the count and every
  height, so the size set of an encoded directory is exactly the normalised heights
  of its entries. The widths play no part.
- **Resolving an index to a resource name** (`icon_resolver.dfy`, module `IconResolver`).
  The callback `EnumIconGroup` updates an `EnumIconGroupInfo` object in place.
  `EnumResourceNamesW` becomes a loop over the group names that the module reports
  in order, and that loop stops when the callback returns false.
  `ResourceFromIconIndex` is proved against the direct reference `IconIndexName`:
  a negative index gives `MAKEINTRESOURCE(-iconIndex)`, and index `k` gives the
  k-th name, or null when there is none.
- **The engine and its loaders** (`resource_icon_engine.dfy`, module `ResourceIconEngine`).
  The class `ResourceIconEngine` keeps the pixmap list in a `seq` field, and its
  methods append to it.
  - `LoadGroup` is `load(HMODULE, LPCWSTR)`.
  - `LoadSizes` is its `Q_FOREACH` over the size set, taken in an arbitrary order.
  - `LoadSize` is one pass of that loop's body.
  - `LoadByName` and `LoadByIndex` are the two `load(path, …)` overloads.
- **Win32 as values** (`win32.dfy`, module `Win32`). An opened module is a value.
  It holds the handle, what `FindResourceW`/`LoadResource`/`LockResource` give for
  each group name, the enumeration order of the group names, and `LoadImageW` as a
  function. The calls the engine makes are returned as a trace of `Call` values:
  `LoadLibrary`, `EnumResourceNames`, `FindResource`, `LoadImage` with its result,
  `DestroyIcon` and `FreeLibrary`. Contracts about the number and order of calls
  are stated over that trace.

Three points about what the code does, which the model follows:

- The length check at line 119 compares the resource size with
  `sizeof(GRPICONDIR) - sizeof(GRPICONDIRENTRY)`, which is 6 bytes: the header
  alone, not the header plus one entry.
- Nothing checks that `idCount` entries fit in the resource. The size loop reads
  `idEntries[i].bHeight` for every `i < idCount`. In the model this appears as the
  named predicate `HeightsInBounds`. It is required, through `Decodable`, only of
  resources that pass the length check. The lemma `HeaderCheckAdmitsMissingEntries`
  exhibits a 6-byte resource that declares one entry and passes the check.
- `MAKEINTRESOURCE` keeps only the low 16 bits of the id, following its Win32
  definition. A negative index whose negation is a multiple of 65536 therefore
  yields the null name, and the load fails without decoding. `INT_MIN` is excluded
  by `NegatableInt` because its negation overflows.

## Model

| member | source | states |
|---|---|---|
| `Win32.MakeIntResource` | src/plugins/platforms/windows/qwindowsiconengines.cpp:167 | the integer resource name is null exactly when the id's low 16 bits are zero; an id below 65536 is kept as it is |
| `IconGroupFormat.NormaliseHeight` | src/plugins/platforms/windows/qwindowsiconengines.cpp:125-126 | a normalised height always lies in [1, 256] |
| `IconGroupFormat.SizeRange` | src/plugins/platforms/windows/qwindowsiconengines.cpp:125-126 | the range of sizes a height byte can stand for has exactly hi - lo members, those in [lo, hi) |
| `IconGroupFormat.CollectSizes` | src/plugins/platforms/windows/qwindowsiconengines.cpp:123-128 | the loop's set is exactly the normalised heights of entries 0 .. idCount-1: each one is in it, each member comes from one, all lie in [1, 256], and there are at most min(idCount, 256) |
| `IconGroupFormat.SizesUpToStep` | src/plugins/platforms/windows/qwindowsiconengines.cpp:124-128 | reading entry n adds exactly its normalised height to the set |
| `IconGroupFormat.SizesUpToCount` | src/plugins/platforms/windows/qwindowsiconengines.cpp:124-128 | after n entries the set has at most n members |
| `IconGroupFormat.SizeSetBounds` | src/plugins/platforms/windows/qwindowsiconengines.cpp:123-128 | every size lies in [1, 256], and the set has at most idCount and at most 256 members |
| `IconGroupFormat.EncodeEntriesAt` | src/plugins/platforms/windows/qwindowsiconengines.cpp:87-97 | byte k of record i in the packed entry array is byte k of that entry's 14-byte encoding |
| `IconGroupFormat.DecodeEncode` | src/plugins/platforms/windows/qwindowsiconengines.cpp:84-107 | decoding the packed bytes of a directory gives back its idCount and each entry's bHeight, all in bounds |
| `IconGroupFormat.SizeSetOfEncoded` | src/plugins/platforms/windows/qwindowsiconengines.cpp:122-128 | the size set of an encoded directory is the set of its entries' normalised heights |
| `IconGroupFormat.SizeSetIgnoresWidth` | src/plugins/platforms/windows/qwindowsiconengines.cpp:124-128 | two directories whose entries have the same heights have the same size set, whatever their widths and other fields |
| `IconGroupFormat.DuplicateHeightsCollapse` | src/plugins/platforms/windows/qwindowsiconengines.cpp:123-128 | heights 16, 32, 32, 0, 48 give exactly the sizes {16, 32, 48, 256}, whatever the widths |
| `IconGroupFormat.HeaderCheckAdmitsMissingEntries` | src/plugins/platforms/windows/qwindowsiconengines.cpp:119-125 | a 6-byte resource that declares one entry passes the length check although that entry's height byte is outside it |
| `IconGroupFormat.ReadWordBytes` | src/plugins/platforms/windows/qwindowsiconengines.cpp:101-103 | a WORD written little-endian reads back unchanged |
| `IconResolver.EnumIconGroupInfo.constructor` | src/plugins/platforms/windows/qwindowsiconengines.cpp:169-171 | the countdown starts at the index, and no resource has been found yet |
| `IconResolver.EnumIconGroup` | src/plugins/platforms/windows/qwindowsiconengines.cpp:152-163 | at countdown 0 the callback records the name and stops; otherwise it decrements the countdown, leaves the found name alone and continues |
| `IconResolver.EnumerateGroups` | src/plugins/platforms/windows/qwindowsiconengines.cpp:172-173 | with countdown k below the number of names, the enumeration stops right after visiting name k and records it, with the countdown at 0; otherwise it visits every name and records nothing |
| `IconResolver.ResourceFromIconIndex` | src/plugins/platforms/windows/qwindowsiconengines.cpp:165-176 | the result is the reference `IconIndexName`; a negative index enumerates nothing; index k < n yields name k after k + 1 visits and k decrements; index k >= n yields null after n visits |
| `IconResolver.NegativeIndexIsResourceId` | src/plugins/platforms/windows/qwindowsiconengines.cpp:167 | an index in (-65536, 0) resolves to integer resource -index |
| `IconResolver.MinusSevenIsResourceSeven` | src/plugins/platforms/windows/qwindowsiconengines.cpp:167 | index -7 resolves to resource 7, whatever the module holds |
| `IconResolver.OrdinalResolution` | src/plugins/platforms/windows/qwindowsiconengines.cpp:165-176 | over names [A, B, C], index 1 resolves to B and index 5 to null |
| `IconResolver.MultipleOf65536IsNull` | src/plugins/platforms/windows/qwindowsiconengines.cpp:167 | a negative index whose negation is a multiple of 65536 resolves to null |
| `IconResolver.IndexResolvesIffInRange` | src/plugins/platforms/windows/qwindowsiconengines.cpp:170-175 | a non-negative index resolves to a name if and only if it is below the number of groups, and that name is one of them |
| `ResourceIconEngine.AnyLoadsStep` | src/plugins/platforms/windows/qwindowsiconengines.cpp:131-140 | after one more size, the flag is set exactly when it was already set or that size loaded |
| `ResourceIconEngine.EnumeratesStep` | src/plugins/platforms/windows/qwindowsiconengines.cpp:132 | visiting a size not visited before keeps the visit order free of repeats and equal to the visited set |
| `ResourceIconEngine.Rendered` | src/plugins/platforms/windows/qwindowsiconengines.cpp:132-141 | at most one pixmap per size asked for; each is tagged (Normal, Off), carries the scale factor, is for a size that was asked for, and holds the icon LoadImageW returned for that size |
| `ResourceIconEngine.LoadCalls` | src/plugins/platforms/windows/qwindowsiconengines.cpp:132-141 | the size loop makes only LoadImageW and DestroyIcon calls, at least one per size |
| `ResourceIconEngine.RenderedSnoc` | src/plugins/platforms/windows/qwindowsiconengines.cpp:135-141 | asking for one more size appends at most that size's pixmap |
| `ResourceIconEngine.LoadCallsSnoc` | src/plugins/platforms/windows/qwindowsiconengines.cpp:133-139 | asking for one more size appends that size's calls |
| `ResourceIconEngine.ForeachStep` | src/plugins/platforms/windows/qwindowsiconengines.cpp:132-142 | one pass of the loop body keeps the loop's state consistent: visited sizes, pixmap list, calls and flag |
| `ResourceIconEngine.ResourceIconEngine.constructor` | src/plugins/platforms/windows/qwindowsiconengines.cpp:43-45 | a new engine has no pixmaps |
| `ResourceIconEngine.ResourceIconEngine.AddPixmap` | src/plugins/platforms/windows/qwindowsiconengines.cpp:138 | appends one (pixmap, mode, state) entry and changes nothing else |
| `ResourceIconEngine.ResourceIconEngine.LoadSize` | src/plugins/platforms/windows/qwindowsiconengines.cpp:133-141 | asks for a size x size icon; on success appends one (Normal, Off) pixmap with the scale factor and destroys the icon; reports whether an icon came back |
| `ResourceIconEngine.ResourceIconEngine.LoadSizes` | src/plugins/platforms/windows/qwindowsiconengines.cpp:129-143 | visits every distinct size exactly once in some order, the pixmap list grows only by the pixmaps of that order, and the result is true exactly when some size loaded |
| `ResourceIconEngine.ResourceIconEngine.LoadGroup` | src/plugins/platforms/windows/qwindowsiconengines.cpp:109-144 | the result is true exactly when the directory is read and some distinct size loads; early exits leave the list unchanged; otherwise the list is extended append-only by the pixmaps of the size set |
| `ResourceIconEngine.ResourceIconEngine.LoadByName` | src/plugins/platforms/windows/qwindowsiconengines.cpp:65-71 | returns the decoder's result unchanged, with the calls: open, decode, FreeLibrary exactly once and last |
| `ResourceIconEngine.ResourceIconEngine.LoadByIndex` | src/plugins/platforms/windows/qwindowsiconengines.cpp:73-82 | on a resolution miss returns false and leaves the pixmaps alone; otherwise returns the decoder's result for the resolved name; FreeLibrary is called exactly once, last |
| `ResourceIconEngine.DecodeFreesNothing` | src/plugins/platforms/windows/qwindowsiconengines.cpp:109-144 | the decoder never frees a module |
| `ResourceIconEngine.ByNameFreesOnce` | src/plugins/platforms/windows/qwindowsiconengines.cpp:65-71 | load(path, resourceName) frees the module exactly once, as its last call, on every path |
| `ResourceIconEngine.ByIndexFreesOnce` | src/plugins/platforms/windows/qwindowsiconengines.cpp:73-82 | load(path, iconIndex) frees the module exactly once, as its last call, on every path |
| `ResourceIconEngine.ResolutionMissSkipsDecode` | src/plugins/platforms/windows/qwindowsiconengines.cpp:76-79 | when the index resolves to null, no resource is looked up and no image is loaded |
| `ResourceIconEngine.RequestsConcat` | src/plugins/platforms/windows/qwindowsiconengines.cpp:132-134 | the image requests of two call sequences in a row are those of each, in a row |
| `ResourceIconEngine.LoadRequestsAreSquare` | src/plugins/platforms/windows/qwindowsiconengines.cpp:132-134 | one LoadImageW request per size visited, in visit order, each with width = height = that size |
| `ResourceIconEngine.DistinctCount` | src/plugins/platforms/windows/qwindowsiconengines.cpp:132 | an order that visits each size once has exactly as many entries as there are sizes |
| `ResourceIconEngine.EachSizeRequestedOnce` | src/plugins/platforms/windows/qwindowsiconengines.cpp:123-134 | LoadImageW is asked once per distinct size, never once per entry: as many requests as sizes, all square, no repeats, covering exactly the size set |
| `ResourceIconEngine.IconsDestroyedOnce` | src/plugins/platforms/windows/qwindowsiconengines.cpp:133-139 | every icon returned is destroyed by the next call, and every DestroyIcon is of the icon just returned: each handle is destroyed exactly once |
| `ResourceIconEngine.EnumeratesPrefix` | src/plugins/platforms/windows/qwindowsiconengines.cpp:132 | dropping the last size visited leaves an order that visits the other sizes once each |
| `ResourceIconEngine.LoadedStep` | src/plugins/platforms/windows/qwindowsiconengines.cpp:133-135 | removing one size removes one successful load exactly when that size loads |
| `ResourceIconEngine.RenderedCount` | src/plugins/platforms/windows/qwindowsiconengines.cpp:132-141 | the number of pixmaps appended equals the number of distinct sizes LoadImageW renders, whatever the order |
| `ResourceIconEngine.SuccessIffAppended` | src/plugins/platforms/windows/qwindowsiconengines.cpp:131-143 | the decoder succeeds exactly when it appends something, and it appends one pixmap per distinct size that loads; if every size fails it returns false and appends nothing |
| `ResourceIconEngine.EarlyExitsAppendNothing` | src/plugins/platforms/windows/qwindowsiconengines.cpp:111-119 | a missing group, a failed LoadResource, a null LockResource or a resource under 6 bytes gives false, no pixmaps and no call after FindResourceW |
| `ResourceIconEngine.PartialSuccess` | src/plugins/platforms/windows/qwindowsiconengines.cpp:131-143 | with sizes {16, 32, 48} where only 48 loads, the decode reports success and exactly one pixmap is appended |

## Left out

- `LoadLibraryAsDataFile` (lines 52-63) picks `LoadLibraryExW` flags according to the Windows version. It is modelled only as the `openLibrary` parameter. Its result is never checked for null: the loaders go on and call `FreeLibrary` even on a failed open, and the model follows that.
- The Win32 calls themselves (`FindResourceW`, `LoadResource`, `LockResource`, `SizeofResource`, `LoadImageW`, `EnumResourceNamesW`, `DestroyIcon`, `FreeLibrary`) are oracles or trace entries. Their behaviour is not modelled. `LoadResource`, `LockResource` and `SizeofResource` are not recorded in the trace.
- `qt_pixmapFromWinHICON`, `QPixmap::setDevicePixelRatio` and `QWindowsScaling::factor` are foreign code. A pixmap is the value `Pixmap(icon, size, ratio)`, and the scale factor is the `scaleFactor` parameter. Its value is read once per decode and is the same for every pixmap.
- ResourceIconEngine.ResourceIconEngine.AddPixmap: the model appends every time. `QPixmapIconEngine::addPixmap` is not part of this model, so its handling of null pixmaps and of an existing entry of the same size is not captured.
- The copy constructor (lines 47-50) is left out: it only forwards to `QPixmapIconEngine`.
- `QSet` iteration order is unspecified. The loop takes sizes in an arbitrary order, returns the order it used, and no contract constrains which order the set yields.
- Wide-string pointer casts (`reinterpret_cast<LPCWSTR>(…unicode())`) are left out. Resource names are values.
- ResourceIconEngine.ResourceIconEngine.LoadGroup: the reads past the end of a resource that declares more entries than it holds are undefined behaviour in the source. The model excludes them with `Decodable` instead of modelling what such a read would return.
- IconResolver.ResourceFromIconIndex: `-iconIndex` for `INT_MIN` is signed overflow in C, so `NegatableInt` excludes that one input.
