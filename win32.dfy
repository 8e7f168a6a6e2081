/**
 * The Win32 side of the icon extractor, as values: resource names, the
 * handles the extractor receives, an opened module's resource table and
 * image loader (both oracles), and the calls the extractor makes, recorded
 * as a trace so that the order and number of calls can be stated.
 */
module Win32 {

  datatype Option<+T> = None | Some(value: T)

  /** A byte of resource data. */
  type Byte = b: int | 0 <= b < 0x100

  /** A 16-bit WORD. */
  type Word = w: int | 0 <= w < 0x1_0000

  /** A 32-bit DWORD. */
  type DWord = d: int | 0 <= d < 0x1_0000_0000

  /**
   * An LPCWSTR naming a resource: either an integer id made with
   * MAKEINTRESOURCE or a string name. The null LPCWSTR is `None` of
   * `Option<ResourceName>`.
   */
  datatype ResourceName = IntResource(id: Word) | NamedResource(name: string)

  /** An HMODULE as returned by LoadLibraryExW; 0 is a failed load. */
  type Handle = nat

  /** A non-null HICON returned by LoadImageW. */
  type Icon = nat

  /**
   * What the resource functions report for one RT_GROUP_ICON entry:
   * whether LoadResource succeeds, whether LockResource yields a pointer,
   * and the bytes behind that pointer (SizeofResource is their length).
   */
  datatype GroupResource = GroupResource(loaded: bool, locked: bool, data: seq<Byte>)

  /**
   * A module opened as a data file. `groups` is what FindResourceW finds
   * under RT_GROUP_ICON, `groupNames` the order in which
   * EnumResourceNamesW reports RT_GROUP_ICON names, and `loadImage` what
   * LoadImageW(module, name, IMAGE_ICON, cx, cy, 0) returns.
   */
  datatype Module = Module(
    handle: Handle,
    groups: map<ResourceName, GroupResource>,
    groupNames: seq<ResourceName>,
    loadImage: (ResourceName, int, int) -> Option<Icon>)

  /** One observable Win32 call made by the extractor. */
  datatype Call =
    | LoadLibrary(path: string)
    | FreeLibrary(library: Handle)
    | EnumResourceNames(library: Handle)
    | FindResource(name: ResourceName)
    | LoadImage(name: ResourceName, width: int, height: int, result: Option<Icon>)
    | DestroyIcon(icon: Icon)

  /**
   * MAKEINTRESOURCEW(id): the id is cast to a WORD, so only its low 16 bits
   * survive, and an id whose low 16 bits are zero is the null pointer.
   */
  function MakeIntResource(id: nat): (r: Option<ResourceName>)
    ensures r.None? <==> id % 0x1_0000 == 0
    ensures 0 < id < 0x1_0000 ==> r == Some(IntResource(id))
  {
    var w := id % 0x1_0000;
    if w == 0 then None else Some(IntResource(w))
  }

  /** No call in `calls` releases a module. */
  predicate FreesNothing(calls: seq<Call>)
  {
    forall i :: 0 <= i < |calls| ==> !calls[i].FreeLibrary?
  }

  /** `calls` releases a module exactly once, as its last call. */
  predicate FreedOnceAtEnd(calls: seq<Call>, h: Handle)
  {
    |calls| > 0 && calls[|calls| - 1] == FreeLibrary(h) && FreesNothing(calls[..|calls| - 1])
  }
}
