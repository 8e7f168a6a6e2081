/**
 * QWindowsResourceIconEngine: an icon engine that fills its pixmap list
 * from the RT_GROUP_ICON resources of a module opened as a data file.
 *
 * The decoder looks the group up, checks the resource is at least a
 * GRPICONDIR header long, collects the distinct entry heights, asks
 * LoadImageW for one square icon per distinct size (in the unspecified
 * order a QSet iterates) and appends one (Normal, Off) pixmap per icon it
 * gets back, destroying each icon handle after conversion. The two load
 * overloads open the module, optionally resolve an icon index, decode and
 * free the module.
 */
module ResourceIconEngine {
  import opened Win32
  import opened IconGroupFormat
  import IconResolver

  /** QIcon::Mode. */
  datatype Mode = Normal | Disabled | Active | Selected

  /** QIcon::State. */
  datatype IconState = On | Off

  /**
   * The pixmap made from an icon handle (pixel conversion is not modelled):
   * the icon it came from, the size it was requested at and the device
   * pixel ratio it was tagged with.
   */
  datatype Pixmap = Pixmap(icon: Icon, size: int, devicePixelRatio: int)

  /** An entry of the engine's pixmap list. */
  datatype PixmapEntry = PixmapEntry(pixmap: Pixmap, mode: Mode, state: IconState)

  // ---------------------------------------------------------------------
  // Specification of the decoder

  /**
   * The bytes the decoder goes on to parse, or None when it gives up early:
   * the group is not found, LoadResource fails, LockResource yields null,
   * or the resource is shorter than the GRPICONDIR header.
   */
  function GroupData(m: Module, name: ResourceName): Option<seq<Byte>>
  {
    if name !in m.groups then None
    else
      var g := m.groups[name];
      if !g.loaded || !g.locked || !HeaderFits(|g.data|) then None else Some(g.data)
  }

  /** The decoder reads nothing outside the resource. */
  predicate Decodable(m: Module, name: ResourceName)
  {
    GroupData(m, name).Some? ==> HeightsInBounds(GroupData(m, name).value)
  }

  /** LoadImageW(module, name, IMAGE_ICON, size, size, 0). */
  function ImageFor(m: Module, name: ResourceName, size: int): Option<Icon>
  {
    m.loadImage(name, size, size)
  }

  /** Some size of `sizes` loads. */
  ghost predicate AnyLoads(m: Module, name: ResourceName, sizes: set<int>)
  {
    exists s :: s in sizes && ImageFor(m, name, s).Some?
  }

  lemma AnyLoadsStep(m: Module, name: ResourceName, done: set<int>, size: int)
    ensures AnyLoads(m, name, done + {size}) == (AnyLoads(m, name, done) || ImageFor(m, name, size).Some?)
  {
    if AnyLoads(m, name, done + {size}) && ImageFor(m, name, size).None? {
      var s :| s in done + {size} && ImageFor(m, name, s).Some?;
      assert s in done;
    }
  }

  /** The decoder's verdict: the directory is read and some distinct size loads. */
  ghost predicate Decodes(m: Module, name: ResourceName)
    requires Decodable(m, name)
  {
    GroupData(m, name).Some? && AnyLoads(m, name, SizeSet(GroupData(m, name).value))
  }

  /** `order` lists every size of `sizes` exactly once. */
  ghost predicate Enumerates(order: seq<int>, sizes: set<int>)
  {
    && (forall i, j :: 0 <= i < j < |order| ==> order[i] != order[j])
    && (forall s :: s in order <==> s in sizes)
  }

  lemma EnumeratesStep(order: seq<int>, done: set<int>, size: int)
    requires Enumerates(order, done) && size !in done
    ensures Enumerates(order + [size], done + {size})
  {
    var order' := order + [size];
    forall i, j | 0 <= i < j < |order'|
      ensures order'[i] != order'[j]
    {
      if j == |order| {
        assert order'[i] == order[i] && order[i] in done;
      } else {
        assert order'[i] == order[i] && order'[j] == order[j];
      }
    }
  }

  /** The pixmaps appended when the sizes are asked for in `order`. */
  function Rendered(m: Module, name: ResourceName, order: seq<int>, scaleFactor: int): (r: seq<PixmapEntry>)
    ensures |r| <= |order|
    ensures forall e :: e in r ==>
      && e.mode == Normal && e.state == Off && e.pixmap.devicePixelRatio == scaleFactor
      && e.pixmap.size in order && ImageFor(m, name, e.pixmap.size) == Some(e.pixmap.icon)
    decreases |order|
  {
    if order == [] then []
    else
      Rendered(m, name, order[..|order| - 1], scaleFactor) + RenderStep(m, name, order[|order| - 1], scaleFactor)
  }

  /** The pixmap appended for one size: none when LoadImageW fails. */
  function RenderStep(m: Module, name: ResourceName, size: int, scaleFactor: int): seq<PixmapEntry>
  {
    match ImageFor(m, name, size)
    case None => []
    case Some(icon) => [PixmapEntry(Pixmap(icon, size, scaleFactor), Normal, Off)]
  }

  /** The calls made for one size: the load and, when it succeeds, the destroy. */
  function SizeCalls(m: Module, name: ResourceName, size: int): seq<Call>
  {
    var icon := ImageFor(m, name, size);
    [LoadImage(name, size, size, icon)] + (if icon.Some? then [DestroyIcon(icon.value)] else [])
  }

  /** The calls made for the sizes asked for in `order`. */
  function LoadCalls(m: Module, name: ResourceName, order: seq<int>): (r: seq<Call>)
    ensures |r| >= |order|
    ensures forall i :: 0 <= i < |r| ==> r[i].LoadImage? || r[i].DestroyIcon?
    decreases |order|
  {
    if order == [] then []
    else LoadCalls(m, name, order[..|order| - 1]) + SizeCalls(m, name, order[|order| - 1])
  }

  lemma RenderedSnoc(m: Module, name: ResourceName, order: seq<int>, size: int, scaleFactor: int)
    ensures Rendered(m, name, order + [size], scaleFactor)
      == Rendered(m, name, order, scaleFactor) + RenderStep(m, name, size, scaleFactor)
  {
    assert (order + [size])[..|order|] == order;
  }

  lemma LoadCallsSnoc(m: Module, name: ResourceName, order: seq<int>, size: int)
    ensures LoadCalls(m, name, order + [size]) == LoadCalls(m, name, order) + SizeCalls(m, name, size)
  {
    assert (order + [size])[..|order|] == order;
  }

  lemma NonEmptyHasMember(s: set<int>)
    requires s != {}
    ensures exists x :: x in s
  {
    if forall x :: x !in s {
      assert false;
    }
  }

  /** All calls the decoder makes. */
  function DecodeCalls(m: Module, name: ResourceName, order: seq<int>): seq<Call>
  {
    [FindResource(name)] + (if GroupData(m, name).Some? then LoadCalls(m, name, order) else [])
  }

  /**
   * How the pixmap list goes from `before` to `after`: untouched when the
   * decoder gives up early, else extended by the pixmaps of the distinct
   * sizes taken in `order`.
   */
  ghost predicate DecodedInto(m: Module, name: ResourceName, scaleFactor: int, order: seq<int>,
                              before: seq<PixmapEntry>, after: seq<PixmapEntry>)
    requires Decodable(m, name)
  {
    if GroupData(m, name).None? then order == [] && after == before
    else
      && Enumerates(order, SizeSet(GroupData(m, name).value))
      && after == before + Rendered(m, name, order, scaleFactor)
  }

  /** The calls EnumResourceNamesW stands for: made only for a non-negative index. */
  function EnumCalls(m: Module, iconIndex: int): seq<Call>
  {
    if iconIndex < 0 then [] else [EnumResourceNames(m.handle)]
  }

  /** The calls of load(path, resourceName). */
  function ByNameCalls(path: string, m: Module, name: ResourceName, order: seq<int>): seq<Call>
  {
    [LoadLibrary(path)] + DecodeCalls(m, name, order) + [FreeLibrary(m.handle)]
  }

  /** The calls of load(path, iconIndex). */
  function ByIndexCalls(path: string, m: Module, iconIndex: int, order: seq<int>): seq<Call>
  {
    var decode := match IconResolver.IconIndexName(m.groupNames, iconIndex)
      case None => []
      case Some(name) => DecodeCalls(m, name, order);
    [LoadLibrary(path)] + EnumCalls(m, iconIndex) + decode + [FreeLibrary(m.handle)]
  }

  /**
   * Where the Q_FOREACH over the size set stands: `done` has been visited
   * in `order`, `remaining` has not, and the pixmap list, the calls and the
   * flag reflect exactly the sizes visited.
   */
  ghost predicate ForeachState(m: Module, name: ResourceName, sizes: set<int>, scaleFactor: int,
                               before: seq<PixmapEntry>, done: set<int>, remaining: set<int>,
                               order: seq<int>, pixmaps: seq<PixmapEntry>, calls: seq<Call>, hasImage: bool)
  {
    && done + remaining == sizes && done !! remaining
    && Enumerates(order, done)
    && pixmaps == before + Rendered(m, name, order, scaleFactor)
    && calls == LoadCalls(m, name, order)
    && hasImage == AnyLoads(m, name, done)
  }

  lemma ForeachStep(m: Module, name: ResourceName, sizes: set<int>, scaleFactor: int,
                    before: seq<PixmapEntry>, done: set<int>, remaining: set<int>,
                    order: seq<int>, pixmaps: seq<PixmapEntry>, calls: seq<Call>, hasImage: bool,
                    size: int, pixmaps': seq<PixmapEntry>, step: seq<Call>, loaded: bool)
    requires ForeachState(m, name, sizes, scaleFactor, before, done, remaining, order, pixmaps, calls, hasImage)
    requires size in remaining
    requires loaded == ImageFor(m, name, size).Some?
    requires pixmaps' == pixmaps + RenderStep(m, name, size, scaleFactor)
    requires step == SizeCalls(m, name, size)
    ensures ForeachState(m, name, sizes, scaleFactor, before, done + {size}, remaining - {size},
                         order + [size], pixmaps', calls + step, hasImage || loaded)
  {
    RenderedSnoc(m, name, order, size, scaleFactor);
    LoadCallsSnoc(m, name, order, size);
    AnyLoadsStep(m, name, done, size);
    EnumeratesStep(order, done, size);
  }

  // ---------------------------------------------------------------------
  // The engine

  class ResourceIconEngine {
    /** The pixmap list inherited from QPixmapIconEngine. */
    var pixmaps: seq<PixmapEntry>

    constructor()
      ensures pixmaps == []
    {
      pixmaps := [];
    }

    /** QPixmapIconEngine::addPixmap, as an append. */
    method AddPixmap(pixmap: Pixmap, mode: Mode, state: IconState)
      modifies this
      ensures pixmaps == old(pixmaps) + [PixmapEntry(pixmap, mode, state)]
    {
      pixmaps := pixmaps + [PixmapEntry(pixmap, mode, state)];
    }

    /**
     * load(HMODULE, LPCWSTR). `order` is the order in which the size set
     * was iterated, `calls` the Win32 calls made.
     */
    method LoadGroup(m: Module, name: ResourceName, scaleFactor: int)
      returns (hasImage: bool, order: seq<int>, calls: seq<Call>)
      requires Decodable(m, name)
      modifies this
      ensures hasImage == Decodes(m, name)
      ensures DecodedInto(m, name, scaleFactor, order, old(pixmaps), pixmaps)
      ensures calls == DecodeCalls(m, name, order)
    {
      calls := [FindResource(name)];
      order := [];
      if name !in m.groups {
        return false, order, calls;
      }
      var group := m.groups[name];
      if !group.loaded {
        return false, order, calls;
      }
      var data := group.data;
      if !group.locked || !HeaderFits(|data|) {
        return false, order, calls;
      }
      var sizes := CollectSizes(data);
      var loadCalls;
      hasImage, order, loadCalls := LoadSizes(m, name, sizes, scaleFactor);
      calls := calls + loadCalls;
    }

    /**
     * The Q_FOREACH over the size set: one LoadImageW per distinct size, in
     * whatever order the set yields them, appending a (Normal, Off) pixmap
     * tagged with `scaleFactor` for each icon returned and destroying it.
     */
    method LoadSizes(m: Module, name: ResourceName, sizes: set<int>, scaleFactor: int)
      returns (hasImage: bool, order: seq<int>, calls: seq<Call>)
      modifies this
      ensures Enumerates(order, sizes)
      ensures pixmaps == old(pixmaps) + Rendered(m, name, order, scaleFactor)
      ensures calls == LoadCalls(m, name, order)
      ensures hasImage == AnyLoads(m, name, sizes)
    {
      hasImage := false;
      order := [];
      calls := [];
      var remaining := sizes;
      ghost var done: set<int> := {};
      ghost var before := pixmaps;
      while remaining != {}
        invariant ForeachState(m, name, sizes, scaleFactor, before, done, remaining, order, pixmaps, calls, hasImage)
        decreases remaining
      {
        NonEmptyHasMember(remaining);
        var size :| size in remaining;
        ghost var pix := pixmaps;
        var loaded, step := LoadSize(m, name, size, scaleFactor);
        ForeachStep(m, name, sizes, scaleFactor, before, done, remaining, order, pix, calls, hasImage,
                    size, pixmaps, step, loaded);
        hasImage := hasImage || loaded;
        calls := calls + step;
        order := order + [size];
        done := done + {size};
        remaining := remaining - {size};
      }
      assert done == sizes;
    }

    /**
     * One pass of the Q_FOREACH body: ask for a size x size icon and, when
     * one comes back, append its pixmap and destroy the icon.
     */
    method LoadSize(m: Module, name: ResourceName, size: int, scaleFactor: int)
      returns (loaded: bool, calls: seq<Call>)
      modifies this
      ensures loaded == ImageFor(m, name, size).Some?
      ensures pixmaps == old(pixmaps) + RenderStep(m, name, size, scaleFactor)
      ensures calls == SizeCalls(m, name, size)
    {
      var icon := m.loadImage(name, size, size);
      calls := [LoadImage(name, size, size, icon)];
      loaded := false;
      if icon.Some? {
        AddPixmap(Pixmap(icon.value, size, scaleFactor), Normal, Off);
        calls := calls + [DestroyIcon(icon.value)];
        loaded := true;
      }
    }

    /** load(path, resourceName). */
    method LoadByName(openLibrary: string -> Module, path: string, resourceName: ResourceName, scaleFactor: int)
      returns (result: bool, order: seq<int>, calls: seq<Call>)
      requires Decodable(openLibrary(path), resourceName)
      modifies this
      ensures result == Decodes(openLibrary(path), resourceName)
      ensures DecodedInto(openLibrary(path), resourceName, scaleFactor, order, old(pixmaps), pixmaps)
      ensures calls == ByNameCalls(path, openLibrary(path), resourceName, order)
      ensures FreedOnceAtEnd(calls, openLibrary(path).handle)
    {
      var m := openLibrary(path);
      var decodeCalls;
      result, order, decodeCalls := LoadGroup(m, resourceName, scaleFactor);
      calls := [LoadLibrary(path)] + decodeCalls + [FreeLibrary(m.handle)];
      ByNameFreesOnce(path, m, resourceName, order);
    }

    /** load(path, iconIndex). */
    method LoadByIndex(openLibrary: string -> Module, path: string, iconIndex: int, scaleFactor: int)
      returns (result: bool, order: seq<int>, calls: seq<Call>)
      requires IconResolver.NegatableInt(iconIndex)
      requires var m := openLibrary(path);
        var r := IconResolver.IconIndexName(m.groupNames, iconIndex);
        r.Some? ==> Decodable(m, r.value)
      modifies this
      ensures var m := openLibrary(path);
        var r := IconResolver.IconIndexName(m.groupNames, iconIndex);
        && (r.None? ==> !result && order == [] && pixmaps == old(pixmaps))
        && (r.Some? ==> result == Decodes(m, r.value)
                        && DecodedInto(m, r.value, scaleFactor, order, old(pixmaps), pixmaps))
      ensures calls == ByIndexCalls(path, openLibrary(path), iconIndex, order)
      ensures FreedOnceAtEnd(calls, openLibrary(path).handle)
    {
      var m := openLibrary(path);
      result := false;
      order := [];
      var resourceName, enumerated, _, _ := IconResolver.ResourceFromIconIndex(m.groupNames, iconIndex);
      var decodeCalls := [];
      if resourceName.Some? {
        result, order, decodeCalls := LoadGroup(m, resourceName.value, scaleFactor);
      }
      calls := [LoadLibrary(path)] + (if enumerated then [EnumResourceNames(m.handle)] else [])
        + decodeCalls + [FreeLibrary(m.handle)];
      ByIndexFreesOnce(path, m, iconIndex, order);
    }
  }

  // ---------------------------------------------------------------------
  // Properties of the decoder

  lemma {:induction false} FreesNothingConcat(a: seq<Call>, b: seq<Call>)
    requires FreesNothing(a) && FreesNothing(b)
    ensures FreesNothing(a + b)
  {
    forall i | 0 <= i < |a + b|
      ensures !(a + b)[i].FreeLibrary?
    {
      if i >= |a| {
        assert (a + b)[i] == b[i - |a|];
      }
    }
  }

  lemma DecodeFreesNothing(m: Module, name: ResourceName, order: seq<int>)
    ensures FreesNothing(DecodeCalls(m, name, order))
  {
    var loads := if GroupData(m, name).Some? then LoadCalls(m, name, order) else [];
    FreesNothingConcat([FindResource(name)], loads);
  }

  /** load(path, resourceName) releases the module exactly once, last. */
  lemma ByNameFreesOnce(path: string, m: Module, name: ResourceName, order: seq<int>)
    ensures FreedOnceAtEnd(ByNameCalls(path, m, name, order), m.handle)
  {
    var calls := ByNameCalls(path, m, name, order);
    DecodeFreesNothing(m, name, order);
    FreesNothingConcat([LoadLibrary(path)], DecodeCalls(m, name, order));
    assert calls[..|calls| - 1] == [LoadLibrary(path)] + DecodeCalls(m, name, order);
  }

  /** load(path, iconIndex) releases the module exactly once, last, on every path. */
  lemma ByIndexFreesOnce(path: string, m: Module, iconIndex: int, order: seq<int>)
    ensures FreedOnceAtEnd(ByIndexCalls(path, m, iconIndex, order), m.handle)
  {
    var calls := ByIndexCalls(path, m, iconIndex, order);
    var decode := match IconResolver.IconIndexName(m.groupNames, iconIndex)
      case None => []
      case Some(name) => DecodeCalls(m, name, order);
    if IconResolver.IconIndexName(m.groupNames, iconIndex).Some? {
      DecodeFreesNothing(m, IconResolver.IconIndexName(m.groupNames, iconIndex).value, order);
    }
    FreesNothingConcat([LoadLibrary(path)], EnumCalls(m, iconIndex));
    FreesNothingConcat([LoadLibrary(path)] + EnumCalls(m, iconIndex), decode);
    assert calls[..|calls| - 1] == [LoadLibrary(path)] + EnumCalls(m, iconIndex) + decode;
  }

  /**
   * When the index resolves to nothing, load(path, iconIndex) never reaches
   * the decoder: no resource is looked up and no image loaded.
   */
  lemma ResolutionMissSkipsDecode(path: string, m: Module, iconIndex: int, order: seq<int>)
    requires IconResolver.IconIndexName(m.groupNames, iconIndex).None?
    ensures var calls := ByIndexCalls(path, m, iconIndex, order);
      forall i :: 0 <= i < |calls| ==> !calls[i].FindResource? && !calls[i].LoadImage?
  {
    var calls := ByIndexCalls(path, m, iconIndex, order);
    assert calls == [LoadLibrary(path)] + EnumCalls(m, iconIndex) + [FreeLibrary(m.handle)];
  }

  /** The image requests (width, height) among `calls`, in order. */
  function Requests(calls: seq<Call>): seq<(int, int)>
    decreases |calls|
  {
    if calls == [] then []
    else
      var last := calls[|calls| - 1];
      Requests(calls[..|calls| - 1]) + (if last.LoadImage? then [(last.width, last.height)] else [])
  }

  lemma {:induction false} RequestsConcat(a: seq<Call>, b: seq<Call>)
    ensures Requests(a + b) == Requests(a) + Requests(b)
    decreases |b|
  {
    if b != [] {
      var b' := b[..|b| - 1];
      assert (a + b)[..|a + b| - 1] == a + b';
      RequestsConcat(a, b');
    } else {
      assert a + b == a;
    }
  }

  /**
   * The decoder asks LoadImageW for square icons only, one request per
   * entry of `order` and in that order.
   */
  lemma {:induction false} LoadRequestsAreSquare(m: Module, name: ResourceName, order: seq<int>)
    ensures |Requests(LoadCalls(m, name, order))| == |order|
    ensures forall i :: 0 <= i < |order| ==> Requests(LoadCalls(m, name, order))[i] == (order[i], order[i])
    decreases |order|
  {
    if order != [] {
      var prefix := order[..|order| - 1];
      var size := order[|order| - 1];
      LoadRequestsAreSquare(m, name, prefix);
      RequestsConcat(LoadCalls(m, name, prefix), SizeCalls(m, name, size));
      var tail := SizeCalls(m, name, size);
      assert Requests(tail) == [(size, size)] by {
        if ImageFor(m, name, size).Some? {
          assert tail[..1] == [tail[0]];
          assert Requests(tail[..1]) == Requests([]) + [(size, size)];
        } else {
          assert tail[..0] == [];
        }
      }
    }
  }

  lemma {:induction false} DistinctCount(order: seq<int>, sizes: set<int>)
    requires Enumerates(order, sizes)
    ensures |order| == |sizes|
    decreases |order|
  {
    if order != [] {
      var last := order[|order| - 1];
      var prefix := order[..|order| - 1];
      assert last !in prefix;
      assert Enumerates(prefix, sizes - {last});
      DistinctCount(prefix, sizes - {last});
    } else {
      assert forall s :: s !in sizes;
    }
  }

  /**
   * For an order that enumerates the size set, every distinct size is
   * requested exactly once, as a square, and nothing else is requested.
   */
  lemma EachSizeRequestedOnce(m: Module, name: ResourceName, order: seq<int>, sizes: set<int>)
    requires Enumerates(order, sizes)
    ensures var rq := Requests(LoadCalls(m, name, order));
      && |rq| == |sizes|
      && (forall i :: 0 <= i < |rq| ==> rq[i].0 == rq[i].1)
      && (forall i, j :: 0 <= i < j < |rq| ==> rq[i] != rq[j])
      && (forall s :: s in sizes <==> (s, s) in rq)
  {
    var rq := Requests(LoadCalls(m, name, order));
    LoadRequestsAreSquare(m, name, order);
    DistinctCount(order, sizes);
    forall s | s in sizes
      ensures (s, s) in rq
    {
      var i :| 0 <= i < |order| && order[i] == s;
      assert rq[i] == (s, s);
    }
  }

  /** Every icon LoadImageW returns is destroyed by the very next call. */
  ghost predicate LoadsAreDestroyed(calls: seq<Call>)
  {
    forall i :: 0 <= i < |calls| && calls[i].LoadImage? && calls[i].result.Some? ==>
      i + 1 < |calls| && calls[i + 1] == DestroyIcon(calls[i].result.value)
  }

  /** Every DestroyIcon destroys the icon the call just before it returned. */
  ghost predicate DestroysFollowLoads(calls: seq<Call>)
  {
    forall i :: 0 <= i < |calls| && calls[i].DestroyIcon? ==>
      0 < i && calls[i - 1].LoadImage? && calls[i - 1].result == Some(calls[i].icon)
  }

  /**
   * Successful loads and destroys pair up one to one, each destroy right
   * after its load: every returned icon handle is destroyed exactly once.
   */
  lemma {:induction false} IconsDestroyedOnce(m: Module, name: ResourceName, order: seq<int>)
    ensures LoadsAreDestroyed(LoadCalls(m, name, order))
    ensures DestroysFollowLoads(LoadCalls(m, name, order))
    decreases |order|
  {
    if order != [] {
      var prefix := order[..|order| - 1];
      IconsDestroyedOnce(m, name, prefix);
      var p := LoadCalls(m, name, prefix);
      var t := SizeCalls(m, name, order[|order| - 1]);
      var calls := p + t;
      assert calls == LoadCalls(m, name, order);
      var icon := ImageFor(m, name, order[|order| - 1]);
      assert t[0].LoadImage? && t[0].result == icon;
      assert |t| == if icon.Some? then 2 else 1;
      assert icon.Some? ==> t[1] == DestroyIcon(icon.value);
      forall i | 0 <= i < |calls| && calls[i].LoadImage? && calls[i].result.Some?
        ensures i + 1 < |calls| && calls[i + 1] == DestroyIcon(calls[i].result.value)
      {
        if i < |p| {
          assert p[i] == calls[i];
          assert i + 1 < |p| && p[i + 1] == DestroyIcon(p[i].result.value);
          assert calls[i + 1] == p[i + 1];
        } else {
          assert calls[i] == t[i - |p|];
          assert i == |p|;
          assert calls[i + 1] == t[1];
        }
      }
      forall i | 0 <= i < |calls| && calls[i].DestroyIcon?
        ensures 0 < i && calls[i - 1].LoadImage? && calls[i - 1].result == Some(calls[i].icon)
      {
        if i < |p| {
          assert p[i] == calls[i];
          assert 0 < i && p[i - 1].LoadImage? && p[i - 1].result == Some(p[i].icon);
          assert calls[i - 1] == p[i - 1];
        } else {
          assert calls[i] == t[i - |p|];
          assert i == |p| + 1;
          assert calls[i - 1] == t[0];
        }
      }
    }
  }

  /** The sizes in `order` that LoadImageW renders. */
  ghost function Loaded(m: Module, name: ResourceName, sizes: set<int>): set<int>
  {
    set s | s in sizes && ImageFor(m, name, s).Some?
  }

  lemma EnumeratesPrefix(order: seq<int>, sizes: set<int>)
    requires Enumerates(order, sizes) && order != []
    ensures order[|order| - 1] in sizes
    ensures Enumerates(order[..|order| - 1], sizes - {order[|order| - 1]})
  {
    var prefix := order[..|order| - 1];
    assert order == prefix + [order[|order| - 1]];
  }

  lemma LoadedStep(m: Module, name: ResourceName, sizes: set<int>, size: int)
    requires size in sizes
    ensures |Loaded(m, name, sizes)| ==
      |Loaded(m, name, sizes - {size})| + if ImageFor(m, name, size).Some? then 1 else 0
  {
    if ImageFor(m, name, size).Some? {
      assert Loaded(m, name, sizes) == Loaded(m, name, sizes - {size}) + {size};
    } else {
      assert Loaded(m, name, sizes) == Loaded(m, name, sizes - {size});
    }
  }

  /**
   * One pixmap is appended per distinct size that loads: the number of
   * pixmaps equals the number of successful LoadImageW calls.
   */
  lemma {:induction false} RenderedCount(m: Module, name: ResourceName, order: seq<int>, sizes: set<int>, scaleFactor: int)
    requires Enumerates(order, sizes)
    ensures |Rendered(m, name, order, scaleFactor)| == |Loaded(m, name, sizes)|
    decreases |order|
  {
    if order == [] {
      assert forall s :: s !in sizes;
      assert Loaded(m, name, sizes) == {};
    } else {
      var last := order[|order| - 1];
      EnumeratesPrefix(order, sizes);
      RenderedCount(m, name, order[..|order| - 1], sizes - {last}, scaleFactor);
      LoadedStep(m, name, sizes, last);
    }
  }

  /**
   * The decoder reports success exactly when it appended at least one
   * pixmap; in particular, when every size fails to load it reports
   * failure and appends nothing, however well-formed the directory.
   */
  lemma SuccessIffAppended(m: Module, name: ResourceName, scaleFactor: int, order: seq<int>,
                           before: seq<PixmapEntry>, after: seq<PixmapEntry>)
    requires Decodable(m, name)
    requires DecodedInto(m, name, scaleFactor, order, before, after)
    ensures Decodes(m, name) <==> |after| > |before|
    ensures |after| - |before| == if GroupData(m, name).None? then 0
      else |Loaded(m, name, SizeSet(GroupData(m, name).value))|
  {
    if GroupData(m, name).Some? {
      var sizes := SizeSet(GroupData(m, name).value);
      RenderedCount(m, name, order, sizes, scaleFactor);
      if Decodes(m, name) {
        var s :| s in sizes && ImageFor(m, name, s).Some?;
        assert s in Loaded(m, name, sizes);
      } else {
        assert Loaded(m, name, sizes) == {};
      }
    }
  }

  /**
   * The decoder appends nothing and fails when the group is missing,
   * LoadResource fails, LockResource yields null or the resource is
   * shorter than the 6-byte header.
   */
  lemma EarlyExitsAppendNothing(m: Module, name: ResourceName, scaleFactor: int, order: seq<int>,
                                before: seq<PixmapEntry>, after: seq<PixmapEntry>)
    requires Decodable(m, name)
    requires DecodedInto(m, name, scaleFactor, order, before, after)
    requires name !in m.groups || !m.groups[name].loaded || !m.groups[name].locked
      || |m.groups[name].data| < HeaderSize
    ensures !Decodes(m, name) && after == before
    ensures DecodeCalls(m, name, order) == [FindResource(name)]
  {
  }

  /**
   * Sizes 16, 32 and 48 where only 48 loads: the decode succeeds, with
   * exactly one pixmap appended.
   */
  lemma PartialSuccess(m: Module, name: ResourceName, order: seq<int>, scaleFactor: int)
    requires Enumerates(order, {16, 32, 48})
    requires ImageFor(m, name, 16).None? && ImageFor(m, name, 32).None? && ImageFor(m, name, 48).Some?
    ensures AnyLoads(m, name, {16, 32, 48})
    ensures |Rendered(m, name, order, scaleFactor)| == 1
  {
    RenderedCount(m, name, order, {16, 32, 48}, scaleFactor);
    assert Loaded(m, name, {16, 32, 48}) == {48};
  }
}
