/**
 * Mapping a legacy icon index to an RT_GROUP_ICON resource name: a negative
 * index is itself a (negated) resource id; a non-negative index k names the
 * k-th group reported by EnumResourceNamesW, found with a countdown that
 * the enumeration callback decrements until it reaches zero.
 */
module IconResolver {
  import opened Win32

  /** EnumIconGroupInfo: the state the callback shares with its caller. */
  class EnumIconGroupInfo {
    var countdown: int
    var foundRes: Option<ResourceName>

    constructor(iconIndex: int)
      ensures countdown == iconIndex && foundRes == None
    {
      countdown := iconIndex;
      foundRes := None;
    }
  }

  /**
   * The callback EnumIconGroup: at countdown 0 it records the name and stops
   * the enumeration, otherwise it decrements the countdown and continues.
   */
  method EnumIconGroup(name: ResourceName, info: EnumIconGroupInfo) returns (keepGoing: bool)
    modifies info
    ensures keepGoing <==> old(info.countdown) != 0
    ensures !keepGoing ==> info.foundRes == Some(name) && info.countdown == 0
    ensures keepGoing ==> info.foundRes == old(info.foundRes) && info.countdown == old(info.countdown) - 1
  {
    if info.countdown == 0 {
      info.foundRes := Some(name);
      return false;
    }
    info.countdown := info.countdown - 1;
    return true;
  }

  /**
   * EnumResourceNamesW over the names `names`, calling EnumIconGroup on
   * each in turn until it asks to stop. Returns how many names it visited.
   */
  method EnumerateGroups(names: seq<ResourceName>, info: EnumIconGroupInfo) returns (visited: nat)
    requires info.countdown >= 0 && info.foundRes == None
    modifies info
    ensures old(info.countdown) < |names| ==>
      visited == old(info.countdown) + 1 && info.foundRes == Some(names[old(info.countdown)]) && info.countdown == 0
    ensures old(info.countdown) >= |names| ==>
      visited == |names| && info.foundRes == None && info.countdown == old(info.countdown) - |names|
  {
    ghost var start := info.countdown;
    visited := 0;
    while visited < |names|
      invariant visited <= |names|
      invariant info.foundRes == None && info.countdown == start - visited >= 0
      decreases |names| - visited
    {
      var keepGoing := EnumIconGroup(names[visited], info);
      visited := visited + 1;
      if !keepGoing {
        return;
      }
    }
  }

  /**
   * What resourceFromIconIndex is meant to return: for a negative index the
   * integer resource -iconIndex, otherwise the iconIndex-th enumerated name,
   * or null when there are not that many.
   */
  function IconIndexName(names: seq<ResourceName>, iconIndex: int): Option<ResourceName>
  {
    if iconIndex < 0 then MakeIntResource(-iconIndex)
    else if iconIndex < |names| then Some(names[iconIndex])
    else None
  }

  /** `iconIndex` is an int other than INT_MIN, whose negation overflows. */
  predicate NegatableInt(iconIndex: int)
  {
    -0x8000_0000 < iconIndex < 0x8000_0000
  }

  /**
   * resourceFromIconIndex. `enumerated` tells whether EnumResourceNamesW was
   * called, `visited` how many names the callback saw and `decrements` how
   * many times it decremented the countdown.
   */
  method ResourceFromIconIndex(names: seq<ResourceName>, iconIndex: int)
    returns (res: Option<ResourceName>, enumerated: bool, visited: nat, decrements: nat)
    requires NegatableInt(iconIndex)
    ensures res == IconIndexName(names, iconIndex)
    ensures iconIndex < 0 ==> !enumerated && visited == 0
    ensures 0 <= iconIndex < |names| ==>
      enumerated && res == Some(names[iconIndex]) && visited == iconIndex + 1 && decrements == iconIndex
    ensures iconIndex >= |names| ==> enumerated && res == None && visited == |names| && decrements == |names|
  {
    if iconIndex < 0 {
      res := MakeIntResource(-iconIndex);
      return res, false, 0, 0;
    }
    var info := new EnumIconGroupInfo(iconIndex);
    visited := EnumerateGroups(names, info);
    res := info.foundRes;
    enumerated := true;
    decrements := iconIndex - info.countdown;
  }

  /** An index whose negation is at most 0xFFFF names that integer resource. */
  lemma NegativeIndexIsResourceId(names: seq<ResourceName>, iconIndex: int)
    requires -0x1_0000 < iconIndex < 0
    ensures IconIndexName(names, iconIndex) == Some(IntResource(-iconIndex))
  {
  }

  /** -7 names integer resource 7, whatever the module holds. */
  lemma MinusSevenIsResourceSeven(names: seq<ResourceName>)
    ensures IconIndexName(names, -7) == Some(IntResource(7))
  {
  }

  /** Index 1 over [A, B, C] names B; index 5 names nothing. */
  lemma OrdinalResolution(a: ResourceName, b: ResourceName, c: ResourceName)
    ensures IconIndexName([a, b, c], 1) == Some(b)
    ensures IconIndexName([a, b, c], 5) == None
  {
  }

  /**
   * The WORD cast in MAKEINTRESOURCE makes -65536 (and every multiple of
   * 65536) the null name, exactly like an index past the last group.
   */
  lemma MultipleOf65536IsNull(names: seq<ResourceName>, k: int)
    requires 0 < k && -0x1_0000 * k > -0x8000_0000
    ensures IconIndexName(names, -0x1_0000 * k) == None
  {
  }

  /**
   * A non-negative index resolves to a name exactly when it is below the
   * number of groups, and that name is one of the groups.
   */
  lemma IndexResolvesIffInRange(names: seq<ResourceName>, iconIndex: nat)
    ensures IconIndexName(names, iconIndex).Some? <==> iconIndex < |names|
    ensures IconIndexName(names, iconIndex).Some? ==> IconIndexName(names, iconIndex).value in names
  {
  }
}
