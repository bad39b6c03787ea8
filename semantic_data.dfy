/**
 * The scratch state of the older switch reordering: per-switch data keyed
 * by an unsigned number, the reorderings chosen for a version, and the set
 * of switches already rewritten, with the two clears between versions.
 */
module SemanticData {
  import opened Common

  /** The switch information the older revision keeps. */
  class SwitchData {
    const location: uint32
    const fileName: string

    /** `randomXORValue`; `None` until it is set, since the constructor leaves it uninitialised. */
    var randomXORValue: Option<int32>

    constructor (location: uint32, fileName: string)
      ensures GetLocation() == location && GetFileName() == fileName
      ensures GetRandomXORValue().None?
    {
      this.location := location;
      this.fileName := fileName;
      randomXORValue := None;
    }

    /** `getLocation()`. */
    function GetLocation(): uint32 {
      location
    }

    /** `getFileName()`. */
    function GetFileName(): string {
      fileName
    }

    /** `setRandomXORValue(v)`: a later `getRandomXORValue()` returns `v`. */
    method SetRandomXORValue(v: int32)
      modifies this
      ensures GetRandomXORValue() == Some(v)
    {
      randomXORValue := Some(v);
    }

    /** `getRandomXORValue()`; `None` stands for the unspecified value read before any set. */
    function GetRandomXORValue(): Option<int32>
      reads this
    {
      randomXORValue
    }
  }

  /** `SWCReordering` of the older revision. */
  class SWCReordering {
    var switchMap: map<uint32, SwitchData>
    var switchReorderings: map<uint32, SwitchData>
    var rewritten: set<uint32>

    constructor ()
      ensures switchMap == map[] && switchReorderings == map[] && rewritten == {}
    {
      switchMap := map[];
      switchReorderings := map[];
      rewritten := {};
    }

    /** `getSwitchMap()`: a copy, so nothing the caller does to it reaches this object. */
    function GetSwitchMap(): map<uint32, SwitchData>
      reads this
    {
      switchMap
    }

    /** `getSwitchReorderings()`: a copy as well. */
    function GetSwitchReorderings(): map<uint32, SwitchData>
      reads this
    {
      switchReorderings
    }

    /** `isInSwitchMap(key)`. */
    predicate IsInSwitchMap(key: uint32)
      reads this
    {
      key in switchMap
    }

    /** `isInSwitchReorderingMap(key)`. */
    predicate IsInSwitchReorderingMap(key: uint32)
      reads this
    {
      key in switchReorderings
    }

    /** `hasBeenRewritten(key)`. */
    predicate HasBeenRewritten(key: uint32)
      reads this
    {
      key in rewritten
    }

    /** `addSwitchData(key, data)`: `switchMap[key] = data`, overwriting an earlier entry for `key`. */
    method AddSwitchData(key: uint32, data: SwitchData)
      modifies this
      ensures IsInSwitchMap(key) && switchMap[key] == data
      ensures forall k :: k != key ==> (IsInSwitchMap(k) <==> old(IsInSwitchMap(k)))
      ensures switchMap == old(switchMap)[key := data]
      ensures switchReorderings == old(switchReorderings) && rewritten == old(rewritten)
    {
      switchMap := switchMap[key := data];
    }

    /** `addSwitchReorderingData(key, data)`: `switchReorderings[key] = data`. */
    method AddSwitchReorderingData(key: uint32, data: SwitchData)
      modifies this
      ensures IsInSwitchReorderingMap(key) && switchReorderings[key] == data
      ensures forall k :: k != key ==> (IsInSwitchReorderingMap(k) <==> old(IsInSwitchReorderingMap(k)))
      ensures switchReorderings == old(switchReorderings)[key := data]
      ensures switchMap == old(switchMap) && rewritten == old(rewritten)
    {
      switchReorderings := switchReorderings[key := data];
    }

    /** `switchRewritten(key)`: a set insert, so a second insert of `key` changes nothing. */
    method SwitchRewritten(key: uint32)
      modifies this
      ensures rewritten == old(rewritten) + {key}
      ensures HasBeenRewritten(key)
      ensures old(HasBeenRewritten(key)) ==> rewritten == old(rewritten)
      ensures switchMap == old(switchMap) && switchReorderings == old(switchReorderings)
    {
      rewritten := rewritten + {key};
    }

    /** `clearSwitchReorderings()`: only the reorderings go. */
    method ClearSwitchReorderings()
      modifies this
      ensures switchReorderings == map[]
      ensures forall k :: !IsInSwitchReorderingMap(k)
      ensures switchMap == old(switchMap) && rewritten == old(rewritten)
    {
      switchReorderings := map[];
    }

    /** `clearRewritten()`: only the rewritten set goes. */
    method ClearRewritten()
      modifies this
      ensures rewritten == {}
      ensures forall k :: !HasBeenRewritten(k)
      ensures switchMap == old(switchMap) && switchReorderings == old(switchReorderings)
    {
      rewritten := {};
    }
  }
}
