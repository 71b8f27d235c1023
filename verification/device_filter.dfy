/** The dashboard's list of hidden devices, kept in `localStorage` as a JSON
    array of device ids: membership, toggling, and the filter applied to
    device lists. A `null` storage stands for a context without
    `localStorage` (server-side rendering). */
module DeviceFilter {
  import opened Wrappers
  import opened Strings
  import opened BrowserStorage
  import opened Cache

  const HiddenKey: string := "enviroSyncHiddenDevices"

  /** What `getHiddenDeviceIds` makes of the stored value: the array, or
      `[]` for a missing key, empty text and text that does not parse. */
  function StoredIds(v: Option<Stored>): (ids: seq<string>)
    ensures v.Some? && v.value.Ids? ==> ids == v.value.ids
    ensures !(v.Some? && v.value.Ids?) ==> ids == []
  {
    match v
    case Some(Ids(ids)) => ids
    case _ => []
  }

  /** `getHiddenDeviceIds()` */
  function HiddenDeviceIds(storage: LocalStorage?): (ids: seq<string>)
    reads storage
    ensures storage == null ==> ids == []
    ensures storage != null ==> ids == StoredIds(storage.GetItem(HiddenKey))
  {
    if storage == null then [] else StoredIds(storage.GetItem(HiddenKey))
  }

  /** `isDeviceHidden(id)` */
  function IsDeviceHidden(storage: LocalStorage?, id: string): (hidden: bool)
    reads storage
    ensures hidden <==> id in HiddenDeviceIds(storage)
  {
    id in HiddenDeviceIds(storage)
  }

  /** An element of a device list: an id, or an object with string fields. */
  datatype Device = Plain(id: string) | Record(fields: map<string, string>)

  /** The id `filterVisibleDevices` compares: the string itself, or the
      object's `idField` (None when the object has no such field). */
  function DeviceIdOf(device: Device, idField: string): Option<string>
  {
    match device
    case Plain(id) => Some(id)
    case Record(fields) => if idField in fields then Some(fields[idField]) else None
  }

  predicate Visible(device: Device, idField: string, hidden: seq<string>)
  {
    var id := DeviceIdOf(device, idField);
    id.None? || id.value !in hidden
  }

  /** `a` is `b` with some elements left out, the rest in their order. */
  ghost predicate IsSubsequence<T>(a: seq<T>, b: seq<T>)
    decreases |b|
  {
    a == [] || (b != [] && ((a[0] == b[0] && IsSubsequence(a[1..], b[1..])) || IsSubsequence(a, b[1..])))
  }

  /** `devices.filter(...)` against the list `hidden`: keeps exactly the
      visible devices, in their order and with their repetitions. */
  function FilterVisible(devices: seq<Device>, idField: string, hidden: seq<string>): (r: seq<Device>)
    ensures forall d :: d in r <==> d in devices && Visible(d, idField, hidden)
    ensures IsSubsequence(r, devices)
    ensures forall d :: Visible(d, idField, hidden) ==> multiset(r)[d] == multiset(devices)[d]
  {
    if devices == [] then []
    else
      var rest := FilterVisible(devices[1..], idField, hidden);
      assert devices == [devices[0]] + devices[1..];
      if Visible(devices[0], idField, hidden) then
        assert ([devices[0]] + rest)[1..] == rest;
        [devices[0]] + rest
      else
        rest
  }

  /** The field `filterVisibleDevices` reads when no `idField` is passed. */
  const DefaultIdField: string := "id"

  /** `filterVisibleDevices(devices, idField)`, `idField` defaulting to
      "id": a device is kept exactly when it has no id or `isDeviceHidden`
      says no. */
  function FilterVisibleDevices(storage: LocalStorage?, devices: seq<Device>, idField: Option<string>): (r: seq<Device>)
    reads storage
    ensures IsSubsequence(r, devices)
    ensures forall d :: d in r <==>
              d in devices && (DeviceIdOf(d, idField.GetOr(DefaultIdField)).None? ||
                               !IsDeviceHidden(storage, DeviceIdOf(d, idField.GetOr(DefaultIdField)).value))
  {
    FilterVisible(devices, idField.GetOr(DefaultIdField), HiddenDeviceIds(storage))
  }

  /** `ids.indexOf(id)`: the first position of `id`, or -1. */
  function IndexOf(ids: seq<string>, id: string): (i: int)
    ensures i == -1 <==> id !in ids
    ensures i != -1 ==> 0 <= i < |ids| && ids[i] == id && id !in ids[..i]
  {
    if ids == [] then -1
    else if ids[0] == id then 0
    else
      var j := IndexOf(ids[1..], id);
      if j == -1 then -1
      else
        assert ids[..j + 1] == [ids[0]] + ids[1..][..j];
        j + 1
  }

  /** The list after a toggle: `id` appended when absent, its first
      occurrence spliced out when present. */
  function Toggled(ids: seq<string>, id: string): (r: seq<string>)
    ensures id !in ids ==> r == ids + [id]
    ensures id in ids ==> exists i :: 0 <= i < |ids| && ids[i] == id && id !in ids[..i] && r == ids[..i] + ids[i + 1..]
    ensures multiset(r) == if id in ids then multiset(ids) - multiset{id} else multiset(ids) + multiset{id}
  {
    var i := IndexOf(ids, id);
    if i == -1 then ids + [id]
    else
      assert ids == ids[..i] + [ids[i]] + ids[i + 1..];
      ids[..i] + ids[i + 1..]
  }

  /** Hiding a device and then showing it again restores the stored list. */
  lemma {:induction false} ToggleTwiceRestores(ids: seq<string>, id: string)
    requires id !in ids
    ensures Toggled(Toggled(ids, id), id) == ids
  {
    var once := ids + [id];
    var i := IndexOf(once, id);
    assert once[..|ids|] == ids;
    assert i == |ids|;
  }

  predicate NoDuplicates(ids: seq<string>)
  {
    forall i, j :: 0 <= i < j < |ids| ==> ids[i] != ids[j]
  }

  /** On a list without repetitions (which toggling keeps), a toggle flips
      whether the device is hidden, so the value it returns is the new
      hidden state. */
  lemma ToggleFlipsMembership(ids: seq<string>, id: string)
    requires NoDuplicates(ids)
    ensures id in Toggled(ids, id) <==> id !in ids
    ensures NoDuplicates(Toggled(ids, id))
  {
    var r := Toggled(ids, id);
    if id in ids {
      var i := IndexOf(ids, id);
      assert r == ids[..i] + ids[i + 1..];
      // r[a] is ids[Source(a)], and Source is strictly increasing
      forall a | 0 <= a < |r|
        ensures r[a] == ids[if a < i then a else a + 1]
      {
      }
      forall a, b | 0 <= a < b < |r|
        ensures r[a] != r[b]
      {
        assert ids[if a < i then a else a + 1] != ids[if b < i then b else b + 1];
      }
    } else {
      assert r == ids + [id];
      forall a, b | 0 <= a < b < |r|
        ensures r[a] != r[b]
      {
        if b == |ids| {
          assert r[a] == ids[a];
        }
      }
    }
  }

  /** `setHiddenDeviceIds(ids)`: stores the list; without storage, nothing
      happens. `getHiddenDeviceIds` then returns the same list. */
  method SetHiddenDeviceIds(storage: LocalStorage?, ids: seq<string>)
    modifies storage
    ensures storage != null ==> storage.items == old(storage.items)[HiddenKey := Ids(ids)]
    ensures storage != null ==> HiddenDeviceIds(storage) == ids
  {
    if storage == null {
      return;
    }
    storage.SetItem(HiddenKey, Ids(ids));
  }

  /** `toggleDeviceVisibility(id)`: toggles `id` in the stored list and
      returns true exactly when it was not in the list before. */
  method ToggleDeviceVisibility(storage: LocalStorage?, id: string) returns (nowHidden: bool)
    modifies storage
    ensures nowHidden <==> id !in old(HiddenDeviceIds(storage))
    ensures storage != null ==>
              storage.items == old(storage.items)[HiddenKey := Ids(Toggled(old(HiddenDeviceIds(storage)), id))]
    ensures storage != null ==> HiddenDeviceIds(storage) == Toggled(old(HiddenDeviceIds(storage)), id)
  {
    var hidden := HiddenDeviceIds(storage);
    var index := IndexOf(hidden, id);
    if index == -1 {
      hidden := hidden + [id];
    } else {
      hidden := hidden[..index] + hidden[index + 1..];
    }
    SetHiddenDeviceIds(storage, hidden);
    return index == -1;
  }

  /** The hidden list's key does not carry the cache prefix, so the cache's
      `clearAll` leaves it in place. */
  lemma HiddenListSurvivesCacheClear(items: map<string, Stored>)
    ensures HiddenKey in WithoutPrefixed(items, CachePrefix) <==> HiddenKey in items
    ensures HiddenKey in items ==> WithoutPrefixed(items, CachePrefix)[HiddenKey] == items[HiddenKey]
  {
    assert !StartsWith(HiddenKey, CachePrefix) by { assert HiddenKey[6] != CachePrefix[6]; }
  }
}
