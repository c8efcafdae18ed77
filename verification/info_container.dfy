/** `info_container`: the camera-info strings of a device, keyed by
    `rs2_camera_info`. Registering a second, different value for a key appends
    it on a new line; updating only touches keys already present. */
module InfoContainer {
  import opened Results

  /** An `rs2_camera_info` value. */
  type Info = nat

  type InfoMap = map<Info, string>

  const NotSupported: string := "Selected camera info is not supported for this camera!"

  /** `supports_info`: whether a value was registered for the key. */
  predicate SupportsInfo(c: InfoMap, info: Info)
  {
    info in c
  }

  /** `get_info`: the stored string, or an invalid-value error for an unknown key. */
  function GetInfo(c: InfoMap, info: Info): (r: Result<string>)
    ensures r.Failure? <==> !SupportsInfo(c, info)
    ensures r.Failure? ==> r.error == InvalidValue(NotSupported)
    ensures r.Success? ==> r.value == c[info]
  {
    if info !in c then Failure(InvalidValue(NotSupported)) else Success(c[info])
  }

  /** `register_info`: sets an unknown key; a known key holding a different
      value gets the new value appended after a newline. */
  function RegisterInfo(c: InfoMap, info: Info, val: string): (r: InfoMap)
    ensures r.Keys == c.Keys + {info}
    ensures forall k :: k in c && k != info ==> r[k] == c[k]
    ensures info !in c ==> r[info] == val
    ensures info in c && c[info] == val ==> r == c
    ensures info in c && c[info] != val ==> r[info] == c[info] + "\n" + val
  {
    if SupportsInfo(c, info) && GetInfo(c, info).value != val then c[info := c[info] + "\n" + val]
    else c[info := val]
  }

  /** Whatever was there before stays as a prefix, and the registered value
      always ends the stored string. */
  lemma RegisterInfoAppends(c: InfoMap, info: Info, val: string)
    ensures var s := RegisterInfo(c, info, val)[info];
      |val| <= |s| && s[|s| - |val|..] == val
    ensures info in c ==> var s := RegisterInfo(c, info, val)[info];
      |c[info]| <= |s| && s[..|c[info]|] == c[info]
  {
  }

  /** Registering the same value twice is the same as once exactly when the
      key was absent or already held that value; otherwise the value is
      appended a second time. */
  lemma RegisterInfoTwice(c: InfoMap, info: Info, val: string)
    ensures RegisterInfo(RegisterInfo(c, info, val), info, val) == RegisterInfo(c, info, val)
        <==> info !in c || c[info] == val
  {
    var once := RegisterInfo(c, info, val);
    if info in c && c[info] != val {
      assert |once[info]| > |val|;
      assert RegisterInfo(once, info, val)[info] == once[info] + "\n" + val;
      assert |RegisterInfo(once, info, val)[info]| > |once[info]|;
    }
  }

  /** `update_info`: replaces the value of a known key; never adds one. */
  function UpdateInfo(c: InfoMap, info: Info, val: string): (r: InfoMap)
    ensures r.Keys == c.Keys
    ensures forall k :: k in c && k != info ==> r[k] == c[k]
    ensures info in c ==> r[info] == val
    ensures info !in c ==> r == c
  {
    if SupportsInfo(c, info) then c[info := val] else c
  }

  /** After an update, `get_info` returns the new value exactly when the key
      was supported, and fails as before otherwise. */
  lemma UpdateThenGet(c: InfoMap, info: Info, val: string)
    ensures GetInfo(UpdateInfo(c, info, val), info) == if info in c then Success(val) else GetInfo(c, info)
  {
  }

  /** Registering adds support for its key and nothing else; updating never
      changes which infos are supported. */
  lemma SupportAfterChanges(c: InfoMap, k: Info, val: string, j: Info)
    ensures SupportsInfo(RegisterInfo(c, k, val), j) <==> SupportsInfo(c, j) || j == k
    ensures SupportsInfo(UpdateInfo(c, k, val), j) <==> SupportsInfo(c, j)
  {
  }

  /** The value key `k` ends up with after `update` from a snapshot. */
  ghost function Updated(c: InfoMap, snapshot: Option<InfoMap>, count: nat, k: Info): Option<string>
  {
    if snapshot.Some? && k < count && k in snapshot.value then Some(RegisterInfo(c, k, snapshot.value[k])[k])
    else if k in c then Some(c[k])
    else None
  }

  /** `r` agrees with what `update` makes of key `k` after `i` info kinds. */
  ghost predicate UpdatedAt(r: InfoMap, c: InfoMap, snapshot: Option<InfoMap>, i: nat, k: Info)
  {
    && (k in r <==> Updated(c, snapshot, i, k).Some?)
    && (k in r ==> r[k] == Updated(c, snapshot, i, k).value)
  }

  /** `r` holds what `update` has made of `c` once the first `i` info kinds
      were taken from the snapshot. */
  ghost predicate UpdatedUpTo(r: InfoMap, c: InfoMap, snapshot: Option<InfoMap>, i: nat)
  {
    forall k :: UpdatedAt(r, c, snapshot, i, k)
  }

  /** Registering info kind `i` keeps key `k` in step with `update`. */
  lemma UpdateStepAt(r: InfoMap, c: InfoMap, snap: InfoMap, i: nat, k: Info)
    requires UpdatedAt(r, c, Some(snap), i, k) && UpdatedAt(r, c, Some(snap), i, i)
    ensures UpdatedAt(if i in snap then RegisterInfo(r, i, snap[i]) else r, c, Some(snap), i + 1, k)
  {
  }

  /** One iteration of `update`'s loop: registering info kind `i` when the
      snapshot supports it. */
  lemma UpdateStep(r: InfoMap, c: InfoMap, snap: InfoMap, i: nat)
    requires UpdatedUpTo(r, c, Some(snap), i)
    ensures UpdatedUpTo(if i in snap then RegisterInfo(r, i, snap[i]) else r, c, Some(snap), i + 1)
  {
    var r' := if i in snap then RegisterInfo(r, i, snap[i]) else r;
    var next := i + 1;
    forall k
      ensures UpdatedAt(r', c, Some(snap), next, k)
    {
      UpdateStepAt(r, c, snap, i, k);
    }
  }

  /** `update( snapshot )`: registers every info the snapshot supports, for the
      `count` (`RS2_CAMERA_INFO_COUNT`) info kinds in index order; a snapshot
      that is not an info interface changes nothing. */
  method Update(c: InfoMap, snapshot: Option<InfoMap>, count: nat) returns (r: InfoMap)
    ensures forall k :: k in r <==> Updated(c, snapshot, count, k).Some?
    ensures forall k :: k in r ==> r[k] == Updated(c, snapshot, count, k).value
    ensures snapshot.None? ==> r == c
  {
    r := c;
    if snapshot.Some? {
      var snap := snapshot.value;
      var i := 0;
      while i < count
        invariant 0 <= i <= count
        invariant UpdatedUpTo(r, c, snapshot, i)
      {
        UpdateStep(r, c, snap, i);
        if SupportsInfo(snap, i) {
          r := RegisterInfo(r, i, GetInfo(snap, i).value);
        }
        i := i + 1;
      }
      forall k
        ensures k in r <==> Updated(c, snapshot, count, k).Some?
        ensures k in r ==> r[k] == Updated(c, snapshot, count, k).value
      {
        assert UpdatedAt(r, c, snapshot, count, k);
      }
    }
  }
}
