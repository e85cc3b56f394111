/** The host-key to pad-button map: each input device gets a fresh id, and
    a key on a device is bound to the pad buttons it presses. The map and the
    id counter are the module's statics and are passed in and out. */
module KeyMap {
  import HidPad

  /** A host key code on one input device. */
  datatype HostDeviceKey = HostDeviceKey(keyCode: int, deviceId: int)

  datatype KeyMapState = KeyMapState(keyMap: map<HostDeviceKey, HidPad.PadState>, nextDeviceId: int)

  /** NewDeviceId: the counter's value, and the counter one further on. */
  function NewDeviceId(s: KeyMapState): (r: (int, KeyMapState))
    ensures r.0 == s.nextDeviceId
    ensures r.1.nextDeviceId > r.0
    ensures r.1.keyMap == s.keyMap
  {
    (s.nextDeviceId, s.(nextDeviceId := s.nextDeviceId + 1))
  }

  /** The ids handed out by n calls of NewDeviceId in a row, and the state
      after them. */
  function DeviceIds(s: KeyMapState, n: nat): (r: (seq<int>, KeyMapState))
    ensures |r.0| == n
    ensures r.1.keyMap == s.keyMap
    decreases n
  {
    if n == 0 then ([], s)
    else
      var (id, s1) := NewDeviceId(s);
      var (ids, s2) := DeviceIds(s1, n - 1);
      ([id] + ids, s2)
  }

  /** Starting from a counter c, n calls hand out c, c+1, ..., c+n-1 and
      leave the counter at c+n. */
  lemma {:induction false} DeviceIdsCount(s: KeyMapState, n: nat)
    ensures forall i :: 0 <= i < n ==> DeviceIds(s, n).0[i] == s.nextDeviceId + i
    ensures DeviceIds(s, n).1.nextDeviceId == s.nextDeviceId + n
    decreases n
  {
    if n > 0 {
      var (id, s1) := NewDeviceId(s);
      DeviceIdsCount(s1, n - 1);
    }
  }

  /** Ids handed out one after another are strictly increasing, so no two
      devices share one. */
  lemma DeviceIdsIncrease(s: KeyMapState, n: nat)
    ensures forall i, j :: 0 <= i < j < n ==> DeviceIds(s, n).0[i] < DeviceIds(s, n).0[j]
  {
    DeviceIdsCount(s, n);
  }

  /** The program starts with id 0: the first n devices get ids 0..n-1. */
  lemma FirstIdsFromZero(m: map<HostDeviceKey, HidPad.PadState>, n: nat)
    ensures forall i :: 0 <= i < n ==> DeviceIds(KeyMapState(m, 0), n).0[i] == i
  {
    DeviceIdsCount(KeyMapState(m, 0), n);
  }

  /** SetKeyMapping: the key is bound to the given buttons, replacing any
      earlier binding, and every other key keeps its binding. */
  function SetKeyMapping(s: KeyMapState, key: HostDeviceKey, padState: HidPad.PadState): (r: KeyMapState)
    ensures key in r.keyMap && r.keyMap[key] == padState
    ensures r.keyMap.Keys == s.keyMap.Keys + {key}
    ensures forall k :: k in s.keyMap && k != key ==> r.keyMap[k] == s.keyMap[k]
    ensures r.nextDeviceId == s.nextDeviceId
  {
    s.(keyMap := s.keyMap[key := padState])
  }

  /** GetPadKey: the buttons bound to the key; a key never bound reads as no
      buttons, and the lookup itself binds it to no buttons. */
  function GetPadKey(s: KeyMapState, key: HostDeviceKey): (r: (HidPad.PadState, KeyMapState))
    ensures key in s.keyMap ==> r.0 == s.keyMap[key] && r.1 == s
    ensures key !in s.keyMap ==> r.0 == 0
    ensures key in r.1.keyMap && r.1.keyMap[key] == r.0
    ensures r.1.keyMap.Keys == s.keyMap.Keys + {key}
    ensures forall k :: k in s.keyMap ==> r.1.keyMap[k] == s.keyMap[k]
    ensures r.1.nextDeviceId == s.nextDeviceId
  {
    if key in s.keyMap then (s.keyMap[key], s)
    else (0, s.(keyMap := s.keyMap[key := 0]))
  }

  /** Looking a key up right after binding it gives the buttons bound. */
  lemma SetThenGet(s: KeyMapState, key: HostDeviceKey, padState: HidPad.PadState)
    ensures GetPadKey(SetKeyMapping(s, key, padState), key).0 == padState
  {
  }

  /** Binding one key does not change what another key looks up to. */
  lemma SetLeavesOthers(s: KeyMapState, key: HostDeviceKey, other: HostDeviceKey, padState: HidPad.PadState)
    requires other != key
    ensures GetPadKey(SetKeyMapping(s, key, padState), other).0 == GetPadKey(s, other).0
  {
  }

  /** Of two bindings of the same key, the later one wins. */
  lemma LastSetWins(s: KeyMapState, key: HostDeviceKey, a: HidPad.PadState, b: HidPad.PadState)
    ensures SetKeyMapping(SetKeyMapping(s, key, a), key, b) == SetKeyMapping(s, key, b)
  {
  }

  /** A second lookup of the same key gives the same answer and changes
      nothing more. */
  lemma GetIdempotent(s: KeyMapState, key: HostDeviceKey)
    ensures var (v, s1) := GetPadKey(s, key);
            GetPadKey(s1, key) == (v, s1)
  {
  }
}
