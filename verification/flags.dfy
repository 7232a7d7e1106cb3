/** `Flags`: configuration values read from the application's manifest
    metadata or from its shared preferences, with a per-flag policy for
    writing the value that was read back into the preferences.

    The metadata bundle and the preferences file are maps from key to
    value; a flag's value type is the map's value type. The object is
    global and guarded by a lock; here it is a `Store` value passed in and
    returned. */
module Flags {
  import opened Outcomes
  import Validate

  /** `Flag.GetType`: bits saying where a flag may be read from. */
  const FromMetadata: bv32 := 1
  const FromSharedPreferences: bv32 := 2

  /** `Flag.PutType`. */
  const DefaultValueOnlyOnceIfNotExists: int := 1
  const ChangedValueOnlyOnceIfNotExists: int := 2
  const ChangedValueAlways: int := 3
  const DoNotPut: int := -1

  const NotInitializedMessage := "Flags is not initialized."
  const FailedToLoadMetadataMessage := "Failed to load metadata."

  datatype Flag<T> = Flag(key: string, defaultValue: T, getType: bv32, putType: int)

  /** The state behind the object: whether `initialize` has run, the
      metadata it loaded and the preferences. */
  datatype Store<T> = Store(initialized: bool, metadata: map<string, T>, preferences: map<string, T>)

  function Uninitialized<T>(): (s: Store<T>)
    ensures !s.initialized
  {
    Store(false, map[], map[])
  }

  /** `initialize`: the first successful call loads the metadata (a missing
      bundle counts as empty) and takes the preferences; later calls do
      nothing. `loaded` is what reading the application info gave. */
  function Initialize<T>(s: Store<T>, loaded: Result<Option<map<string, T>>, Fault>, preferences: map<string, T>)
    : (r: Result<Store<T>, Fault>)
    ensures s.initialized ==> r == Ok(s)
    ensures !s.initialized ==> (r.Err? <==> loaded.Err?)
    ensures r.Err? ==> r.error == IllegalState(FailedToLoadMetadataMessage)
    ensures !s.initialized && r.Ok? ==>
              r.value == Store(true, loaded.value.GetOr(map[]), preferences)
  {
    if s.initialized then Ok(s)
    else match loaded
      case Err(_) => Err(IllegalState(FailedToLoadMetadataMessage))
      case Ok(m) => Ok(Store(true, m.GetOr(map[]), preferences))
  }

  /** Once initialized, the store stays as it is whatever later calls
      load. */
  lemma InitializeOnce<T>(s: Store<T>, l1: Result<Option<map<string, T>>, Fault>, p1: map<string, T>,
                          l2: Result<Option<map<string, T>>, Fault>, p2: map<string, T>)
    requires Initialize(s, l1, p1).Ok?
    ensures Initialize(s, l1, p1).value.initialized
    ensures Initialize(Initialize(s, l1, p1).value, l2, p2) == Initialize(s, l1, p1)
  {
  }

  /** `hasGetType`: every bit of `getType` is set in the flag's type. */
  predicate HasGetType<T>(f: Flag<T>, getType: bv32) {
    f.getType & getType == getType
  }

  /** The two get types are the two lowest bits, and a flag reads both
      sources exactly when it has both bits. */
  lemma GetTypeBits<T>(f: Flag<T>)
    ensures HasGetType(f, FromMetadata) <==> f.getType & 1 == 1
    ensures HasGetType(f, FromSharedPreferences) <==> (f.getType >> 1) & 1 == 1
    ensures HasGetType(f, FromMetadata | FromSharedPreferences) <==>
              HasGetType(f, FromMetadata) && HasGetType(f, FromSharedPreferences)
  {
  }

  /** A subset test on the bits: every bit of `getType` is set in the
      flag's type. */
  lemma HasGetTypeBit<T>(f: Flag<T>, getType: bv32, i: nat)
    requires i < 32 && HasGetType(f, getType) && (getType >> i) & 1 == 1
    ensures (f.getType >> i) & 1 == 1
  {
    MaskBit(f.getType, getType, i);
  }

  lemma MaskBit(mask: bv32, bits: bv32, i: nat)
    requires i < 32 && mask & bits == bits && (bits >> i) & 1 == 1
    ensures (mask >> i) & 1 == 1
  {
  }

  function GetViaMetadata<T>(f: Flag<T>, s: Store<T>): (r: Option<T>)
    ensures r.Some? <==> f.key in s.metadata
  {
    if f.key in s.metadata then Some(s.metadata[f.key]) else None
  }

  function GetViaSharedPreferences<T>(f: Flag<T>, preferences: map<string, T>): (r: Option<T>)
    ensures r.Some? <==> f.key in preferences
  {
    if f.key in preferences then Some(preferences[f.key]) else None
  }

  /** The value `getValue` finds: from the metadata when the flag reads
      metadata and the key is there, otherwise from the preferences when
      the flag reads those and the key is there. */
  function Lookup<T>(f: Flag<T>, s: Store<T>): (r: Option<T>)
    ensures r.Some? <==>
              (HasGetType(f, FromMetadata) && f.key in s.metadata)
              || (HasGetType(f, FromSharedPreferences) && f.key in s.preferences)
  {
    match (if HasGetType(f, FromMetadata) then GetViaMetadata(f, s) else None)
    case Some(v) => Some(v)
    case None => if HasGetType(f, FromSharedPreferences) then GetViaSharedPreferences(f, s.preferences) else None
  }

  /** A metadata value takes priority over one in the preferences; the
      preferences are consulted only without one. */
  lemma LookupPriority<T>(f: Flag<T>, s: Store<T>)
    ensures HasGetType(f, FromMetadata) && f.key in s.metadata ==> Lookup(f, s) == Some(s.metadata[f.key])
    ensures !(HasGetType(f, FromMetadata) && f.key in s.metadata) &&
              HasGetType(f, FromSharedPreferences) && f.key in s.preferences ==>
              Lookup(f, s) == Some(s.preferences[f.key])
  {
  }

  /** `internalGetViaSharedPreferences`: the stored value or the flag's
      default. */
  function StoredOrDefault<T>(f: Flag<T>, preferences: map<string, T>): T {
    if f.key in preferences then preferences[f.key] else f.defaultValue
  }

  /** `putValueIfNotExists`: writes only under a key not yet present. */
  function PutValueIfNotExists<T>(f: Flag<T>, preferences: map<string, T>, value: T): (r: map<string, T>)
    ensures f.key in preferences ==> r == preferences
    ensures f.key !in preferences ==> r == preferences[f.key := value]
  {
    if f.key in preferences then preferences else preferences[f.key := value]
  }

  /** `putValue`: writes when what the preferences give for the flag
      differs from the value, so the preferences then give the value. */
  function PutValue<T(==)>(f: Flag<T>, preferences: map<string, T>, value: T): (r: map<string, T>)
    ensures StoredOrDefault(f, r) == value
    ensures r == preferences || r == preferences[f.key := value]
  {
    if StoredOrDefault(f, preferences) != value then preferences[f.key := value] else preferences
  }

  /** `putIfPossibleAndGetValue`: the found value, written back according
      to the put policy, or else the default, written once under
      `DEFAULT_VALUE_ONLY_ONCE_IF_NOT_EXISTS`. */
  function PutIfPossibleAndGetValue<T(==)>(f: Flag<T>, preferences: map<string, T>, changed: Option<T>)
    : (r: (T, map<string, T>))
    ensures r.0 == changed.GetOr(f.defaultValue)
  {
    match changed
    case Some(v) =>
      if f.putType == ChangedValueOnlyOnceIfNotExists then (v, PutValueIfNotExists(f, preferences, v))
      else if f.putType == ChangedValueAlways then (v, PutValue(f, preferences, v))
      else (v, preferences)
    case None =>
      if f.putType == DefaultValueOnlyOnceIfNotExists then (f.defaultValue, PutValueIfNotExists(f, preferences, f.defaultValue))
      else (f.defaultValue, preferences)
  }

  /** `getValue`: fails before `initialize`; otherwise the found value or
      the default, and the store after the write-back. Only the flag's own
      key in the preferences can change. */
  function GetValue<T(==)>(f: Flag<T>, s: Store<T>): (r: Result<(T, Store<T>), Fault>)
    ensures r.Err? <==> !s.initialized
    ensures r.Err? ==> r.error == IllegalState(NotInitializedMessage)
    ensures r.Ok? ==> r.value.0 == Lookup(f, s).GetOr(f.defaultValue)
    ensures r.Ok? ==> r.value.1.initialized && r.value.1.metadata == s.metadata
    ensures r.Ok? ==> r.value.1.preferences - {f.key} == s.preferences - {f.key}
  {
    var _ :- Validate.CheckState(s.initialized, NotInitializedMessage);
    var (value, preferences) := PutIfPossibleAndGetValue(f, s.preferences, Lookup(f, s));
    Ok((value, s.(preferences := preferences)))
  }

  /** The write-back policies. `DO_NOT_PUT`, and every put type that is
      not one of the three writing ones, never writes; the two "once"
      types never overwrite a stored value; `CHANGED_VALUE_ALWAYS` leaves
      the preferences giving the found value; the default is written only
      when nothing was found. */
  lemma PutPolicies<T>(f: Flag<T>, s: Store<T>)
    requires s.initialized
    ensures var after := GetValue(f, s).value.1.preferences;
      && (f.putType !in {DefaultValueOnlyOnceIfNotExists, ChangedValueOnlyOnceIfNotExists, ChangedValueAlways} ==>
            after == s.preferences)
      && (f.putType in {DefaultValueOnlyOnceIfNotExists, ChangedValueOnlyOnceIfNotExists} && f.key in s.preferences ==>
            after == s.preferences)
      && (f.putType == ChangedValueAlways && Lookup(f, s).Some? ==>
            StoredOrDefault(f, after) == Lookup(f, s).value)
      && (f.putType == DefaultValueOnlyOnceIfNotExists && Lookup(f, s).Some? ==>
            after == s.preferences)
      && (f.putType == DefaultValueOnlyOnceIfNotExists && Lookup(f, s).None? && f.key !in s.preferences ==>
            after == s.preferences[f.key := f.defaultValue])
      && (f.putType == ChangedValueOnlyOnceIfNotExists && Lookup(f, s).None? ==>
            after == s.preferences)
  {
  }

  /** Reading a flag twice gives the same value, and the second read
      writes nothing: the first read already left the preferences as the
      policy wants them. */
  lemma {:induction false} GetValueIsStable<T>(f: Flag<T>, s: Store<T>)
    requires s.initialized
    ensures var (v, s1) := GetValue(f, s).value;
      GetValue(f, s1) == Ok((v, s1))
  {
    var (v, s1) := GetValue(f, s).value;
    var found := Lookup(f, s);
    if found.Some? && HasGetType(f, FromMetadata) && f.key in s.metadata {
      assert Lookup(f, s1) == found;
    } else if found.Some? {
      assert f.key in s.preferences && s1.preferences == s.preferences;
    } else if f.putType == DefaultValueOnlyOnceIfNotExists {
      assert f.key in s1.preferences;
    }
  }

  // ---------------------------------------------------------------------
  // The SDK's two flags
  // ---------------------------------------------------------------------

  const AppCodeKey := "com.example.sdk.APP_CODE"
  const UserIdKey := "com.example.sdk.USER_ID"

  /** `APP_CODE`: read from the metadata only, never written. */
  function AppCode(): Flag<string> {
    Flag(AppCodeKey, "", FromMetadata, DoNotPut)
  }

  /** `USER_ID`: read from the preferences, its default a random UUID
      chosen when the object is created, written once. */
  function UserId(randomUuid: string): Flag<string> {
    Flag(UserIdKey, randomUuid, FromSharedPreferences, DefaultValueOnlyOnceIfNotExists)
  }

  /** Reading the application code leaves the preferences alone and gives
      the empty string when the manifest has none. */
  lemma AppCodeReadsManifestOnly(s: Store<string>)
    requires s.initialized
    ensures GetValue(AppCode(), s).value.1 == s
    ensures GetValue(AppCode(), s).value.0 ==
              if AppCodeKey in s.metadata then s.metadata[AppCodeKey] else ""
  {
  }

  /** The user id survives a restart: the first read stores the UUID of
      that run, and a later run, with a fresh random default, reads the
      stored one. */
  lemma UserIdIsKeptAcrossRuns(s: Store<string>, firstUuid: string, laterUuid: string)
    requires s.initialized && UserIdKey !in s.preferences
    ensures var (id, s1) := GetValue(UserId(firstUuid), s).value;
      && id == firstUuid
      && GetValue(UserId(laterUuid), s1).value.0 == firstUuid
  {
  }
}
