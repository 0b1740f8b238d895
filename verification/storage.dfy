/**
 * The storage layer of js/storage-utils.js: every key the application writes is
 * namespaced with "blingus_" and every value is stored as its JSON text. A Store is one
 * browser storage area (localStorage, or sessionStorage for the session variants).
 */
module Storage {
  import opened Options
  import opened Strings
  import opened JsonCodec

  const Prefix: string := "blingus_"
  const TestKey: string := "__storage_test__"

  /**
   * One storage area: the string-to-string map it holds; whether it can be reached at
   * all (when it cannot, every access throws); and whether it accepts writes (when it
   * does not, `setItem` throws, as it does when the quota is exhausted).
   */
  class Store {
    var entries: map<string, string>
    var accessible: bool
    var writable: bool

    constructor (entries: map<string, string>, accessible: bool, writable: bool)
      ensures this.entries == entries && this.accessible == accessible && this.writable == writable
    {
      this.entries := entries;
      this.accessible := accessible;
      this.writable := writable;
    }
  }

  /** A key that belongs to the application. */
  predicate Prefixed(k: string) {
    Prefix <= k
  }

  lemma {:induction false} StripPrefix(c: string)
    ensures Prefixed(Prefix + c) && (Prefix + c)[|Prefix|..] == c
  {
  }

  lemma {:induction false} RestorePrefix(k: string)
    requires Prefixed(k)
    ensures Prefix + k[|Prefix|..] == k
  {
  }

  // ---------------------------------------------------------------- loading

  /**
   * What `loadLocal(key, d)` reads from a reachable store: d when the namespaced key is
   * absent, holds the empty string (which is falsy) or holds text that `JSON.parse`
   * rejects; otherwise the decoded value.
   */
  function LoadValue(m: map<string, string>, key: string, d: Json): Json {
    var k := Prefix + key;
    if k !in m || m[k] == "" then d
    else match Decode(m[k])
      case None => d
      case Some(v) => v
  }

  /** `loadLocal(key, d)` (and `loadSession`): an unreachable store gives d. */
  method LoadLocal(store: Store, key: string, d: Json) returns (v: Json)
    ensures v == (if store.accessible then LoadValue(store.entries, key, d) else d)
  {
    if !store.accessible {
      return d;
    }
    var k := Prefix + key;
    if k !in store.entries || store.entries[k] == "" {
      return d;
    }
    match Decode(store.entries[k])
    case None => v := d;
    case Some(x) => v := x;
  }

  /** A saved value loads back as itself. */
  lemma {:induction false} LoadAfterSave(m: map<string, string>, key: string, v: Json, d: Json)
    ensures LoadValue(m[Prefix + key := Encode(v)], key, d) == v
  {
    EncodeStart(v);
    DecodeEncode(v);
  }

  /** Saving or removing one key leaves what every other key loads. */
  lemma {:induction false} LoadOtherKey(m: map<string, string>, key: string, other: string, text: string, d: Json)
    requires other != key
    ensures LoadValue(m[Prefix + key := text], other, d) == LoadValue(m, other, d)
    ensures LoadValue(m - {Prefix + key}, other, d) == LoadValue(m, other, d)
  {
    StripPrefix(key);
    StripPrefix(other);
    assert Prefix + other != Prefix + key;
  }

  /** A removed key loads as the default. */
  lemma {:induction false} LoadAfterRemove(m: map<string, string>, key: string, d: Json)
    ensures LoadValue(m - {Prefix + key}, key, d) == d
  {
  }

  // ---------------------------------------------------------------- writing

  /**
   * `saveLocal(key, value)` (and `saveSession`): the namespaced key is set to the JSON
   * text of the value and the result is true; when the write throws the result is
   * false and the store is unchanged.
   */
  method SaveLocal(store: Store, key: string, value: Json) returns (ok: bool)
    modifies store
    ensures ok == (old(store.accessible) && old(store.writable))
    ensures store.accessible == old(store.accessible) && store.writable == old(store.writable)
    ensures ok ==> store.entries == old(store.entries)[Prefix + key := Encode(value)]
    ensures !ok ==> store.entries == old(store.entries)
  {
    if !store.accessible || !store.writable {
      return false;
    }
    store.entries := store.entries[Prefix + key := Encode(value)];
    return true;
  }

  /** `removeLocal(key)`: only the namespaced key is deleted. */
  method RemoveLocal(store: Store, key: string) returns (ok: bool)
    modifies store
    ensures ok == old(store.accessible)
    ensures store.accessible == old(store.accessible) && store.writable == old(store.writable)
    ensures ok ==> store.entries == old(store.entries) - {Prefix + key}
    ensures !ok ==> store.entries == old(store.entries)
  {
    if !store.accessible {
      return false;
    }
    store.entries := store.entries - {Prefix + key};
    return true;
  }

  /** The store with every application key taken out. */
  function Unprefixed(m: map<string, string>): (r: map<string, string>)
    ensures forall k :: k in r <==> k in m && !Prefixed(k)
    ensures forall k :: k in r ==> r[k] == m[k]
  {
    map k | k in m && !Prefixed(k) :: m[k]
  }

  /**
   * `clearLocal()`: walks a snapshot of the keys and removes each one that starts with
   * the prefix; the keys of other applications stay.
   */
  method ClearLocal(store: Store) returns (ok: bool)
    modifies store
    ensures ok == old(store.accessible)
    ensures store.accessible == old(store.accessible) && store.writable == old(store.writable)
    ensures ok ==> store.entries == Unprefixed(old(store.entries))
    ensures !ok ==> store.entries == old(store.entries)
  {
    if !store.accessible {
      return false;
    }
    var keys := store.entries.Keys;
    while keys != {}
      invariant store.accessible == old(store.accessible) && store.writable == old(store.writable)
      invariant keys <= old(store.entries).Keys
      invariant forall k :: k in store.entries <==> k in old(store.entries) && (k in keys || !Prefixed(k))
      invariant forall k :: k in store.entries ==> store.entries[k] == old(store.entries)[k]
      decreases keys
    {
      var k :| k in keys;
      if Prefixed(k) {
        store.entries := store.entries - {k};
      }
      keys := keys - {k};
    }
    assert store.entries.Keys == Unprefixed(old(store.entries)).Keys;
    return true;
  }

  /** `isLocalStorageAvailable()`: writes the probe key and removes it again. */
  method IsLocalStorageAvailable(store: Store) returns (available: bool)
    modifies store
    ensures available == (old(store.accessible) && old(store.writable))
    ensures store.accessible == old(store.accessible) && store.writable == old(store.writable)
    ensures available ==> store.entries == old(store.entries) - {TestKey}
    ensures !available ==> store.entries == old(store.entries)
  {
    if !store.accessible || !store.writable {
      return false;
    }
    store.entries := store.entries[TestKey := TestKey];
    store.entries := store.entries - {TestKey};
    return true;
  }

  // ---------------------------------------------------------------- export and import

  /** The application keys of a key set, with the prefix stripped. */
  function Stripped(ks: set<string>): set<string> {
    set k | k in ks && Prefixed(k) :: k[|Prefix|..]
  }

  lemma {:induction false} StrippedMember(ks: set<string>, c: string)
    ensures c in Stripped(ks) <==> Prefix + c in ks
  {
    StripPrefix(c);
    if c in Stripped(ks) {
      var k :| k in ks && Prefixed(k) && c == k[|Prefix|..];
      RestorePrefix(k);
    }
  }

  /** What `exportData()` returns for a reachable store: every stripped application key,
      mapped to what it loads with the default null. */
  function ExportView(m: map<string, string>): map<string, Json> {
    map c | c in Stripped(m.Keys) :: LoadValue(m, c, Null)
  }

  /** The exported keys are exactly the application keys, prefix stripped. */
  lemma {:induction false} ExportKeys(m: map<string, string>, c: string)
    ensures c in ExportView(m) <==> Prefix + c in m
  {
    StrippedMember(m.Keys, c);
  }

  /** Clearing leaves nothing to export. */
  lemma {:induction false} ExportAfterClear(m: map<string, string>)
    ensures ExportView(Unprefixed(m)) == map[]
  {
    forall c | c in ExportView(Unprefixed(m))
      ensures false
    {
      ExportKeys(Unprefixed(m), c);
      StripPrefix(c);
    }
  }

  /**
   * `exportData()`: walks a snapshot of the keys and records each application key under
   * its stripped name; an unreachable store gives the empty object.
   */
  method ExportData(store: Store) returns (data: map<string, Json>)
    ensures data == (if store.accessible then ExportView(store.entries) else map[])
  {
    data := map[];
    if !store.accessible {
      return;
    }
    var m := store.entries;
    var keys := m.Keys;
    while keys != {}
      invariant keys <= m.Keys
      invariant data == map c | c in Stripped(m.Keys - keys) :: LoadValue(m, c, Null)
      decreases keys
    {
      var k :| k in keys;
      ghost var done := m.Keys - keys;
      assert m.Keys - (keys - {k}) == done + {k};
      if Prefixed(k) {
        var c := k[|Prefix|..];
        data := data[c := LoadValue(m, c, Null)];
        assert Stripped(done + {k}) == Stripped(done) + {c};
      } else {
        assert Stripped(done + {k}) == Stripped(done);
      }
      keys := keys - {k};
    }
  }

  /** A key the import writes: an application key whose stripped name is in the data. */
  predicate Imported(k: string, data: map<string, Json>) {
    Prefixed(k) && k[|Prefix|..] in data
  }

  /**
   * `importData(data)`: saves every entry of the data in turn. None stands for a null or
   * undefined argument, on which `Object.keys` throws and the catch returns false with
   * nothing written. Each save catches its own failure, so for an object the result is
   * true; when the store refuses writes nothing is written.
   */
  method ImportData(store: Store, data: Option<map<string, Json>>) returns (ok: bool)
    modifies store
    ensures ok <==> data.Some?
    ensures store.accessible == old(store.accessible) && store.writable == old(store.writable)
    ensures data.None? ==> store.entries == old(store.entries)
    ensures data.Some? && old(store.accessible) && old(store.writable) ==>
              forall key :: key in data.value ==>
                Prefix + key in store.entries && store.entries[Prefix + key] == Encode(data.value[key])
    ensures data.Some? && !(old(store.accessible) && old(store.writable)) ==> store.entries == old(store.entries)
    ensures data.Some? ==> forall k :: !Imported(k, data.value) ==>
              (k in store.entries <==> k in old(store.entries))
              && (k in store.entries ==> store.entries[k] == old(store.entries)[k])
  {
    if data.None? {
      return false;
    }
    var d := data.value;
    var keys := d.Keys;
    while keys != {}
      invariant store.accessible == old(store.accessible) && store.writable == old(store.writable)
      invariant keys <= d.Keys
      invariant old(store.accessible) && old(store.writable) ==>
                  forall key :: key in d && key !in keys ==>
                    Prefix + key in store.entries && store.entries[Prefix + key] == Encode(d[key])
      invariant !(old(store.accessible) && old(store.writable)) ==> store.entries == old(store.entries)
      invariant forall k :: !Imported(k, d) ==>
                  (k in store.entries <==> k in old(store.entries))
                  && (k in store.entries ==> store.entries[k] == old(store.entries)[k])
      decreases keys
    {
      var key :| key in keys;
      StripPrefix(key);
      var saved := SaveLocal(store, key, d[key]);
      keys := keys - {key};
    }
    return true;
  }

  /**
   * After an import, exporting gives back every imported entry unchanged: `JSON.parse`
   * undoes `JSON.stringify` on each value.
   */
  lemma {:induction false} ImportThenExport(m: map<string, string>, data: map<string, Json>)
    requires forall key :: key in data ==> Prefix + key in m && m[Prefix + key] == Encode(data[key])
    ensures forall key :: key in data ==> key in ExportView(m) && ExportView(m)[key] == data[key]
  {
    forall key | key in data
      ensures key in ExportView(m) && ExportView(m)[key] == data[key]
    {
      ExportKeys(m, key);
      assert m == m[Prefix + key := Encode(data[key])];
      LoadAfterSave(m, key, data[key], Null);
    }
  }

  // ---------------------------------------------------------------- usage

  /** `.length` of a JavaScript string: UTF-16 code units, two for a character beyond
      the Basic Multilingual Plane. */
  function Utf16Length(s: string): (n: nat)
    ensures |s| <= n <= 2 * |s|
  {
    if s == [] then 0
    else (if s[0] as int > 0xFFFF then 2 else 1) + Utf16Length(s[1..])
  }

  /** What one key adds to the usage count: its value's length plus its own, when it is
      an application key. */
  function EntrySize(m: map<string, string>, k: string): nat
    requires k in m
  {
    if Prefixed(k) then Utf16Length(m[k]) + Utf16Length(k) else 0
  }

  /** The usage count of the keys ks of m, in no particular order. */
  ghost function SizeOf(m: map<string, string>, ks: set<string>): nat
    requires ks <= m.Keys
    decreases ks
  {
    if ks == {} then 0
    else
      var k :| k in ks;
      EntrySize(m, k) + SizeOf(m, ks - {k})
  }

  /** The count does not depend on which key is taken first. */
  lemma {:induction false} SizeOfRemove(m: map<string, string>, ks: set<string>, k: string)
    requires ks <= m.Keys && k in ks
    ensures SizeOf(m, ks) == EntrySize(m, k) + SizeOf(m, ks - {k})
    decreases ks
  {
    var j :| j in ks && SizeOf(m, ks) == EntrySize(m, j) + SizeOf(m, ks - {j});
    if j != k {
      SizeOfRemove(m, ks - {j}, k);
      SizeOfRemove(m, ks - {k}, j);
      assert ks - {j} - {k} == ks - {k} - {j};
    }
  }

  /** The byte count `getStorageUsage` reports for a store. */
  ghost function Usage(m: map<string, string>): nat {
    SizeOf(m, m.Keys)
  }

  /** The usage of a set of keys is zero exactly when none of them is an application key. */
  lemma {:induction false} SizeOfZero(m: map<string, string>, ks: set<string>)
    requires ks <= m.Keys
    ensures SizeOf(m, ks) == 0 <==> forall k :: k in ks ==> !Prefixed(k)
    decreases ks
  {
    if ks != {} {
      var k :| k in ks;
      SizeOfRemove(m, ks, k);
      SizeOfZero(m, ks - {k});
    }
  }

  /** The sum over keys only sees the entries of those keys. */
  lemma {:induction false} SizeOfFrame(m1: map<string, string>, m2: map<string, string>, ks: set<string>)
    requires ks <= m1.Keys && ks <= m2.Keys
    requires forall k :: k in ks ==> m1[k] == m2[k]
    ensures SizeOf(m1, ks) == SizeOf(m2, ks)
    decreases ks
  {
    if ks != {} {
      var k :| k in ks;
      SizeOfRemove(m1, ks, k);
      SizeOfRemove(m2, ks, k);
      SizeOfFrame(m1, m2, ks - {k});
    }
  }

  /** A store reports zero usage exactly when it holds no application key. */
  lemma {:induction false} UsageZeroIff(m: map<string, string>)
    ensures Usage(m) == 0 <==> forall k :: k in m ==> !Prefixed(k)
  {
    SizeOfZero(m, m.Keys);
  }

  /** Saving adds the new entry's size and drops the size of what it replaced. */
  lemma {:induction false} UsageAfterSave(m: map<string, string>, key: string, text: string)
    ensures Usage(m[Prefix + key := text]) == Usage(m - {Prefix + key}) + Utf16Length(text) + Utf16Length(Prefix + key)
  {
    var k := Prefix + key;
    var m' := m[k := text];
    SizeOfRemove(m', m'.Keys, k);
    assert m'.Keys - {k} == (m - {k}).Keys;
    SizeOfFrame(m', m - {k}, (m - {k}).Keys);
  }

  /** Keys outside the namespace, such as the availability probe, do not count. */
  lemma {:induction false} UsageIgnoresForeignKey(m: map<string, string>, k: string)
    requires k in m && !Prefixed(k)
    ensures Usage(m - {k}) == Usage(m)
  {
    SizeOfRemove(m, m.Keys, k);
    assert m.Keys - {k} == (m - {k}).Keys;
    SizeOfFrame(m, m - {k}, (m - {k}).Keys);
  }

  /** The byte count of one store, walking its keys in whatever order they come. */
  method StoreUsage(m: map<string, string>) returns (size: nat)
    ensures size == Usage(m)
  {
    size := 0;
    var keys := m.Keys;
    while keys != {}
      invariant keys <= m.Keys
      invariant size + SizeOf(m, keys) == Usage(m)
      decreases keys
    {
      var k :| k in keys;
      SizeOfRemove(m, keys, k);
      if Prefixed(k) {
        size := size + Utf16Length(m[k]) + Utf16Length(k);
      }
      keys := keys - {k};
    }
  }

  /**
   * `getStorageUsage()` (the byte counts): both counts sit in one try block, so an
   * unreachable local store leaves both at zero and an unreachable session store
   * leaves the session count at zero.
   */
  method GetStorageUsage(local: Store, session: Store) returns (localBytes: nat, sessionBytes: nat)
    ensures localBytes == (if local.accessible then Usage(local.entries) else 0)
    ensures sessionBytes == (if local.accessible && session.accessible then Usage(session.entries) else 0)
  {
    localBytes, sessionBytes := 0, 0;
    if !local.accessible {
      return;
    }
    localBytes := StoreUsage(local.entries);
    if !session.accessible {
      return;
    }
    sessionBytes := StoreUsage(session.entries);
  }
}
