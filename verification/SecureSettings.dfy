/**
 * The encrypted settings with their cache (client/secure_qsettings.cpp), proved to behave like
 * the store without a cache.
 */
module SecureSettings {

  type Bytes = string

  /** A stored value: nothing, a byte array, or anything else. */
  datatype Variant = Invalid | ByteArray(bytes: Bytes) | Other(content: string)

  const MAGIC: Bytes := "EncData"
  const SERVERS_LIST := "Servers/serversList"
  const INSTALLATION_UUID := "Conf/installationUuid"
  const ENCRYPTED_FLAG := "Conf/encrypted"

  type Store = map<string, Variant>

  /**
   * What does not change while the program runs: whether the platform encrypts, whether the
   * keychain has a key, and the serializer and cipher, `seal` and `unseal`, taken together.
   */
  datatype Platform = Platform(encryptionRequired: bool, keyAvailable: bool,
                               seal: Variant -> Bytes, unseal: Bytes -> Variant)

  ghost predicate Lossless(p: Platform) {
    forall v :: p.unseal(p.seal(v)) == v
  }

  predicate LooksEncrypted(v: Variant) { v.ByteArray? && MAGIC <= v.bytes }

  /** A stored value as read without a cache. */
  function Decoded(p: Platform, v: Variant): Variant {
    if !LooksEncrypted(v) then v
    else if !p.keyAvailable then Invalid
    else p.unseal(v.bytes[|MAGIC|..])
  }

  function Read(p: Platform, store: Store, key: string, default: Variant): Variant {
    if key in store then Decoded(p, store[key]) else default
  }

  predicate Encrypts(p: Platform, key: string) { p.encryptionRequired && key == SERVERS_LIST }

  /** A write that needs a key and has none is dropped. */
  predicate Accepts(p: Platform, key: string) { Encrypts(p, key) ==> p.keyAvailable }

  function Encoded(p: Platform, key: string, v: Variant): Variant {
    if Encrypts(p, key) then ByteArray(MAGIC + p.seal(v)) else v
  }

  function Written(p: Platform, store: Store, key: string, v: Variant): Store {
    if Accepts(p, key) then store[key := Encoded(p, key, v)] else store
  }

  /** What is written is what is read back, unless plain bytes pretend to be encrypted. */
  lemma ReadBackIff(p: Platform, store: Store, key: string, v: Variant, default: Variant)
    requires Lossless(p) && Accepts(p, key)
    ensures Read(p, Written(p, store, key, v), key, default) == v <==> Encrypts(p, key) || Decoded(p, v) == v
    ensures !LooksEncrypted(v) ==> Read(p, Written(p, store, key, v), key, default) == v
  {
    if Encrypts(p, key) {
      assert (MAGIC + p.seal(v))[|MAGIC|..] == p.seal(v);
    }
  }

  /** For instance, the seven bytes of the magic word without a key: nothing is read. */
  lemma MagicWordIsLost(p: Platform, store: Store, key: string, default: Variant)
    requires !p.encryptionRequired && !p.keyAvailable
    ensures Read(p, Written(p, store, key, ByteArray(MAGIC)), key, default) == Invalid
  {
  }

  /** QSettings::remove takes the group below the key with it; the empty key takes everything. */
  predicate Below(key: string, k: string) { key == "" || key + "/" <= k }

  function Removed(store: Store, key: string): Store {
    map k | k in store && k != key && !Below(key, k) :: store[k]
  }

  /** Every cached value is what reading the store would give. */
  ghost predicate Transparent(p: Platform, store: Store, cache: Store) {
    forall k :: k in cache ==> k in store && cache[k] == Decoded(p, store[k])
  }

  /** Through JSON and back: byte arrays come back as text. */
  function Json(v: Variant): (j: Variant)
    ensures !j.ByteArray?
  {
    if v.ByteArray? then Other(v.bytes) else v
  }

  predicate NeedsBackup(key: string) { key != INSTALLATION_UUID && ("Conf/" <= key || "Servers/" <= key) }

  /** What a backup of a store holds. */
  function BackedUp(p: Platform, store: Store): Store {
    map k | k in store && NeedsBackup(k) :: Json(Decoded(p, store[k]))
  }

  /** The keys of a backup that a restore writes. */
  predicate Restorable(p: Platform, cfg: Store, k: string) { k in cfg && k != INSTALLATION_UUID && Accepts(p, k) }

  /** The store after a restore; the keys may be written in any order. */
  function Restored(p: Platform, store: Store, cfg: Store): Store {
    map k | k in store.Keys + cfg.Keys && (k in store || Restorable(p, cfg, k)) ::
      if Restorable(p, cfg, k) then Encoded(p, k, cfg[k]) else store[k]
  }

  predicate JsonValues(cfg: Store) { forall k :: k in cfg ==> !cfg[k].ByteArray? }

  /**
   * A backup restored into any later store: a key that was backed up reads as it did then
   * exactly if its value was not a byte array; all other keys read as before the restore.
   */
  lemma RestoredReads(p: Platform, store: Store, later: Store, k: string, default: Variant)
    requires Lossless(p)
    ensures var after := Restored(p, later, BackedUp(p, store));
            if k in store && NeedsBackup(k) && Accepts(p, k) then
              && Read(p, after, k, default) == Json(Read(p, store, k, default))
              && (Read(p, after, k, default) == Read(p, store, k, default) <==> !Read(p, store, k, default).ByteArray?)
            else Read(p, after, k, default) == Read(p, later, k, default)
  {
    var cfg := BackedUp(p, store);
    if Restorable(p, cfg, k) {
      ReadBackIff(p, later, k, cfg[k], default);
      assert Restored(p, later, cfg)[k] == Written(p, later, k, cfg[k])[k];
    }
  }

  /** A byte array that is backed up comes back as text. */
  lemma BytesComeBackAsText(p: Platform, bytes: Bytes, default: Variant)
    requires Lossless(p) && !(MAGIC <= bytes)
    ensures var store: Store := map["Conf/x" := ByteArray(bytes)];
            Read(p, Restored(p, store, BackedUp(p, store)), "Conf/x", default) == Other(bytes)
  {
    var store: Store := map["Conf/x" := ByteArray(bytes)];
    assert "Conf/" <= "Conf/x";
    RestoredReads(p, store, store, "Conf/x", default);
  }

  class SecureQSettings {
    const p: Platform
    var store: Store
    var cache: Store

    /** The constructor migrates a store written before encryption was introduced. */
    constructor (p: Platform, store: Store)
      requires Lossless(p)
      ensures this.p == p && Transparent(p, this.store, cache)
      ensures this.store.Keys - {ENCRYPTED_FLAG} == store.Keys - {ENCRYPTED_FLAG}
      ensures forall k, d :: k != ENCRYPTED_FLAG ==> Read(p, this.store, k, d) == Read(p, store, k, d)
      ensures p.encryptionRequired && p.keyAvailable && SERVERS_LIST in store && !IsTrue(store) ==>
                SERVERS_LIST in this.store
                && this.store[SERVERS_LIST] == ByteArray(MAGIC + p.seal(Decoded(p, store[SERVERS_LIST])))
    {
      this.p, this.store, this.cache := p, store, map[];
      new;
      if p.encryptionRequired && !IsTrue(store) {
        var keys := store.Keys;
        while keys != {}
          invariant keys <= store.Keys && Transparent(p, this.store, cache) && this.store.Keys == store.Keys
          invariant forall k :: k in store ==> Decoded(p, this.store[k]) == Decoded(p, store[k])
          invariant SERVERS_LIST in keys ==> SERVERS_LIST in store && this.store[SERVERS_LIST] == store[SERVERS_LIST]
          invariant p.keyAvailable && SERVERS_LIST in store && SERVERS_LIST !in keys ==>
                      this.store[SERVERS_LIST] == ByteArray(MAGIC + p.seal(Decoded(p, store[SERVERS_LIST])))
          invariant ENCRYPTED_FLAG !in cache
          decreases keys
        {
          var key :| key in keys;
          if key == SERVERS_LIST {
            var val := Value(key, Invalid);
            if p.keyAvailable { ReadBackIff(p, this.store, key, val, Invalid); }
            SetValue(key, val);
          }
          keys := keys - {key};
        }
        this.store := this.store[ENCRYPTED_FLAG := Other("true")];
      }
    }

    static predicate IsTrue(store: Store) { ENCRYPTED_FLAG in store && store[ENCRYPTED_FLAG] == Other("true") }

    /** SecureQSettings::value: through a transparent cache, exactly what the store holds. */
    method Value(key: string, default: Variant) returns (r: Variant)
      modifies this`cache
      ensures old(Transparent(p, store, cache)) ==> r == Read(p, store, key, default) && Transparent(p, store, cache)
      ensures cache.Keys <= old(cache.Keys) + {key}
    {
      if key in cache { return cache[key]; }
      if key !in store { return default; }
      r := store[key];
      if r.Invalid? {
      } else if r.ByteArray? && MAGIC <= r.bytes {
        if !p.keyAvailable { return Invalid; }
        r := p.unseal(r.bytes[|MAGIC|..]);
      }
      cache := cache[key := r];
    }

    /** SecureQSettings::setValue; a write that cannot be encrypted changes nothing. */
    method SetValue(key: string, v: Variant)
      requires Lossless(p)
      modifies this`store, this`cache
      ensures store == Written(p, old(store), key, v)
      ensures cache == if Accepts(p, key) then old(cache)[key := v] else old(cache)
      ensures old(Transparent(p, store, cache)) ==>
                (Transparent(p, store, cache) <==> !Accepts(p, key) || Encrypts(p, key) || Decoded(p, v) == v)
    {
      if Accepts(p, key) { ReadBackIff(p, store, key, v, Invalid); }
      if p.encryptionRequired && key == SERVERS_LIST {
        if !p.keyAvailable { return; }
        store := store[key := ByteArray(MAGIC + p.seal(v))];
      } else {
        store := store[key := v];
      }
      cache := cache[key := v];
    }

    /** SecureQSettings::remove: the cache forgets one key, the store the whole group. */
    method Remove(key: string)
      modifies this`store, this`cache
      ensures store == Removed(old(store), key) && cache == old(cache) - {key}
      ensures old(Transparent(p, store, cache)) ==>
                (Transparent(p, store, cache) <==> forall k :: k in old(cache) && k != key ==> !Below(key, k))
    {
      if Transparent(p, store, cache) { RemovalTransparentIff(p, store, cache, key); }
      store := Removed(store, key);
      cache := cache - {key};
    }

    method Clear()
      modifies this`store, this`cache
      ensures store == map[] && cache == map[]
    {
      store, cache := map[], map[];
    }

    /** SecureQSettings::backupAppConfig: every configuration key but the installation's identity. */
    method Backup() returns (cfg: Store)
      requires Transparent(p, store, cache)
      modifies this`cache
      ensures Transparent(p, store, cache)
      ensures cfg == BackedUp(p, store)
    {
      cfg := map[];
      var keys := store.Keys;
      while keys != {}
        invariant keys <= store.Keys && Transparent(p, store, cache)
        invariant forall k :: k in cfg <==> k in store && k !in keys && NeedsBackup(k)
        invariant forall k :: k in cfg ==> cfg[k] == Json(Decoded(p, store[k]))
        decreases keys
      {
        var key :| key in keys;
        if NeedsBackup(key) {
          var v := Value(key, Invalid);
          cfg := cfg[key := Json(v)];
        }
        keys := keys - {key};
      }
    }

    /**
     * SecureQSettings::restoreAppConfig: every key of the backup that can be written is, and no
     * other key has changed, the identity least of all.
     */
    method Restore(cfg: Store) returns (ok: bool)
      requires Lossless(p) && Transparent(p, store, cache) && JsonValues(cfg)
      modifies this`store, this`cache
      ensures ok <==> cfg != map[]
      ensures Transparent(p, store, cache)
      ensures store == Restored(p, old(store), cfg)
    {
      if cfg == map[] {
        assert Restored(p, store, cfg) == store;
        return false;
      }
      var keys := cfg.Keys;
      ghost var done: set<string> := {};
      while keys != {}
        invariant keys + done == cfg.Keys && keys !! done && Transparent(p, store, cache)
        invariant forall k :: k in store <==> k in old(store) || (k in done && Restorable(p, cfg, k))
        invariant forall k :: k in store ==>
                    store[k] == if k in done && Restorable(p, cfg, k) then Encoded(p, k, cfg[k]) else old(store)[k]
        decreases keys
      {
        var key :| key in keys;
        if key != INSTALLATION_UUID {
          SetValue(key, cfg[key]);
        }
        keys, done := keys - {key}, done + {key};
      }
      assert store == Restored(p, old(store), cfg);
      return true;
    }
  }

  /** A backup, any other operations, and a restore: RestoredReads says what can be read then. */
  method BackupAndRestore(s: SecureQSettings, ops: seq<Op>, ghost keys: set<string>)
    returns (answers: seq<Answer>, ok: bool, ghost later: Store)
    requires Lossless(s.p) && Transparent(s.p, s.store, s.cache) && s.store.Keys <= keys && Leaves(keys)
    requires forall i :: 0 <= i < |ops| ==> Ordinary(ops[i], keys)
    modifies s
    ensures Transparent(s.p, s.store, s.cache)
    ensures (later, answers) == Uncached(s.p, old(s.store), ops)
    ensures forall k, d :: k in old(s.store) && NeedsBackup(k) && Accepts(s.p, k) ==>
              (Read(s.p, s.store, k, d) == old(Read(s.p, s.store, k, d)) <==> !old(Read(s.p, s.store, k, d)).ByteArray?)
    ensures forall k, d :: !(k in old(s.store) && NeedsBackup(k) && Accepts(s.p, k)) ==>
              Read(s.p, s.store, k, d) == Read(s.p, later, k, d)
  {
    var cfg := s.Backup();
    answers := Run(s, ops, keys);
    later := s.store;
    ok := s.Restore(cfg);
    forall k, d { RestoredReads(s.p, old(s.store), later, k, d); }
  }

  // ------------------------------------------------------------ whole runs

  datatype Op =
    | Get(key: string, default: Variant)
    | Set(key: string, v: Variant)
    | Delete(key: string)
    | ClearAll
    | BackUp
    | RestoreFrom(cfg: Store)

  datatype Answer = Got(v: Variant) | Saved(cfg: Store) | Done(ok: bool)

  /** The same operations on the store alone: the new store and the answers. */
  function Uncached(p: Platform, store: Store, ops: seq<Op>): (Store, seq<Answer>) {
    if ops == [] then (store, []) else
      var (s, answers) := Uncached(p, store, ops[..|ops| - 1]);
      match ops[|ops| - 1]
      case Get(key, default) => (s, answers + [Got(Read(p, s, key, default))])
      case Set(key, v) => (Written(p, s, key, v), answers)
      case Delete(key) => (Removed(s, key), answers)
      case ClearAll => (map[], answers)
      case BackUp => (s, answers + [Saved(BackedUp(p, s))])
      case RestoreFrom(cfg) => (Restored(p, s, cfg), answers + [Done(cfg != map[])])
  }

  /** Keys none of which is a group above another. */
  predicate Leaves(keys: set<string>) {
    forall a, b :: a in keys && b in keys && a != b ==> !Below(a, b)
  }

  predicate Ordinary(op: Op, keys: set<string>) {
    match op
    case Get(key, _) => key in keys
    case Set(key, v) => key in keys && !LooksEncrypted(v)
    case Delete(key) => key in keys
    case ClearAll => true
    case BackUp => true
    case RestoreFrom(cfg) => cfg.Keys <= keys && JsonValues(cfg)
  }

  /** Over any run on leaf keys, the cached settings answer exactly like the bare store. */
  method Run(s: SecureQSettings, ops: seq<Op>, ghost keys: set<string>) returns (answers: seq<Answer>)
    requires Lossless(s.p) && Transparent(s.p, s.store, s.cache) && s.store.Keys <= keys && Leaves(keys)
    requires forall i :: 0 <= i < |ops| ==> Ordinary(ops[i], keys)
    modifies s
    ensures (s.store, answers) == Uncached(s.p, old(s.store), ops)
    ensures Transparent(s.p, s.store, s.cache)
  {
    answers := [];
    for i := 0 to |ops|
      invariant Transparent(s.p, s.store, s.cache) && s.store.Keys <= keys
      invariant (s.store, answers) == Uncached(s.p, old(s.store), ops[..i])
    {
      assert ops[..i + 1][..i] == ops[..i] && Ordinary(ops[i], keys);
      match ops[i] {
        case Get(key, default) =>
          var v := s.Value(key, default);
          answers := answers + [Got(v)];
        case Set(key, v) => s.SetValue(key, v);
        case Delete(key) => s.Remove(key);
        case ClearAll => s.Clear();
        case BackUp =>
          var cfg := s.Backup();
          answers := answers + [Saved(cfg)];
        case RestoreFrom(cfg) =>
          var ok := s.Restore(cfg);
          answers := answers + [Done(ok)];
      }
    }
    assert ops[..|ops|] == ops;
  }

  /** Removing a group shows through exactly if one of its members is cached. */
  lemma RemovalTransparentIff(p: Platform, store: Store, cache: Store, key: string)
    requires Transparent(p, store, cache)
    ensures Transparent(p, Removed(store, key), cache - {key})
            <==> forall k :: k in cache && k != key ==> !Below(key, k)
  {
    var kept, left := Removed(store, key), cache - {key};
    forall k | k in left ensures k in kept <==> !Below(key, k) {
    }
    if Transparent(p, kept, left) {
      forall k | k in cache && k != key ensures !Below(key, k) { assert k in left; }
    }
  }

  /** Removing "a" after "a/b" has been read: the cache still has "a/b", the store no longer. */
  lemma RemovedGroupStaysCached(p: Platform, v: Variant)
    requires Decoded(p, v) == v
    ensures var store: Store := map["a/b" := v];
            Transparent(p, store, store) && !Transparent(p, Removed(store, "a"), store - {"a"})
  {
    var store: Store := map["a/b" := v];
    assert Below("a", "a/b") by { assert "a" + "/" == "a/" <= "a/b"; }
    assert "a/b" in store;
    RemovalTransparentIff(p, store, store, "a");
  }
}
