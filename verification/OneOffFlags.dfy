/**
 One-off flags across restarts (pipeline/RedisPipelineBootstrap): a startup with a version timestamp
 may override committed Kafka offsets; the version is stored once the startup has completed, so that
 the override is not repeated.
 */
module OneOffFlags {
  import opened Bytes
  import opened Decimal
  import opened Databases
  import opened ConsumerHelpers

  const OFFSET_BEGINNING: int := -2

  function VersionKey(): DbKey {
    DbKey(METADATA_CF, Ascii("VersionTimestamp"))
  }

  /** The stored version, if there is one. */
  function StoredVersion(db: Db): Option<int> {
    if VersionKey() in db then ParseInt64(db[VersionKey()]) else None
  }

  predicate CanApply(db: Db, now: int, version: int) {
    version >= 0 && now <= version && (StoredVersion(db).None? || StoredVersion(db).value < version)
  }

  /** A consumer configuration, with the time its one-off flags are looked at. */
  datatype Config = Config(topic: bytes, partition: int, suffix: bytes,
                           fromBeginning: bool, initialOffset: int, objectStore: bool, now: int)

  function LinkKey(c: Config): bytes {
    OffsetKey(c.topic, c.partition, c.suffix)
  }

  function LinkKeys(configs: seq<Config>): set<bytes> {
    set i | 0 <= i < |configs| :: LinkKey(configs[i])
  }

  datatype Applied = Applied(db: Db, count: nat, alive: bool)

  predicate Wants(c: Config) {
    c.fromBeginning || c.initialOffset >= 0
  }

  function OverrideValue(c: Config): bytes {
    if c.fromBeginning then Print(OFFSET_BEGINNING)
    else if c.initialOffset >= 0 && c.objectStore then EncodeOffsets(c.initialOffset, 0)
    else Print(c.initialOffset)
  }

  /** One turn of the loop over configurations. It ends the startup on a CHECK: when the key is linked
      already, or when an object store is to be consumed from the beginning. */
  function ApplyConfig(a: Applied, linked: set<bytes>, version: int, c: Config): Applied {
    if !a.alive then a
    else if LinkKey(c) in linked then a.(alive := false)
    else if !Wants(c) || !CanApply(a.db, c.now, version) then a
    else if c.fromBeginning && c.objectStore then a.(alive := false)
    else Applied(a.db[OffsetDbKey(LinkKey(c)) := OverrideValue(c)], a.count + 1, true)
  }

  function ApplyConfigs(db: Db, version: int, configs: seq<Config>): Applied {
    if configs == [] then Applied(db, 0, true)
    else
      var init := configs[..|configs| - 1];
      ApplyConfig(ApplyConfigs(db, version, init), LinkKeys(init), version, configs[|configs| - 1])
  }

  function Persist(db: Db, now: int, version: int): Db {
    if CanApply(db, now, version) then db[VersionKey() := Print(version)] else db
  }

  /** No consumer keeps its offset under the version's key. */
  lemma LinkedKeysSpareVersion(topic: bytes, partition: int, suffix: bytes)
    ensures OffsetDbKey(OffsetKey(topic, partition, suffix)) != VersionKey()
  {
    assert OffsetKey(topic, partition, suffix)[0] == Ascii("~kafka-offset~")[0] == 126;
    assert VersionKey().key[0] == 86;
  }

  class RedisPipelineBootstrap {
    const db: Database<DbKey>

    constructor (db: Database<DbKey>)
      ensures this.db == db
    {
      this.db := db;
    }

    method CanApplyOneOffFlags(now: int, version: int) returns (can: bool)
      requires VersionKey() in db.contents ==> StoredVersion(db.contents).Some?
      ensures can == CanApply(db.contents, now, version)
      ensures var key := DbKey("smyte-metadata", Ascii("VersionTimestamp"));
              can <==> && 0 <= version && now <= version
                       && (key in db.contents ==> ParseInt64(db.contents[key]).value < version)
    {
      if version < 0 {
        return false;
      }
      if now > version {
        return false;
      }
      if VersionKey() in db.contents {
        var stored := ParseInt64(db.contents[VersionKey()]);
        if stored.value >= version {
          return false;
        }
      }
      return true;
    }

    method PersistVersionTimestamp(now: int, version: int)
      requires VersionKey() in db.contents ==> StoredVersion(db.contents).Some?
      modifies db
      ensures db.contents == Persist(old(db.contents), now, version)
    {
      var can := CanApplyOneOffFlags(now, version);
      if can {
        var batch := [Put(VersionKey(), Print(version))];
        assert batch[..0] == [];
        db.Write(batch, true);
      }
    }

    /** The part of initializeKafkaConsumer that links consumers and overrides their offsets. */
    method InitializeKafkaConsumer(version: int, configs: seq<Config>) returns (count: nat, alive: bool)
      requires VersionKey() in db.contents ==> StoredVersion(db.contents).Some?
      modifies db
      ensures Applied(db.contents, count, alive) == ApplyConfigs(old(db.contents), version, configs)
    {
      hide StoredVersion, VersionKey, OverrideValue, OffsetKey, LinkKeys, CanApply;
      count, alive := 0, true;
      var helper := new ConsumerHelper(db);
      assert configs[..0] == [] && LinkKeys([]) == {} by { NoneLinked(); }
      for i := 0 to |configs|
        invariant alive && Applied(db.contents, count, alive) == ApplyConfigs(old(db.contents), version, configs[..i])
        invariant VersionKey() in db.contents ==> StoredVersion(db.contents).Some?
        invariant helper.topicPartitions.Keys == LinkKeys(configs[..i])
      {
        var c := configs[i];
        assert configs[..i + 1][..i] == configs[..i];
        LinkedSnoc(configs, i);
        var offsetKey := helper.LinkTopicPartition(c.topic, c.partition, c.suffix);
        if offsetKey.None? {
          DeadStays(old(db.contents), version, configs, i + 1);
          return count, false;
        }
        var applied;
        applied, alive := ApplyOneOffFlags(version, c, offsetKey.value);
        if !alive {
          DeadStays(old(db.contents), version, configs, i + 1);
          return;
        }
        if applied {
          count := count + 1;
        }
      }
      assert configs[..|configs|] == configs;
    }

    /** The one-off flags of one configuration. */
    method ApplyOneOffFlags(version: int, c: Config, offsetKey: bytes) returns (applied: bool, alive: bool)
      requires VersionKey() in db.contents ==> StoredVersion(db.contents).Some?
      requires offsetKey == LinkKey(c)
      modifies db
      ensures var fires := Wants(c) && CanApply(old(db.contents), c.now, version);
              && alive == !(fires && c.fromBeginning && c.objectStore)
              && applied == (fires && alive)
      ensures db.contents == if applied then old(db.contents)[OffsetDbKey(offsetKey) := OverrideValue(c)]
                             else old(db.contents)
      ensures VersionKey() in db.contents ==> StoredVersion(db.contents).Some?
    {
      hide ParseInt64, VersionKey, EncodeOffsets, Print, OffsetKey;
      LinkedKeysSpareVersion(c.topic, c.partition, c.suffix);
      if c.fromBeginning {
        var can := CanApplyOneOffFlags(c.now, version);
        if can {
          if c.objectStore {
            return false, false;
          }
          CommitRawOffset(offsetKey, Print(OFFSET_BEGINNING));
          return true, true;
        }
      } else if c.initialOffset >= 0 {
        var can := CanApplyOneOffFlags(c.now, version);
        if can {
          if c.objectStore {
            CommitRawOffset(offsetKey, EncodeOffsets(c.initialOffset, 0));
          } else {
            CommitRawOffset(offsetKey, Print(c.initialOffset));
          }
          return true, true;
        }
      }
      return false, true;
    }

    method CommitRawOffset(offsetKey: bytes, value: bytes)
      modifies db
      ensures db.contents == old(db.contents)[OffsetDbKey(offsetKey) := value]
    {
      var batch := [Put(OffsetDbKey(offsetKey), value)];
      assert batch[..0] == [];
      db.Write(batch, true);
    }
  }

  lemma NoneLinked()
    ensures LinkKeys([]) == {}
  {
  }

  lemma LinkedSnoc(configs: seq<Config>, i: nat)
    requires i < |configs|
    ensures LinkKeys(configs[..i + 1]) == LinkKeys(configs[..i]) + {LinkKey(configs[i])}
  {
    hide OffsetKey;
    var more, before := configs[..i + 1], configs[..i];
    assert forall j :: 0 <= j < i ==> more[j] == before[j];
    assert more[i] == configs[i];
  }

  lemma {:induction false} DeadStays(db: Db, version: int, configs: seq<Config>, n: nat)
    requires n <= |configs| && !ApplyConfigs(db, version, configs[..n]).alive
    ensures ApplyConfigs(db, version, configs) == ApplyConfigs(db, version, configs[..n])
  {
    if n == |configs| {
      assert configs[..n] == configs;
    } else {
      assert configs[..|configs| - 1][..n] == configs[..n];
      DeadStays(db, version, configs[..|configs| - 1], n);
    }
  }

  // ----- startups

  /** `persistAt` is when the version is persisted; None when the process ended before that. */
  datatype Startup = Startup(version: int, configs: seq<Config>, persistAt: Option<int>)

  predicate ValidStartup(s: Startup) {
    IsInt64(s.version)
  }

  predicate Completed(db: Db, s: Startup) {
    s.persistAt.Some? && ApplyConfigs(db, s.version, s.configs).alive
  }

  predicate Overrides(db: Db, s: Startup) {
    ApplyConfigs(db, s.version, s.configs).count > 0
  }

  function AfterStartup(db: Db, s: Startup): Db {
    var a := ApplyConfigs(db, s.version, s.configs);
    if Completed(db, s) then Persist(a.db, s.persistAt.value, s.version) else a.db
  }

  /** The clock never goes back: from t on, through the configurations, to the persisting. */
  function ConfigsEnd(t: int, configs: seq<Config>): int {
    if configs == [] then t else configs[|configs| - 1].now
  }

  predicate ConfigsInOrder(t: int, configs: seq<Config>) {
    configs == [] ||
    (var init := configs[..|configs| - 1];
     ConfigsInOrder(t, init) && ConfigsEnd(t, init) <= configs[|configs| - 1].now)
  }

  function EndTime(t: int, s: Startup): int {
    if s.persistAt.Some? then s.persistAt.value else ConfigsEnd(t, s.configs)
  }

  predicate InOrder(t: int, s: Startup) {
    ConfigsInOrder(t, s.configs) && ConfigsEnd(t, s.configs) <= EndTime(t, s)
  }

  datatype World = World(db: Db, time: int)

  function Run(w: World, startups: seq<Startup>): World {
    if startups == [] then w
    else
      var before, s := Run(w, startups[..|startups| - 1]), startups[|startups| - 1];
      World(AfterStartup(before.db, s), EndTime(before.time, s))
  }

  predicate Possible(w: World, startups: seq<Startup>) {
    startups == [] ||
    (var init, s := startups[..|startups| - 1], startups[|startups| - 1];
     Possible(w, init) && ValidStartup(s) && InOrder(Run(w, init).time, s))
  }

  /** A version that can no longer be applied: it is stored or overtaken, or its time has passed. */
  predicate Spent(w: World, version: int) {
    w.time > version || (StoredVersion(w.db).Some? && StoredVersion(w.db).value >= version)
  }

  lemma {:induction false} ConfigsKeepVersion(db: Db, version: int, configs: seq<Config>)
    ensures StoredVersion(ApplyConfigs(db, version, configs).db) == StoredVersion(db)
  {
    hide ParseInt64, VersionKey, OverrideValue, OffsetKey, LinkKeys;
    if configs != [] {
      var c := configs[|configs| - 1];
      ConfigsKeepVersion(db, version, configs[..|configs| - 1]);
      LinkedKeysSpareVersion(c.topic, c.partition, c.suffix);
    }
  }

  lemma {:induction false} ConfigsInOrderEnd(t: int, configs: seq<Config>)
    requires ConfigsInOrder(t, configs)
    ensures t <= ConfigsEnd(t, configs)
  {
    if configs != [] {
      ConfigsInOrderEnd(t, configs[..|configs| - 1]);
    }
  }

  /** A spent version overrides nothing. */
  lemma {:induction false} SpentDoesNotOverride(w: World, version: int, configs: seq<Config>)
    requires Spent(w, version) && ConfigsInOrder(w.time, configs)
    ensures var a := ApplyConfigs(w.db, version, configs); a.db == w.db && a.count == 0
  {
    hide StoredVersion, VersionKey, OverrideValue, LinkKeys, OffsetKey;
    if configs != [] {
      var init := configs[..|configs| - 1];
      SpentDoesNotOverride(w, version, init);
      ConfigsInOrderEnd(w.time, init);
    }
  }

  /** A startup that overrides something was allowed to, on the version stored before it. */
  lemma {:induction false} OverrideNeedsOlderVersion(db: Db, version: int, configs: seq<Config>)
    requires ApplyConfigs(db, version, configs).count > 0
    ensures version >= 0 && (StoredVersion(db).None? || StoredVersion(db).value < version)
  {
    hide StoredVersion, VersionKey, OverrideValue;
    var init := configs[..|configs| - 1];
    if ApplyConfigs(db, version, init).count > 0 {
      OverrideNeedsOlderVersion(db, version, init);
    } else {
      ConfigsKeepVersion(db, version, init);
    }
  }

  lemma PersistStores(db: Db, now: int, version: int)
    requires IsInt64(version)
    ensures CanApply(db, now, version) ==> StoredVersion(Persist(db, now, version)) == Some(version)
    ensures !CanApply(db, now, version) ==> Persist(db, now, version) == db
  {
    hide ParseInt64, VersionKey, Print;
    ParsePrint(version);
  }

  /** The stored version only grows, and strictly when it is rewritten. */
  lemma StoredVersionGrows(db: Db, s: Startup)
    requires ValidStartup(s)
    ensures var before, after := StoredVersion(db), StoredVersion(AfterStartup(db, s));
            after == before || (after == Some(s.version) && (before.None? || before.value < s.version))
  {
    hide StoredVersion, VersionKey, Persist;
    ConfigsKeepVersion(db, s.version, s.configs);
    if Completed(db, s) {
      PersistStores(ApplyConfigs(db, s.version, s.configs).db, s.persistAt.value, s.version);
    }
  }

  /** A completed startup that overrides something spends its version. */
  lemma OverrideSpends(w: World, s: Startup)
    requires ValidStartup(s) && InOrder(w.time, s) && Completed(w.db, s) && Overrides(w.db, s)
    ensures Spent(World(AfterStartup(w.db, s), EndTime(w.time, s)), s.version)
  {
    hide StoredVersion, VersionKey, Persist;
    OverrideNeedsOlderVersion(w.db, s.version, s.configs);
    ConfigsKeepVersion(w.db, s.version, s.configs);
    PersistStores(ApplyConfigs(w.db, s.version, s.configs).db, s.persistAt.value, s.version);
  }

  lemma SpentStaysSpent(w: World, s: Startup, version: int)
    requires Spent(w, version) && ValidStartup(s) && InOrder(w.time, s)
    ensures Spent(World(AfterStartup(w.db, s), EndTime(w.time, s)), version)
  {
    hide StoredVersion, AfterStartup, ValidStartup;
    StoredVersionGrows(w.db, s);
    ConfigsInOrderEnd(w.time, s.configs);
  }

  lemma {:induction false} SpentFrom(w: World, startups: seq<Startup>, i: nat)
    requires Possible(w, startups) && i < |startups|
    requires var at := Run(w, startups[..i]);
             Completed(at.db, startups[i]) && Overrides(at.db, startups[i])
    ensures Spent(Run(w, startups), startups[i].version)
  {
    hide Spent, Completed, Overrides, AfterStartup, ValidStartup, InOrder;
    var init, s := startups[..|startups| - 1], startups[|startups| - 1];
    if i == |startups| - 1 {
      OverrideSpends(Run(w, init), s);
    } else {
      assert init[..i] == startups[..i] && init[i] == startups[i];
      SpentFrom(w, init, i);
      SpentStaysSpent(Run(w, init), s, startups[i].version);
    }
  }

  lemma {:induction false} PrefixPossible(w: World, startups: seq<Startup>, n: nat)
    requires Possible(w, startups) && n < |startups|
    ensures Possible(w, startups[..n])
    ensures ValidStartup(startups[n]) && InOrder(Run(w, startups[..n]).time, startups[n])
  {
    hide ValidStartup, InOrder;
    if n < |startups| - 1 {
      var init := startups[..|startups| - 1];
      PrefixPossible(w, init, n);
      assert init[..n] == startups[..n];
    }
  }

  /** Once a completed startup has overridden an offset, no later startup with the same version
      does, whether it completes or not. So of all completed startups at most one overrides. */
  lemma OverrideHappensOnce(w: World, startups: seq<Startup>, i: nat, j: nat)
    requires Possible(w, startups) && i < j < |startups|
    requires startups[i].version == startups[j].version
    requires var at := Run(w, startups[..i]);
             Completed(at.db, startups[i]) && Overrides(at.db, startups[i])
    ensures !Overrides(Run(w, startups[..j]).db, startups[j])
  {
    hide Completed, Possible, Run, Spent, VersionKey, ConfigsInOrder;
    PrefixPossible(w, startups, j);
    var before := startups[..j];
    assert before[..i] == startups[..i] && before[i] == startups[i];
    SpentFrom(w, before, i);
    SpentDoesNotOverride(Run(w, before), startups[j].version, startups[j].configs);
  }

  // ----- links that are refused

  predicate SameLink(a: Config, b: Config) {
    a.topic == b.topic && a.partition == b.partition && a.suffix == b.suffix
  }

  /** Different links, of which no topic extends another, are all accepted. */
  lemma DifferentLinksAreAccepted(configs: seq<Config>, i: nat)
    requires i < |configs| && forall j :: 0 <= j < |configs| ==> IsPartition(configs[j].partition)
    requires forall j :: 0 <= j < i ==> !SameLink(configs[j], configs[i])
    requires forall j :: 0 <= j < i ==>
               !ExtendsTopic(configs[j].topic, configs[i].topic) && !ExtendsTopic(configs[i].topic, configs[j].topic)
    ensures LinkKey(configs[i]) !in LinkKeys(configs[..i])
  {
    hide OffsetKey, ExtendsTopic;
    var c, before := configs[i], configs[..i];
    forall j | 0 <= j < |before| ensures LinkKey(before[j]) != LinkKey(c) {
      var b := configs[j];
      assert before[j] == b && !SameLink(b, c);
      OffsetKeysDiffer(b.topic, b.partition, b.suffix, c.topic, c.partition, c.suffix);
    }
  }

  // ----- when a startup overrides, and when it does so again

  /** The configuration asks for an override and the version allows it. */
  predicate Fires(db: Db, version: int, c: Config) {
    (c.fromBeginning || 0 <= c.initialOffset) && CanApply(db, c.now, version)
  }

  /** Configuration i runs into a CHECK: its key is linked already, or it asks for an object store from
      the beginning. */
  predicate Fatal(db: Db, version: int, configs: seq<Config>, i: nat)
    requires i < |configs|
  {
    var c := configs[i];
    LinkKey(c) in LinkKeys(configs[..i]) || (Fires(db, version, c) && c.fromBeginning && c.objectStore)
  }

  predicate NoneFatal(db: Db, version: int, configs: seq<Config>) {
    forall i :: 0 <= i < |configs| ==> !Fatal(db, version, configs, i)
  }

  /** Some configuration fires, and none up to it is fatal. */
  predicate MayOverride(db: Db, version: int, configs: seq<Config>) {
    exists i :: 0 <= i < |configs| && Fires(db, version, configs[i]) && NoneFatal(db, version, configs[..i + 1])
  }

  lemma MayOverrideSnoc(db: Db, version: int, configs: seq<Config>)
    requires configs != []
    ensures var init, c := configs[..|configs| - 1], configs[|configs| - 1];
            MayOverride(db, version, configs) <==>
            MayOverride(db, version, init) || (Fires(db, version, c) && NoneFatal(db, version, configs))
  {
    hide Fires, NoneFatal;
    var init, c := configs[..|configs| - 1], configs[|configs| - 1];
    assert configs[..|configs|] == configs;
    assert forall i :: 0 <= i < |init| ==> init[i] == configs[i] && init[..i + 1] == configs[..i + 1];
  }

  lemma FatalInPrefix(db: Db, version: int, configs: seq<Config>, n: nat, i: nat)
    requires i < n <= |configs|
    ensures Fatal(db, version, configs[..n], i) <==> Fatal(db, version, configs, i)
  {
    hide Fires, LinkKeys, OffsetKey;
    assert configs[..n][..i] == configs[..i];
  }

  lemma NoneFatalSnoc(db: Db, version: int, configs: seq<Config>)
    requires configs != []
    ensures var n := |configs| - 1;
            NoneFatal(db, version, configs) <==> NoneFatal(db, version, configs[..n]) && !Fatal(db, version, configs, n)
  {
    hide Fatal;
    var n, init := |configs| - 1, configs[..|configs| - 1];
    if NoneFatal(db, version, init) && !Fatal(db, version, configs, n) {
      forall i | 0 <= i < |configs| ensures !Fatal(db, version, configs, i) {
        if i < n {
          FatalInPrefix(db, version, configs, n, i);
          assert !Fatal(db, version, init, i);
        }
      }
    }
    if NoneFatal(db, version, configs) {
      forall i | 0 <= i < |init| ensures !Fatal(db, version, init, i) {
        FatalInPrefix(db, version, configs, n, i);
      }
    }
  }

  lemma {:induction false} OverridesByConfigs(db: Db, version: int, configs: seq<Config>)
    ensures ApplyConfigs(db, version, configs).alive <==> NoneFatal(db, version, configs)
    ensures ApplyConfigs(db, version, configs).count > 0 <==> MayOverride(db, version, configs)
  {
    hide StoredVersion, VersionKey, OverrideValue, MayOverride, NoneFatal, OffsetKey, LinkKeys;
    if configs == [] {
      NothingToOverride(db, version);
    } else {
      var init, c := configs[..|configs| - 1], configs[|configs| - 1];
      OverridesByConfigs(db, version, init);
      ConfigsKeepVersion(db, version, init);
      MayOverrideSnoc(db, version, configs);
      NoneFatalSnoc(db, version, configs);
    }
  }

  lemma NothingToOverride(db: Db, version: int)
    ensures !MayOverride(db, version, []) && NoneFatal(db, version, [])
  {
  }

  /** A startup overrides some offset exactly when one of its configurations asks for it while the
      version allows it, and none up to that one meets a CHECK. It completes exactly when it reaches the
      persisting and no configuration meets a CHECK. */
  lemma OverridesExactly(db: Db, s: Startup)
    requires ValidStartup(s)
    ensures Overrides(db, s) <==> MayOverride(db, s.version, s.configs)
    ensures Completed(db, s) <==> s.persistAt.Some? && NoneFatal(db, s.version, s.configs)
  {
    hide ApplyConfigs, MayOverride, NoneFatal;
    OverridesByConfigs(db, s.version, s.configs);
  }

  // ----- what an override stores

  /** The override that a configuration asks for: the special offset -2 from the beginning, else the
      initial offset, for an object store together with file offset 0. */
  predicate HoldsOverride(c: Config, value: bytes) {
    if c.fromBeginning then ParseInt64(value) == Some(-2)
    else if c.objectStore then DecodeOffsets(value) == Some((c.initialOffset, 0))
    else ParseInt64(value) == Some(c.initialOffset)
  }

  lemma OverrideIsStored(c: Config)
    requires Wants(c) && c.initialOffset <= INT64_MAX
    ensures HoldsOverride(c, OverrideValue(c))
  {
    hide ParseInt64, Print, DecodeOffsets, EncodeOffsets;
    if c.fromBeginning {
      ParsePrint(-2);
    } else {
      OffsetsRoundTrip(c.initialOffset, 0);
      ParsePrint(c.initialOffset);
    }
  }

  /** Every configuration that is reached without a CHECK and fires has its override in the database at the
      end, and one that does not fire keeps the offset it had. */
  lemma {:induction false} ReachedConfigs(db: Db, version: int, configs: seq<Config>, i: nat)
    requires i < |configs| && NoneFatal(db, version, configs[..i + 1]) && configs[i].initialOffset <= INT64_MAX
    ensures var after, key := ApplyConfigs(db, version, configs).db, OffsetDbKey(LinkKey(configs[i]));
            if Fires(db, version, configs[i]) then key in after && HoldsOverride(configs[i], after[key])
            else (key in after <==> key in db) && (key in db ==> after[key] == db[key])
  {
    hide StoredVersion, VersionKey, OverrideValue, HoldsOverride, OffsetKey, LinkKeys, NoneFatal;
    var init, last := configs[..|configs| - 1], configs[|configs| - 1];
    if i < |init| {
      assert init[..i + 1] == configs[..i + 1];
      ReachedConfigs(db, version, init, i);
      LinkedInit(configs, i);
    } else {
      assert configs[..i + 1] == configs;
      NotLinkedBefore(db, version, configs);
      OtherKeysStay(db, version, init, LinkKey(last));
      ConfigsKeepVersion(db, version, init);
      OverridesByConfigs(db, version, init);
      NoneFatalSnoc(db, version, configs);
      if Fires(db, version, last) {
        OverrideIsStored(last);
      }
    }
  }

  lemma LinkedInit(configs: seq<Config>, i: nat)
    requires i < |configs| - 1
    ensures LinkKey(configs[i]) in LinkKeys(configs[..|configs| - 1])
  {
    hide OffsetKey;
    var init := configs[..|configs| - 1];
    assert init[i] == configs[i];
  }

  lemma NotLinkedBefore(db: Db, version: int, configs: seq<Config>)
    requires configs != [] && NoneFatal(db, version, configs)
    ensures LinkKey(configs[|configs| - 1]) !in LinkKeys(configs[..|configs| - 1])
    ensures !Fatal(db, version, configs, |configs| - 1)
  {
    hide OffsetKey, LinkKeys, Fires;
    assert !Fatal(db, version, configs, |configs| - 1);
  }

  /** No other offset is touched. */
  lemma {:induction false} OtherKeysStay(db: Db, version: int, configs: seq<Config>, offsetKey: bytes)
    requires offsetKey !in LinkKeys(configs)
    ensures var after, key := ApplyConfigs(db, version, configs).db, OffsetDbKey(offsetKey);
            (key in after <==> key in db) && (key in db ==> after[key] == db[key])
  {
    hide StoredVersion, VersionKey, OverrideValue, OffsetKey;
    if configs != [] {
      var init, last := configs[..|configs| - 1], |configs| - 1;
      assert forall j :: 0 <= j < |init| ==> init[j] == configs[j];
      assert LinkKey(configs[last]) in LinkKeys(configs);
      OtherKeysStay(db, version, init, offsetKey);
    }
  }

  function CountFiring(db: Db, version: int, configs: seq<Config>): nat {
    if configs == [] then 0
    else
      CountFiring(db, version, configs[..|configs| - 1]) +
      if Fires(db, version, configs[|configs| - 1]) then 1 else 0
  }

  /** A startup that meets no CHECK makes one override for each configuration that fires. */
  lemma {:induction false} OverrideCount(db: Db, version: int, configs: seq<Config>)
    requires NoneFatal(db, version, configs)
    ensures ApplyConfigs(db, version, configs).count == CountFiring(db, version, configs)
  {
    hide StoredVersion, VersionKey, OverrideValue, OffsetKey, LinkKeys, NoneFatal;
    if configs != [] {
      var init := configs[..|configs| - 1];
      NoneFatalSnoc(db, version, configs);
      OverrideCount(db, version, init);
      OverridesByConfigs(db, version, init);
      ConfigsKeepVersion(db, version, init);
    }
  }

  predicate NoneCompletes(w: World, startups: seq<Startup>) {
    startups == [] ||
    (var init, s := startups[..|startups| - 1], startups[|startups| - 1];
     NoneCompletes(w, init) && ValidStartup(s) && !Completed(Run(w, init).db, s))
  }

  lemma {:induction false} UncompletedKeepVersion(w: World, startups: seq<Startup>)
    requires NoneCompletes(w, startups)
    ensures StoredVersion(Run(w, startups).db) == StoredVersion(w.db)
  {
    hide StoredVersion, Completed;
    if startups != [] {
      var init, s := startups[..|startups| - 1], startups[|startups| - 1];
      UncompletedKeepVersion(w, init);
      ConfigsKeepVersion(Run(w, init).db, s.version, s.configs);
    }
  }

  lemma SameVersionSameFatal(db: Db, db': Db, version: int, configs: seq<Config>)
    requires StoredVersion(db) == StoredVersion(db') && NoneFatal(db, version, configs)
    ensures NoneFatal(db', version, configs)
  {
    hide StoredVersion, LinkKeys, OffsetKey;
    forall i | 0 <= i < |configs| ensures !Fatal(db', version, configs, i) {
      assert !Fatal(db, version, configs, i);
    }
  }

  lemma SameVersionSameOverride(db: Db, db': Db, version: int, configs: seq<Config>)
    requires StoredVersion(db) == StoredVersion(db') && MayOverride(db, version, configs)
    ensures MayOverride(db', version, configs)
  {
    hide StoredVersion, NoneFatal;
    var i :| 0 <= i < |configs| && Fires(db, version, configs[i]) && NoneFatal(db, version, configs[..i + 1]);
    SameVersionSameFatal(db, db', version, configs[..i + 1]);
  }

  /** However many startups end before they complete, and whatever they override, the next one
      overrides exactly when it would have done so in their place. */
  lemma UncompletedChangeNothing(w: World, startups: seq<Startup>, next: Startup)
    requires NoneCompletes(w, startups) && ValidStartup(next)
    ensures Overrides(Run(w, startups).db, next) <==> MayOverride(w.db, next.version, next.configs)
  {
    hide StoredVersion, MayOverride, Overrides, Run;
    UncompletedKeepVersion(w, startups);
    OverridesExactly(Run(w, startups).db, next);
    if MayOverride(w.db, next.version, next.configs) {
      SameVersionSameOverride(w.db, Run(w, startups).db, next.version, next.configs);
    }
    if MayOverride(Run(w, startups).db, next.version, next.configs) {
      SameVersionSameOverride(Run(w, startups).db, w.db, next.version, next.configs);
    }
  }

  /** The same configurations, looked at later but not past the version's time. */
  predicate RepeatedInTime(s: Startup, again: Startup) {
    && again.version == s.version && |again.configs| == |s.configs|
    && forall i :: 0 <= i < |s.configs| ==>
         again.configs[i] == s.configs[i].(now := again.configs[i].now) && again.configs[i].now <= s.version
  }

  lemma {:induction false} EarlierConfig(t: int, configs: seq<Config>, i: nat, j: nat)
    requires ConfigsInOrder(t, configs) && i <= j < |configs|
    ensures configs[i].now <= configs[j].now
  {
    var init := configs[..|configs| - 1];
    if j < |init| {
      EarlierConfig(t, init, i, j);
    } else if i < |init| {
      EarlierConfig(t, init, i, |init| - 1);
    }
  }

  lemma SameLinks(s: Startup, again: Startup, j: nat)
    requires RepeatedInTime(s, again) && j <= |s.configs|
    ensures LinkKeys(again.configs[..j]) == LinkKeys(s.configs[..j])
  {
    hide OffsetKey;
    var a, b := again.configs[..j], s.configs[..j];
    assert forall i :: 0 <= i < j ==> a[i] == b[i].(now := a[i].now);
    assert forall i :: 0 <= i < j ==> LinkKey(a[i]) == LinkKey(b[i]);
  }

  lemma FatalAgain(db: Db, s: Startup, again: Startup, j: nat)
    requires RepeatedInTime(s, again) && j < |s.configs| && s.configs[j].now <= s.version
    ensures Fatal(db, s.version, again.configs, j) <==> Fatal(db, s.version, s.configs, j)
  {
    hide StoredVersion, OffsetKey, LinkKeys;
    SameLinks(s, again, j);
    assert again.configs[j] == s.configs[j].(now := again.configs[j].now);
  }

  /** Completion is what ends an override: a startup that overrode some offset and did not complete,
      by a crash or on a CHECK, overrides again when it is repeated in time. */
  lemma UncompletedOverrideRepeats(w: World, s: Startup, again: Startup)
    requires ValidStartup(s) && InOrder(w.time, s) && !Completed(w.db, s) && Overrides(w.db, s)
    requires RepeatedInTime(s, again)
    ensures Overrides(Run(w, [s]).db, again)
  {
    hide ApplyConfigs, StoredVersion, VersionKey, Run, Overrides, AfterStartup, Fatal;
    assert ValidStartup(again);
    OverridesExactly(w.db, s);
    var i :| 0 <= i < |s.configs| && Fires(w.db, s.version, s.configs[i]) &&
             NoneFatal(w.db, s.version, s.configs[..i + 1]);
    var upTo := again.configs[..i + 1];
    forall j | 0 <= j < |upTo| ensures !Fatal(w.db, s.version, upTo, j) {
      assert !Fatal(w.db, s.version, s.configs[..i + 1], j);
      FatalInPrefix(w.db, s.version, s.configs, i + 1, j);
      FatalInPrefix(w.db, s.version, again.configs, i + 1, j);
      EarlierConfig(w.time, s.configs, j, i);
      FatalAgain(w.db, s, again, j);
    }
    assert Fires(w.db, s.version, again.configs[i]);
    assert NoneFatal(w.db, s.version, again.configs[..i + 1]);
    OneUncompleted(w, s);
    UncompletedChangeNothing(w, [s], again);
  }

  lemma OneUncompleted(w: World, s: Startup)
    requires ValidStartup(s) && !Completed(w.db, s)
    ensures NoneCompletes(w, [s])
  {
    hide Completed, ValidStartup, AfterStartup;
    assert [s][..0] == [] && Run(w, []) == w;
  }

  /** Such a startup: a first configuration overrides its offset, the second asks for an object store
      from the beginning and ends the process, and the restart does the same again. */
  lemma OverriddenTwice(w: World, topic: bytes)
    requires StoredVersion(w.db).None? && w.time <= 1000
    ensures var configs := [Config(topic, 0, [], false, 7, false, 1000), Config(topic, 1, [], true, 0, true, 1000)];
            var s := Startup(1000, configs, Some(1000));
            && InOrder(w.time, s) && !Completed(w.db, s)
            && Overrides(w.db, s) && Overrides(Run(w, [s]).db, s)
  {
    hide ApplyConfigs, StoredVersion, VersionKey, Run, Overrides, AfterStartup, OffsetKey;
    var c1, c2 := Config(topic, 0, [], false, 7, false, 1000), Config(topic, 1, [], true, 0, true, 1000);
    var s := Startup(1000, [c1, c2], Some(1000));
    assert s.configs[..1] == [c1] && s.configs[..1][..0] == [];
    assert ConfigsInOrder(w.time, []) && ConfigsInOrder(w.time, [c1]);
    assert !Fatal(w.db, 1000, [c1], 0);
    assert Fires(w.db, 1000, s.configs[0]) && NoneFatal(w.db, 1000, s.configs[..0 + 1]);
    assert Fatal(w.db, 1000, s.configs, 1);
    OverridesExactly(w.db, s);
    UncompletedOverrideRepeats(w, s, s);
  }
}
