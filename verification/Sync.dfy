/** App synchronisation: `SyncService::sync_apps` writes each fetched app through a blob store, and
    `FrbSyncService::sync_apps` runs the same code against a buffer and replays it to the host. */
module Sync {
  import opened Common
  import LogBuffers

  const BLOB_TYPE_APP := "app"

  datatype AppInfo = AppInfo(id: string, name: string, bundleId: string, platform: Option<string>)

  /** The fields the core owns, plus the account, as they are serialised. */
  datatype AppBlob =
    AppBlob(id: string, name: string, bundleId: string, platform: Option<string>, accountId: string)

  type Serializer = AppBlob -> Result<string, string>

  datatype Saved = Saved(typeName: string, id: string, json: string) {
    function Key(): (string, string) {
      (typeName, id)
    }
  }

  type Blobs = map<(string, string), string>

  // ---------------------------------------------------------------------------
  // The stores
  // ---------------------------------------------------------------------------

  class InMemoryStore {
    var blobs: Blobs

    constructor (blobs: Blobs)
      ensures this.blobs == blobs
    {
      this.blobs := blobs;
    }

    method Save(save: Saved)
      modifies this
      ensures blobs == old(blobs)[save.Key() := save.json]
    {
      blobs := blobs[save.Key() := save.json];
    }
  }

  class BufferingBlobStore {
    var saved: seq<Saved>

    constructor ()
      ensures saved == []
    {
      saved := [];
    }

    method Save(save: Saved)
      modifies this
      ensures saved == old(saved) + [save]
    {
      saved := saved + [save];
    }

    method Take() returns (taken: seq<Saved>)
      modifies this
      ensures taken == old(saved) && saved == []
    {
      taken := saved;
      saved := [];
    }
  }

  /** The blob-store port, with the two stores that implement it here. */
  datatype BlobStore = Direct(store: InMemoryStore) | Buffering(buffer: BufferingBlobStore) {
    ghost function Footprint(): set<object> {
      if Direct? then {store} else {buffer}
    }

    method Save(save: Saved)
      modifies Footprint()
      ensures Direct? ==> store.blobs == old(store.blobs)[save.Key() := save.json]
      ensures Buffering? ==> buffer.saved == old(buffer.saved) + [save]
    {
      match this
      case Direct(s) => s.Save(save);
      case Buffering(b) => b.Save(save);
    }
  }

  // ---------------------------------------------------------------------------
  // What a sync saves
  // ---------------------------------------------------------------------------

  function BlobOf(app: AppInfo, accountId: string): AppBlob {
    AppBlob(app.id, app.name, app.bundleId, app.platform, accountId)
  }

  predicate Serializes(app: AppInfo, accountId: string, ser: Serializer) {
    ser(BlobOf(app, accountId)).Ok?
  }

  function SaveOf(app: AppInfo, accountId: string, ser: Serializer): Saved
    requires Serializes(app, accountId, ser)
  {
    Saved(BLOB_TYPE_APP, app.id, ser(BlobOf(app, accountId)).value)
  }

  /** How many apps serialise before the first that does not. */
  function GoodPrefix(apps: seq<AppInfo>, accountId: string, ser: Serializer): (k: nat)
    ensures k <= |apps|
    ensures forall i | 0 <= i < k :: Serializes(apps[i], accountId, ser)
    ensures k < |apps| ==> !Serializes(apps[k], accountId, ser)
  {
    if apps == [] || !Serializes(apps[0], accountId, ser) then 0
    else 1 + GoodPrefix(apps[1..], accountId, ser)
  }

  function SavesOf(apps: seq<AppInfo>, accountId: string, ser: Serializer): (saves: seq<Saved>)
    requires forall i | 0 <= i < |apps| :: Serializes(apps[i], accountId, ser)
    ensures |saves| == |apps|
    ensures forall i | 0 <= i < |apps| :: saves[i] == SaveOf(apps[i], accountId, ser)
  {
    if apps == [] then []
    else SavesOf(apps[..|apps| - 1], accountId, ser) + [SaveOf(apps[|apps| - 1], accountId, ser)]
  }

  /** The saves of a sync: one for each app, up to the first that does not serialise. */
  function PrefixSaves(apps: seq<AppInfo>, accountId: string, ser: Serializer): seq<Saved> {
    SavesOf(apps[..GoodPrefix(apps, accountId, ser)], accountId, ser)
  }

  predicate FirstBad(apps: seq<AppInfo>, k: nat, accountId: string, ser: Serializer) {
    k < |apps| && ser(BlobOf(apps[k], accountId)).Err? &&
    forall i | 0 <= i < k :: ser(BlobOf(apps[i], accountId)).Ok?
  }

  /** The result a sync promises. */
  ghost predicate SyncOutcome(fetched: Result<seq<AppInfo>, StackError>, accountId: string, ser: Serializer,
                              r: Result<seq<AppInfo>, StackError>) {
    (fetched.Err? ==> r == fetched) && (r.Ok? ==> r == fetched) &&
    (r.Ok? <==> fetched.Ok? && AllSerialize(fetched.value, accountId, ser)) &&
    (fetched.Ok? ==>
       forall k: nat | FirstBad(fetched.value, k, accountId, ser) ::
         var app := fetched.value[k];
         r == Err(Decode("serialize app " + app.id + ": " + ser(BlobOf(app, accountId)).error)))
  }

  /** A fetch that failed is passed on; otherwise the fetched apps come back exactly when every one
      serialises, and else the serialiser's error for the first that does not, with its id. */
  function SyncResult(fetched: Result<seq<AppInfo>, StackError>, accountId: string, ser: Serializer)
    : (r: Result<seq<AppInfo>, StackError>)
    ensures SyncOutcome(fetched, accountId, ser, r)
  {
    if fetched.Err? then fetched
    else
      var k := GoodPrefix(fetched.value, accountId, ser);
      if k == |fetched.value| then fetched
      else
        var app := fetched.value[k];
        Err(Decode("serialize app " + app.id + ": " + ser(BlobOf(app, accountId)).error))
  }

  lemma PrefixSavesNext(apps: seq<AppInfo>, i: nat, accountId: string, ser: Serializer)
    requires i <= |apps|
    ensures PrefixSaves(apps[i..], accountId, ser) ==
            if i == |apps| || !Serializes(apps[i], accountId, ser) then []
            else [SaveOf(apps[i], accountId, ser)] + PrefixSaves(apps[i + 1..], accountId, ser)
  {
    if i < |apps| && Serializes(apps[i], accountId, ser) {
      var rest := apps[i + 1..];
      var k := GoodPrefix(rest, accountId, ser);
      assert apps[i..][1..] == rest;
      assert GoodPrefix(apps[i..], accountId, ser) == 1 + k;
      hide SavesOf, GoodPrefix;
      var x, y := apps[i..][..1 + k], rest[..k];
      assert x == [apps[i]] + y;
      assert SavesOf(x, accountId, ser) == [SaveOf(apps[i], accountId, ser)] + SavesOf(y, accountId, ser);
    }
  }

  /** The store after a list of saves, in order. */
  function Replay(blobs: Blobs, saves: seq<Saved>): Blobs {
    if saves == [] then blobs
    else
      var save := saves[|saves| - 1];
      Replay(blobs, saves[..|saves| - 1])[save.Key() := save.json]
  }

  lemma ReplaySnoc(blobs: Blobs, saves: seq<Saved>, save: Saved)
    ensures Replay(blobs, saves + [save]) == Replay(blobs, saves)[save.Key() := save.json]
  {}

  lemma {:induction false} ReplayCons(blobs: Blobs, save: Saved, saves: seq<Saved>)
    ensures Replay(blobs, [save] + saves) == Replay(blobs[save.Key() := save.json], saves)
  {
    if saves == [] {
      assert [save] + saves == [] + [save];
      ReplaySnoc(blobs, [], save);
    } else {
      var init, last := saves[..|saves| - 1], saves[|saves| - 1];
      ReplayCons(blobs, save, init);
      assert [save] + saves == ([save] + init) + [last];
      ReplaySnoc(blobs, [save] + init, last);
    }
  }

  /** The host's store after a direct sync: each app is serialised and saved at once, until one does
      not serialise. */
  function DirectStore(blobs: Blobs, fetched: Result<seq<AppInfo>, StackError>, accountId: string, ser: Serializer)
    : Blobs
  {
    if fetched.Ok? then SaveEach(blobs, fetched.value, accountId, ser) else blobs
  }

  function SaveEach(blobs: Blobs, apps: seq<AppInfo>, accountId: string, ser: Serializer): Blobs
    decreases apps
  {
    if apps == [] then blobs
    else
      match ser(BlobOf(apps[0], accountId))
      case Err(_) => blobs
      case Ok(json) => SaveEach(blobs[(BLOB_TYPE_APP, apps[0].id) := json], apps[1..], accountId, ser)
  }

  /** What the buffer has recorded when the core's sync returns. */
  function Recorded(fetched: Result<seq<AppInfo>, StackError>, accountId: string, ser: Serializer): seq<Saved> {
    if fetched.Ok? then PrefixSaves(fetched.value, accountId, ser) else []
  }

  /** The host's store after a buffered sync: the recorded saves are replayed if the sync succeeded. */
  function BufferedStore(blobs: Blobs, fetched: Result<seq<AppInfo>, StackError>, accountId: string, ser: Serializer)
    : Blobs
  {
    if SyncResult(fetched, accountId, ser).Ok? then Replay(blobs, Recorded(fetched, accountId, ser)) else blobs
  }

  lemma SaveEachNext(blobs: Blobs, apps: seq<AppInfo>, i: nat, accountId: string, ser: Serializer)
    requires i <= |apps|
    ensures SaveEach(blobs, apps[i..], accountId, ser) ==
            if i == |apps| || !Serializes(apps[i], accountId, ser) then blobs
            else
              var save := SaveOf(apps[i], accountId, ser);
              SaveEach(blobs[save.Key() := save.json], apps[i + 1..], accountId, ser)
  {
    if i < |apps| {
      assert apps[i..][1..] == apps[i + 1..];
    }
  }

  /** What one more app adds to what is saved, or that it ends the sync. */
  lemma OneApp(blobs: Blobs, apps: seq<AppInfo>, i: nat, accountId: string, ser: Serializer)
    requires i < |apps| && i <= GoodPrefix(apps, accountId, ser)
    ensures var app := apps[i];
            var saves, store := PrefixSaves(apps[i..], accountId, ser), SaveEach(blobs, apps[i..], accountId, ser);
            match ser(BlobOf(app, accountId))
            case Err(e) =>
              saves == [] && store == blobs &&
              SyncResult(Ok(apps), accountId, ser) == Err(Decode("serialize app " + app.id + ": " + e))
            case Ok(json) =>
              var save := Saved(BLOB_TYPE_APP, app.id, json);
              i < GoodPrefix(apps, accountId, ser) &&
              saves == [save] + PrefixSaves(apps[i + 1..], accountId, ser) &&
              store == SaveEach(blobs[save.Key() := json], apps[i + 1..], accountId, ser)
  {
    hide PrefixSaves, SaveEach, GoodPrefix;
    PrefixSavesNext(apps, i, accountId, ser);
    SaveEachNext(blobs, apps, i, accountId, ser);
  }

  lemma OneMore(saved: seq<Saved>, save: Saved, rest: seq<Saved>)
    ensures saved + ([save] + rest) == saved + [save] + rest
  {}

  lemma NoneLeft(blobs: Blobs, apps: seq<AppInfo>, i: nat, accountId: string, ser: Serializer)
    requires i == |apps| == GoodPrefix(apps, accountId, ser)
    ensures PrefixSaves(apps[i..], accountId, ser) == [] && SaveEach(blobs, apps[i..], accountId, ser) == blobs
    ensures SyncResult(Ok(apps), accountId, ser) == Ok(apps)
  {
    PrefixSavesNext(apps, i, accountId, ser);
    SaveEachNext(blobs, apps, i, accountId, ser);
  }

  // ---------------------------------------------------------------------------
  // The services
  // ---------------------------------------------------------------------------

  class SyncService {
    const store: BlobStore
    const accountId: string

    constructor (store: BlobStore, accountId: string)
      ensures this.store == store && this.accountId == accountId
    {
      this.store := store;
      this.accountId := accountId;
    }

    /** Saves each fetched app in order and stops at the first that does not serialise. */
    method SyncApps(fetched: Result<seq<AppInfo>, StackError>, ser: Serializer)
      returns (r: Result<seq<AppInfo>, StackError>)
      modifies store.Footprint()
      ensures r == SyncResult(fetched, accountId, ser) && SyncOutcome(fetched, accountId, ser, r)
      ensures match store
              case Direct(s) => s.blobs == DirectStore(old(s.blobs), fetched, accountId, ser)
              case Buffering(b) => b.saved == old(b.saved) + Recorded(fetched, accountId, ser)
    {
      if fetched.Err? {
        return fetched;
      }
      hide PrefixSaves, GoodPrefix, SaveEach, SyncResult, Serializes, SaveOf, BlobOf;
      var apps := fetched.value;
      var i := 0;
      assert apps[0..] == apps;
      while i < |apps|
        invariant 0 <= i <= GoodPrefix(apps, accountId, ser)
        invariant match store
                  case Direct(s) =>
                    SaveEach(s.blobs, apps[i..], accountId, ser) == SaveEach(old(s.blobs), apps, accountId, ser)
                  case Buffering(b) =>
                    b.saved + PrefixSaves(apps[i..], accountId, ser) ==
                    old(b.saved) + PrefixSaves(apps, accountId, ser)
      {
        var app := apps[i];
        OneApp(if store.Direct? then store.store.blobs else map[], apps, i, accountId, ser);
        match ser(BlobOf(app, accountId)) {
          case Err(e) => return Err(Decode("serialize app " + app.id + ": " + e));
          case Ok(json) =>
            var save := Saved(BLOB_TYPE_APP, app.id, json);
            ghost var rest := PrefixSaves(apps[i + 1..], accountId, ser);
            OneMore(if store.Buffering? then store.buffer.saved else [], save, rest);
            store.Save(save);
        }
        i := i + 1;
      }
      NoneLeft(if store.Direct? then store.store.blobs else map[], apps, i, accountId, ser);
      return Ok(apps);
    }
  }

  class FrbSyncService {
    const accountId: string
    const logs: Option<LogBuffers.LogBuffer>

    constructor (accountId: string, logs: Option<LogBuffers.LogBuffer>)
      ensures this.accountId == accountId && this.logs == logs
    {
      this.accountId := accountId;
      this.logs := logs;
    }

    ghost function Logging(): set<object> {
      if logs.Some? then {logs.value, logs.value.sink} else {}
    }

    method FlushLogs()
      modifies Logging()
      ensures logs.Some? ==>
                logs.value.pending == [] &&
                logs.value.sink.received == old(logs.value.sink.received) + old(logs.value.pending)
    {
      if logs.Some? {
        logs.value.Flush();
      }
    }

    /** The buffered sync: the host sees the saves only after a sync that succeeded as a whole; the
        debug lines are flushed either way. */
    method SyncApps(fetched: Result<seq<AppInfo>, StackError>, ser: Serializer, host: InMemoryStore)
      returns (r: Result<seq<AppInfo>, StackError>)
      modifies host, Logging()
      ensures r == SyncResult(fetched, accountId, ser) && SyncOutcome(fetched, accountId, ser, r)
      ensures host.blobs == BufferedStore(old(host.blobs), fetched, accountId, ser)
      ensures logs.Some? ==>
                logs.value.pending == [] &&
                logs.value.sink.received == old(logs.value.sink.received) + old(logs.value.pending)
    {
      hide PrefixSaves, Replay;
      var buffer := new BufferingBlobStore();
      var svc := new SyncService(Buffering(buffer), accountId);
      r := svc.SyncApps(fetched, ser);
      assert buffer.saved == Recorded(fetched, accountId, ser);
      FlushLogs();
      if r.Err? {
        return;
      }
      var saves := buffer.Take();
      Persist(saves, host);
    }

    /** Hands the recorded saves to the host's persist callback, one at a time, in order. */
    static method Persist(saves: seq<Saved>, host: InMemoryStore)
      modifies host
      ensures host.blobs == Replay(old(host.blobs), saves)
    {
      var i := 0;
      while i < |saves|
        invariant 0 <= i <= |saves|
        invariant host.blobs == Replay(old(host.blobs), saves[..i])
      {
        host.Save(saves[i]);
        ReplaySnoc(old(host.blobs), saves[..i], saves[i]);
        assert saves[..i + 1] == saves[..i] + [saves[i]];
        i := i + 1;
      }
      assert saves[..i] == saves;
    }
  }

  // ---------------------------------------------------------------------------
  // What the host store holds afterwards
  // ---------------------------------------------------------------------------

  /** The last app of the list with this id. */
  function LastWithId(apps: seq<AppInfo>, id: string): Option<AppInfo> {
    if apps == [] then None
    else if apps[|apps| - 1].id == id then Some(apps[|apps| - 1])
    else LastWithId(apps[..|apps| - 1], id)
  }

  /** After a sync, each fetched id holds the blob of the last app with that id, keyed by the bare
      id; every other entry, of whatever type, is untouched. */
  lemma {:induction false} SyncedStore(blobs: Blobs, apps: seq<AppInfo>, accountId: string, ser: Serializer,
                                       key: (string, string))
    requires forall i | 0 <= i < |apps| :: Serializes(apps[i], accountId, ser)
    ensures var after := Replay(blobs, SavesOf(apps, accountId, ser));
            var app := if key.0 == "app" then LastWithId(apps, key.1) else None;
            if app.Some? then
              var blob := AppBlob(key.1, app.value.name, app.value.bundleId, app.value.platform, accountId);
              app.value in apps && key in after && ser(blob) == Ok(after[key])
            else (key in after <==> key in blobs) && (key in blobs ==> after[key] == blobs[key])
  {
    if apps != [] {
      var init, last := apps[..|apps| - 1], apps[|apps| - 1];
      SyncedStore(blobs, init, accountId, ser, key);
      ReplaySnoc(blobs, SavesOf(init, accountId, ser), SaveOf(last, accountId, ser));
    }
  }

  /** The last save under a key. */
  function LastSave(saves: seq<Saved>, key: (string, string)): Option<string> {
    if saves == [] then None
    else if saves[|saves| - 1].Key() == key then Some(saves[|saves| - 1].json)
    else LastSave(saves[..|saves| - 1], key)
  }

  lemma {:induction false} ReplayLookup(blobs: Blobs, saves: seq<Saved>, key: (string, string))
    ensures var after := Replay(blobs, saves);
            if LastSave(saves, key).Some? then key in after && after[key] == LastSave(saves, key).value
            else (key in after <==> key in blobs) && (key in blobs ==> after[key] == blobs[key])
  {
    if saves != [] {
      ReplayLookup(blobs, saves[..|saves| - 1], key);
    }
  }

  /** Replaying the same saves once more changes nothing: repeating a sync is harmless. */
  lemma ReplayTwice(blobs: Blobs, saves: seq<Saved>)
    ensures Replay(Replay(blobs, saves), saves) == Replay(blobs, saves)
  {
    var once := Replay(blobs, saves);
    var twice := Replay(once, saves);
    forall key ensures (key in twice <==> key in once) && (key in once ==> twice[key] == once[key]) {
      ReplayLookup(blobs, saves, key);
      ReplayLookup(once, saves, key);
    }
  }

  /** Saving each app at once is replaying the recorded saves afterwards. */
  lemma {:induction false} SaveEachIsReplay(blobs: Blobs, apps: seq<AppInfo>, accountId: string, ser: Serializer)
    ensures SaveEach(blobs, apps, accountId, ser) == Replay(blobs, PrefixSaves(apps, accountId, ser))
    decreases apps
  {
    hide *;
    FirstApp(blobs, apps, accountId, ser);
    if apps != [] && Serializes(apps[0], accountId, ser) {
      var save := SaveOf(apps[0], accountId, ser);
      SaveEachIsReplay(blobs[save.Key() := save.json], apps[1..], accountId, ser);
      ReplayCons(blobs, save, PrefixSaves(apps[1..], accountId, ser));
    } else {
      ReplayNone(blobs);
    }
  }

  lemma ReplayNone(blobs: Blobs)
    ensures Replay(blobs, []) == blobs
  {}

  lemma FirstApp(blobs: Blobs, apps: seq<AppInfo>, accountId: string, ser: Serializer)
    ensures var more := apps != [] && Serializes(apps[0], accountId, ser);
            PrefixSaves(apps, accountId, ser) ==
            (if more then [SaveOf(apps[0], accountId, ser)] + PrefixSaves(apps[1..], accountId, ser) else []) &&
            SaveEach(blobs, apps, accountId, ser) ==
            if more then
              var save := SaveOf(apps[0], accountId, ser);
              SaveEach(blobs[save.Key() := save.json], apps[1..], accountId, ser)
            else blobs
  {
    hide *;
    assert apps[0..] == apps;
    PrefixSavesNext(apps, 0, accountId, ser);
    SaveEachNext(blobs, apps, 0, accountId, ser);
  }

  /** The buffered sync refines the direct one. When every app serialises both leave the host with
      the same store. When app `k` is the first that does not, the direct sync has persisted
      exactly the apps before it and the buffered sync nothing. */
  lemma BufferedRefinesDirect(blobs: Blobs, fetched: Result<seq<AppInfo>, StackError>,
                              accountId: string, ser: Serializer)
    ensures fetched.Err? ==>
              DirectStore(blobs, fetched, accountId, ser) == blobs == BufferedStore(blobs, fetched, accountId, ser)
    ensures fetched.Ok? ==>
              var apps, k := fetched.value, GoodPrefix(fetched.value, accountId, ser);
              var direct := DirectStore(blobs, fetched, accountId, ser);
              var buffered := BufferedStore(blobs, fetched, accountId, ser);
              direct == Replay(blobs, SavesOf(apps[..k], accountId, ser)) &&
              if AllSerialize(apps, accountId, ser) then
                k == |apps| && SyncResult(fetched, accountId, ser) == fetched && buffered == direct
              else
                k < |apps| && !Serializes(apps[k], accountId, ser) &&
                SyncResult(fetched, accountId, ser).Err? && buffered == blobs
  {
    if fetched.Ok? {
      SaveEachIsReplay(blobs, fetched.value, accountId, ser);
      hide SaveEach, Replay, SavesOf;
    }
  }

  ghost predicate AllSerialize(apps: seq<AppInfo>, accountId: string, ser: Serializer) {
    forall i | 0 <= i < |apps| :: Serializes(apps[i], accountId, ser)
  }
}
