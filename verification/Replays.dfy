/** Several buffered syncs replaying onto one host store. A replay awaits after every blob it hands
    over, so replays that overlap interleave blob by blob; a direct sync saves without suspending. */
module Replays {
  import opened Common
  import opened Handovers
  import opened Sync

  type Key = (string, string)

  type Batch = Task<Saved>

  /** The host's store, and the replays: each is a task that hands over the saves its sync recorded. */
  datatype State = State(host: Blobs, replays: Handover<Saved>)

  datatype Step = Begin(saves: seq<Saved>) | Persist(replay: nat)

  function Init(blobs: Blobs): State {
    State(blobs, Handover([], []))
  }

  function NextSave(h: Handover<Saved>, k: nat): Saved
    requires CanAdvance(h, k)
  {
    h.tasks[k].items[h.tasks[k].sent]
  }

  /** One step: a replay begins with what its sync has recorded, or hands over its next blob. A
      finished replay has no step. */
  function Apply(s: State, step: Step): State {
    match step
    case Begin(saves) => s.(replays := Started(s.replays, saves))
    case Persist(k) =>
      if CanAdvance(s.replays, k) then
        var save := NextSave(s.replays, k);
        State(s.host[save.Key() := save.json], Advanced(s.replays, k))
      else s
  }

  function Run(blobs: Blobs, steps: seq<Step>): State {
    if steps == [] then Init(blobs) else Apply(Run(blobs, steps[..|steps| - 1]), steps[|steps| - 1])
  }

  // ---------------------------------------------------------------------------
  // What every run keeps
  // ---------------------------------------------------------------------------

  lemma StepKeepsSound(s: State, step: Step)
    requires Sound(s.replays)
    ensures Sound(Apply(s, step).replays)
  {
    hide Sound, Advanced, Started;
    match step
    case Begin(saves) => StartKeepsSound(s.replays, saves);
    case Persist(k) =>
      if CanAdvance(s.replays, k) {
        AdvanceKeepsSound(s.replays, k);
      }
  }

  lemma StepReplays(blobs: Blobs, s: State, step: Step)
    requires s.host == Replay(blobs, Items(s.replays.history))
    ensures Apply(s, step).host == Replay(blobs, Items(Apply(s, step).replays.history))
  {
    if step.Persist? && CanAdvance(s.replays, step.replay) {
      var k := step.replay;
      Append(s.replays.history, DeliveryOf(s.replays.tasks, k, s.replays.tasks[k].sent));
      hide Items, Replay;
      ReplaySnoc(blobs, Items(s.replays.history), NextSave(s.replays, k));
    }
  }

  /** Under every interleaving the host's store is the initial one with all blobs handed over so far
      saved in the order they came, and each replay has handed over a prefix of its saves. */
  lemma {:induction false} EveryRun(blobs: Blobs, steps: seq<Step>)
    ensures var s := Run(blobs, steps);
            s.host == Replay(blobs, Items(s.replays.history)) && Sound(s.replays)
  {
    if steps == [] {
      NothingYet(Init(blobs).replays);
    } else {
      var s, step := Run(blobs, steps[..|steps| - 1]), steps[|steps| - 1];
      EveryRun(blobs, steps[..|steps| - 1]);
      hide Sound, Apply, Replay, Items;
      StepKeepsSound(s, step);
      StepReplays(blobs, s, step);
    }
  }

  // ---------------------------------------------------------------------------
  // What each key holds
  // ---------------------------------------------------------------------------

  /** The replay whose save under `key` was handed over last. */
  function Winner(history: seq<Delivery<Saved>>, key: Key): Option<nat> {
    if history == [] then None
    else if history[|history| - 1].item.Key() == key then Some(history[|history| - 1].task)
    else Winner(history[..|history| - 1], key)
  }

  lemma LastSaveSnoc(saves: seq<Saved>, save: Saved, key: Key)
    ensures LastSave(saves + [save], key) == if save.Key() == key then Some(save.json) else LastSave(saves, key)
  {}

  /** The last value handed over under a key is the last one its winner handed over under it, and
      there is a winner as soon as any replay has handed over a save under the key. */
  lemma {:induction false} WinnersValue(history: seq<Delivery<Saved>>, key: Key)
    ensures var w := Winner(history, key);
            LastSave(Items(history), key) == (if w == None then None else LastSave(SentBy(history, w.value), key)) &&
            (w.Some? ==> LastSave(SentBy(history, w.value), key).Some?)
    ensures forall k | LastSave(SentBy(history, k), key).Some? :: Winner(history, key).Some?
  {
    if history != [] {
      var init, d := history[..|history| - 1], history[|history| - 1];
      assert history == init + [d];
      hide Items, SentBy, LastSave;
      WinnersValue(init, key);
      Append(init, d);
      LastSaveSnoc(Items(init), d.item, key);
      forall k: nat ensures LastSave(SentBy(history, k), key) == LastSent(init, d, k, key) {
        SentSnoc(init, d, k, key);
      }
    }
  }

  /** The last value that replay `k` has handed over under `key`, one delivery later. */
  function LastSent(history: seq<Delivery<Saved>>, d: Delivery<Saved>, k: nat, key: Key): Option<string> {
    if d.task == k && d.item.Key() == key then Some(d.item.json) else LastSave(SentBy(history, k), key)
  }

  lemma SentSnoc(history: seq<Delivery<Saved>>, d: Delivery<Saved>, k: nat, key: Key)
    ensures LastSave(SentBy(history + [d], k), key) == LastSent(history, d, k, key)
  {
    Append(history, d);
    hide SentBy, LastSave;
    if d.task == k {
      LastSaveSnoc(SentBy(history, k), d.item, key);
    } else {
      assert SentBy(history, k) + [] == SentBy(history, k);
    }
  }

  function Lookup(blobs: Blobs, key: Key): Option<string> {
    if key in blobs then Some(blobs[key]) else None
  }

  lemma SameLookups(a: Blobs, b: Blobs)
    ensures a == b <==> forall key :: Lookup(a, key) == Lookup(b, key)
  {
    if forall key :: Lookup(a, key) == Lookup(b, key) {
      forall key ensures (key in a <==> key in b) && (key in a ==> a[key] == b[key]) {
        assert Lookup(a, key) == Lookup(b, key);
      }
    }
  }

  lemma ReplayedKey(blobs: Blobs, saves: seq<Saved>, key: Key)
    ensures Lookup(Replay(blobs, saves), key) ==
            if LastSave(saves, key).Some? then LastSave(saves, key) else Lookup(blobs, key)
  {
    ReplayLookup(blobs, saves, key);
  }

  ghost predicate Finished(s: State) {
    Idle(s.replays.tasks)
  }

  /** At every moment of every run a key holds what its winner handed over last under it, and an
      untouched key holds what it held before. */
  lemma HostHolds(blobs: Blobs, steps: seq<Step>, key: Key)
    ensures var s := Run(blobs, steps);
            var w := Winner(s.replays.history, key);
            if w.Some? then
              w.value < |s.replays.tasks| &&
              var b := s.replays.tasks[w.value];
              b.sent <= |b.items| && LastSave(b.items[..b.sent], key).Some? &&
              Lookup(s.host, key) == LastSave(b.items[..b.sent], key)
            else Lookup(s.host, key) == Lookup(blobs, key)
  {
    var s := Run(blobs, steps);
    var h := s.replays;
    EveryRun(blobs, steps);
    hide Run, Replay, LastSave, Items, SentBy, Lookup, Traced, Balanced, Winner;
    ReplayedKey(blobs, Items(h.history), key);
    WinnersValue(h.history, key);
    if Winner(h.history, key).Some? {
      WinnerBegan(h.history, key);
    }
  }

  lemma {:induction false} WinnerBegan(history: seq<Delivery<Saved>>, key: Key)
    requires Winner(history, key).Some?
    ensures exists i | 0 <= i < |history| :: history[i].task == Winner(history, key).value
  {
    var init := history[..|history| - 1];
    if history[|history| - 1].item.Key() != key {
      WinnerBegan(init, key);
      var i :| 0 <= i < |init| && init[i].task == Winner(init, key).value;
      assert history[i] == init[i];
    }
  }

  lemma FinishedSent(h: Handover<Saved>, k: nat)
    requires Prefixes(h) && Idle(h.tasks) && k < |h.tasks|
    ensures SentBy(h.history, k) == h.tasks[k].items == h.tasks[k].items[..h.tasks[k].sent]
  {
    hide SentBy;
    assert !Active(h.tasks[k]);
  }

  /** Once all replays have finished, the winner of a key is a replay that saves it, and there is one
      for every key that any replay saves. */
  lemma FinishedWinner(blobs: Blobs, steps: seq<Step>, key: Key)
    requires Finished(Run(blobs, steps))
    ensures var s := Run(blobs, steps);
            var w := Winner(s.replays.history, key);
            if w.Some? then
              w.value < |s.replays.tasks| && LastSave(s.replays.tasks[w.value].items, key).Some? &&
              Lookup(s.host, key) == LastSave(s.replays.tasks[w.value].items, key)
            else
              Lookup(s.host, key) == Lookup(blobs, key) &&
              forall k | 0 <= k < |s.replays.tasks| :: LastSave(s.replays.tasks[k].items, key) == None
  {
    var h := Run(blobs, steps).replays;
    EveryRun(blobs, steps);
    HostHolds(blobs, steps, key);
    WinnersValue(h.history, key);
    forall k | 0 <= k < |h.tasks|
      ensures SentBy(h.history, k) == h.tasks[k].items == h.tasks[k].items[..h.tasks[k].sent]
    {
      FinishedSent(h, k);
    }
    hide Run, Replay, LastSave, Items, SentBy, Lookup, Winner, Sound, Idle;
  }

  // ---------------------------------------------------------------------------
  // Serial orders
  // ---------------------------------------------------------------------------

  /** What the last replay of the list that saves `key` saves under it last. */
  function LastWord(batches: seq<Batch>, key: Key): Option<string> {
    if batches == [] then None
    else
      var last := LastSave(batches[|batches| - 1].items, key);
      if last.Some? then last else LastWord(batches[..|batches| - 1], key)
  }

  lemma {:induction false} LastSaveConcat(a: seq<Saved>, b: seq<Saved>, key: Key)
    ensures LastSave(a + b, key) == if LastSave(b, key).Some? then LastSave(b, key) else LastSave(a, key)
  {
    if b == [] {
      assert a + b == a;
    } else {
      LastSaveConcat(a, b[..|b| - 1], key);
      assert (a + b)[..|a + b| - 1] == a + b[..|b| - 1];
    }
  }

  lemma {:induction false} LastWordIsLastSave(batches: seq<Batch>, key: Key)
    ensures LastSave(AllItems(batches), key) == LastWord(batches, key)
    ensures LastWord(batches, key) == None <==> forall b | b in batches :: LastSave(b.items, key) == None
  {
    if batches == [] {
      assert LastSave([], key) == None;
    } else {
      var init, last := batches[..|batches| - 1], batches[|batches| - 1];
      LastWordIsLastSave(init, key);
      LastSaveConcat(AllItems(init), last.items, key);
      hide LastSave, AllItems;
      assert batches == init + [last];
      assert forall b :: b in batches <==> b in init || b == last;
      ItemsSnoc(init, last);
    }
  }

  /** The winner of `key`, if there is one, wrote what the last replay of the serial order writes. */
  ghost predicate WinnerAgrees(s: State, order: seq<Batch>, key: Key) {
    var w := Winner(s.replays.history, key);
    w.Some? ==>
      w.value < |s.replays.tasks| && LastSave(s.replays.tasks[w.value].items, key) == LastWord(order, key)
  }

  ghost predicate WinnersAgree(s: State, order: seq<Batch>) {
    forall key :: WinnerAgrees(s, order, key)
  }

  lemma AgreesIff(blobs: Blobs, steps: seq<Step>, order: seq<Batch>, key: Key)
    requires Finished(Run(blobs, steps)) && multiset(order) == multiset(Run(blobs, steps).replays.tasks)
    ensures Lookup(Run(blobs, steps).host, key) == Lookup(Replay(blobs, AllItems(order)), key) <==>
            WinnerAgrees(Run(blobs, steps), order, key)
  {
    var s := Run(blobs, steps);
    hide Run, Replay, Winner, AllItems, LastWord, LastSave, Lookup, Finished;
    assert forall b :: b in s.replays.tasks <==> b in multiset(s.replays.tasks);
    assert forall b :: b in order <==> b in multiset(order);
    FinishedWinner(blobs, steps, key);
    ReplayedKey(blobs, AllItems(order), key);
    LastWordIsLastSave(order, key);
  }

  /** Overlapping replays leave the store of a serial order, once all have finished, exactly when
      for every key the replay that came last wrote what the last replay in that order writes. */
  lemma SerialIff(blobs: Blobs, steps: seq<Step>, order: seq<Batch>)
    requires Finished(Run(blobs, steps)) && multiset(order) == multiset(Run(blobs, steps).replays.tasks)
    ensures Run(blobs, steps).host == Replay(blobs, AllItems(order)) <==> WinnersAgree(Run(blobs, steps), order)
  {
    hide Run, Replay, AllItems, Lookup, Finished, WinnerAgrees;
    var s, serial := Run(blobs, steps), Replay(blobs, AllItems(order));
    forall key ensures Lookup(s.host, key) == Lookup(serial, key) <==> WinnerAgrees(s, order, key) {
      AgreesIff(blobs, steps, order, key);
    }
    SameLookups(s.host, serial);
  }

  // ---------------------------------------------------------------------------
  // When every serial order will do
  // ---------------------------------------------------------------------------

  /** Both replays save `key`, with different last values. */
  ghost predicate Contested(a: seq<Saved>, b: seq<Saved>, key: Key) {
    LastSave(a, key).Some? && LastSave(b, key).Some? && LastSave(a, key) != LastSave(b, key)
  }

  /** No two replays disagree about a key. */
  ghost predicate Undisputed(batches: seq<Batch>) {
    forall a, b, key | a in batches && b in batches :: !Contested(a.items, b.items, key)
  }

  lemma {:induction false} LastWordSpoken(batches: seq<Batch>, key: Key)
    requires LastWord(batches, key).Some?
    ensures exists b :: b in batches && LastSave(b.items, key) == LastWord(batches, key)
  {
    hide LastSave;
    var init, last := batches[..|batches| - 1], batches[|batches| - 1];
    if LastSave(last.items, key) == None {
      LastWordSpoken(init, key);
      var b :| b in init && LastSave(b.items, key) == LastWord(init, key);
      assert b in batches;
    } else {
      assert last in batches;
    }
  }

  lemma UndisputedAgree(blobs: Blobs, steps: seq<Step>, order: seq<Batch>, key: Key)
    requires Finished(Run(blobs, steps)) && multiset(order) == multiset(Run(blobs, steps).replays.tasks)
    requires Undisputed(Run(blobs, steps).replays.tasks)
    ensures WinnerAgrees(Run(blobs, steps), order, key)
  {
    var h := Run(blobs, steps).replays;
    hide Run, Winner, LastWord, LastSave, Lookup, Finished;
    assert forall b :: b in order <==> b in multiset(order);
    assert forall b :: b in h.tasks <==> b in multiset(h.tasks);
    FinishedWinner(blobs, steps, key);
    if Winner(h.history, key).Some? {
      var w := h.tasks[Winner(h.history, key).value];
      assert w in h.tasks;
      LastWordIsLastSave(order, key);
      LastWordSpoken(order, key);
      var b :| b in order && LastSave(b.items, key) == LastWord(order, key);
      assert !Contested(w.items, b.items, key);
    }
  }

  /** The list with one replay moved to the end. */
  function WithLast(batches: seq<Batch>, k: nat): (order: seq<Batch>)
    requires k < |batches|
    ensures multiset(order) == multiset(batches)
  {
    assert batches == batches[..k] + ([batches[k]] + batches[k + 1..]);
    batches[..k] + batches[k + 1..] + [batches[k]]
  }

  lemma LastDecides(batches: seq<Batch>, b: Batch, key: Key)
    requires LastSave(b.items, key).Some?
    ensures LastWord(batches + [b], key) == LastSave(b.items, key)
  {}

  lemma DisputedOrders(blobs: Blobs, batches: seq<Batch>, a: Batch, b: Batch, key: Key)
    returns (order: seq<Batch>, order': seq<Batch>)
    requires a in batches && b in batches && Contested(a.items, b.items, key)
    ensures multiset(order) == multiset(batches) == multiset(order')
    ensures Replay(blobs, AllItems(order)) != Replay(blobs, AllItems(order'))
  {
    var i :| 0 <= i < |batches| && batches[i] == a;
    var j :| 0 <= j < |batches| && batches[j] == b;
    order, order' := WithLast(batches, i), WithLast(batches, j);
    hide LastWord, LastSave, AllItems, Replay;
    LastDecides(batches[..i] + batches[i + 1..], a, key);
    LastDecides(batches[..j] + batches[j + 1..], b, key);
    LastWordIsLastSave(order, key);
    LastWordIsLastSave(order', key);
    ReplayedKey(blobs, AllItems(order), key);
    ReplayedKey(blobs, AllItems(order'), key);
  }

  /** Finished replays, however they overlapped, leave the store of every serial order exactly when
      no two of them disagree about a key. */
  lemma EveryOrderIff(blobs: Blobs, steps: seq<Step>)
    requires Finished(Run(blobs, steps))
    ensures (forall order | multiset(order) == multiset(Run(blobs, steps).replays.tasks) ::
               Run(blobs, steps).host == Replay(blobs, AllItems(order))) <==>
            Undisputed(Run(blobs, steps).replays.tasks)
  {
    var s := Run(blobs, steps);
    hide Run, Replay, AllItems, Finished, Contested, WinnerAgrees;
    if Undisputed(s.replays.tasks) {
      forall order | multiset(order) == multiset(s.replays.tasks) ensures s.host == Replay(blobs, AllItems(order)) {
        forall key ensures WinnerAgrees(s, order, key) {
          UndisputedAgree(blobs, steps, order, key);
        }
        SerialIff(blobs, steps, order);
      }
    } else {
      var a, b, key :| a in s.replays.tasks && b in s.replays.tasks && Contested(a.items, b.items, key);
      var order, order' := DisputedOrders(blobs, s.replays.tasks, a, b, key);
    }
  }

  // ---------------------------------------------------------------------------
  // Syncs that overlap
  // ---------------------------------------------------------------------------

  /** What a sync whose apps all serialise records under a key: under an app's bare id, the blob of
      the last app with that id. */
  lemma {:induction false} RecordedValue(apps: seq<AppInfo>, accountId: string, ser: Serializer, key: Key)
    requires AllSerialize(apps, accountId, ser)
    ensures var app := if key.0 == "app" then LastWithId(apps, key.1) else None;
            var last := LastSave(SavesOf(apps, accountId, ser), key);
            if app.Some? then last.Some? && ser(BlobOf(app.value, accountId)) == Ok(last.value) else last == None
  {
    if apps != [] {
      var init, last := apps[..|apps| - 1], apps[|apps| - 1];
      RecordedValue(init, accountId, ser, key);
      LastSaveSnoc(SavesOf(init, accountId, ser), SaveOf(last, accountId, ser), key);
    }
  }

  /** Two syncs, of one account or of two, disagree about a key exactly when both fetched an app with
      that bare id and its blobs differ. */
  lemma SyncsContestedIff(a: seq<AppInfo>, b: seq<AppInfo>, account: string, account': string,
                          ser: Serializer, key: Key)
    requires AllSerialize(a, account, ser) && AllSerialize(b, account', ser)
    ensures Contested(Recorded(Ok(a), account, ser), Recorded(Ok(b), account', ser), key) <==>
            key.0 == "app" && LastWithId(a, key.1).Some? && LastWithId(b, key.1).Some? &&
            ser(BlobOf(LastWithId(a, key.1).value, account)) != ser(BlobOf(LastWithId(b, key.1).value, account'))
  {
    AllRecorded(a, account, ser);
    AllRecorded(b, account', ser);
    hide Recorded, SavesOf, LastSave;
    RecordedValue(a, account, ser, key);
    RecordedValue(b, account', ser, key);
  }

  lemma AllRecorded(apps: seq<AppInfo>, accountId: string, ser: Serializer)
    requires AllSerialize(apps, accountId, ser)
    ensures Recorded(Ok(apps), accountId, ser) == SavesOf(apps, accountId, ser)
  {
    hide SavesOf;
    assert apps[..|apps|] == apps;
  }

  /** Every replay begins with these saves. */
  ghost predicate AllBeginWith(steps: seq<Step>, saves: seq<Saved>) {
    forall i | 0 <= i < |steps| && steps[i].Begin? :: steps[i].saves == saves
  }

  ghost predicate AllHave(tasks: seq<Batch>, saves: seq<Saved>) {
    forall k | 0 <= k < |tasks| :: tasks[k].items == saves
  }

  lemma {:induction false} BegunWith(blobs: Blobs, steps: seq<Step>, saves: seq<Saved>)
    requires AllBeginWith(steps, saves)
    ensures AllHave(Run(blobs, steps).replays.tasks, saves)
    ensures (exists i | 0 <= i < |steps| :: steps[i].Begin?) ==> Run(blobs, steps).replays.tasks != []
  {
    if steps != [] {
      BegunWith(blobs, steps[..|steps| - 1], saves);
    }
  }

  lemma {:induction false} ReplayAgain(blobs: Blobs, tasks: seq<Batch>, saves: seq<Saved>)
    requires tasks != [] && AllHave(tasks, saves)
    ensures Replay(blobs, AllItems(tasks)) == Replay(blobs, saves)
  {
    var init, last := tasks[..|tasks| - 1], tasks[|tasks| - 1];
    assert tasks == init + [last];
    hide AllItems, Replay;
    if init == [] {
      OneTask(last);
    } else {
      ReplayAgain(blobs, init, saves);
      ItemsSnoc(init, last);
      ReplayConcat(blobs, AllItems(init), saves);
      ReplayTwice(blobs, saves);
    }
  }

  /** Any number of overlapping syncs of the same apps, once all replays have finished, leave what one
      buffered sync alone leaves. */
  lemma RepeatedSyncs(blobs: Blobs, steps: seq<Step>, fetched: Result<seq<AppInfo>, StackError>,
                      accountId: string, ser: Serializer)
    requires Finished(Run(blobs, steps)) && SyncResult(fetched, accountId, ser).Ok?
    requires AllBeginWith(steps, Recorded(fetched, accountId, ser))
    requires exists i | 0 <= i < |steps| :: steps[i].Begin?
    ensures Run(blobs, steps).host == BufferedStore(blobs, fetched, accountId, ser)
  {
    var tasks, saves := Run(blobs, steps).replays.tasks, Recorded(fetched, accountId, ser);
    BegunWith(blobs, steps, saves);
    hide Run, Recorded, SyncResult, Finished, AllItems, Replay, LastSave;
    assert Undisputed(tasks);
    EveryOrderIff(blobs, steps);
    assert multiset(tasks) == multiset(Run(blobs, steps).replays.tasks);
    ReplayAgain(blobs, tasks, saves);
  }

  // ---------------------------------------------------------------------------
  // Replays one at a time
  // ---------------------------------------------------------------------------

  /** No replay begins before the earlier ones have finished. */
  ghost predicate OneAtATime(blobs: Blobs, steps: seq<Step>) {
    forall i | 0 <= i < |steps| && steps[i].Begin? :: Finished(Run(blobs, steps[..i]))
  }

  lemma OneAtATimeInit(blobs: Blobs, steps: seq<Step>, step: Step)
    requires OneAtATime(blobs, steps + [step])
    ensures OneAtATime(blobs, steps) && (step.Begin? ==> Finished(Run(blobs, steps)))
  {
    hide Run, Finished;
    var all := steps + [step];
    assert all[..|steps|] == steps && all[|steps|] == step;
    assert forall i | 0 <= i < |steps| :: all[i] == steps[i] && all[..i] == steps[..i];
  }

  lemma SerialStep(s: State, step: Step)
    requires Sound(s.replays) && InOrder(s.replays) && LastOnly(s.replays.tasks)
    requires step.Begin? ==> Finished(s)
    ensures InOrder(Apply(s, step).replays) && LastOnly(Apply(s, step).replays.tasks)
  {
    hide Sound, InOrder, LastOnly, Advanced, Started, Idle;
    match step
    case Begin(saves) => SerialStart(s.replays, saves);
    case Persist(k) =>
      if CanAdvance(s.replays, k) {
        SerialAdvance(s.replays, k);
      }
  }

  lemma {:induction false} SerialRun(blobs: Blobs, steps: seq<Step>)
    requires OneAtATime(blobs, steps)
    ensures InOrder(Run(blobs, steps).replays) && LastOnly(Run(blobs, steps).replays.tasks)
  {
    if steps == [] {
      NothingYet(Init(blobs).replays);
    } else {
      var init, last := steps[..|steps| - 1], steps[|steps| - 1];
      assert steps == init + [last];
      hide *;
      OneAtATimeInit(blobs, init, last);
      SerialRun(blobs, init);
      EveryRun(blobs, init);
      RunSnoc(blobs, init, last);
      SerialStep(Run(blobs, init), last);
    }
  }

  /** Replays that do not overlap leave the store of their saves in the order they began. */
  lemma SerialReplays(blobs: Blobs, steps: seq<Step>)
    requires OneAtATime(blobs, steps) && Finished(Run(blobs, steps))
    ensures Run(blobs, steps).host == Replay(blobs, AllItems(Run(blobs, steps).replays.tasks))
  {
    var h := Run(blobs, steps).replays;
    IdleRemaining(h.tasks);
    hide *;
    SerialRun(blobs, steps);
    EveryRun(blobs, steps);
    InOrderSplits(h);
    assert Items(h.history) + [] == Items(h.history);
  }

  // ---------------------------------------------------------------------------
  // Two replays
  // ---------------------------------------------------------------------------

  /** Replay `w` comes last on every contested key. */
  ghost predicate WinsAll(s: State, w: nat) {
    |s.replays.tasks| == 2 &&
    forall key | Contested(s.replays.tasks[0].items, s.replays.tasks[1].items, key) ::
      Winner(s.replays.history, key) == Some(w)
  }

  lemma LastWordOfTwo(x: Batch, y: Batch, key: Key)
    ensures LastWord([x, y], key) ==
            if LastSave(y.items, key).Some? then LastSave(y.items, key) else LastSave(x.items, key)
  {
    hide LastSave;
    assert [x, y][..1] == [x];
    assert LastWord([x], key) ==
           if LastSave(x.items, key).Some? then LastSave(x.items, key) else LastWord([x][..0], key);
  }

  /** Of two replays, the winner of a key agrees with the order unless the key is contested and the
      first of that order won it. */
  lemma TwoAgree(blobs: Blobs, steps: seq<Step>, x: Batch, y: Batch, b: nat, key: Key)
    requires Finished(Run(blobs, steps)) && b < 2
    requires Run(blobs, steps).replays.tasks == (if b == 1 then [x, y] else [y, x])
    ensures WinnerAgrees(Run(blobs, steps), [x, y], key) <==>
            (Contested(x.items, y.items, key) ==> Winner(Run(blobs, steps).replays.history, key) == Some(b))
  {
    hide Run, Winner, LastWord, LastSave, Finished, Lookup;
    FinishedWinner(blobs, steps, key);
    LastWordOfTwo(x, y, key);
    assert Run(blobs, steps).replays.tasks[b] == y && Run(blobs, steps).replays.tasks[1 - b] == x;
  }

  lemma ContestedSymmetric(a: seq<Saved>, b: seq<Saved>, key: Key)
    ensures Contested(a, b, key) <==> Contested(b, a, key)
  {}

  lemma TwoInOrder(blobs: Blobs, steps: seq<Step>, x: Batch, y: Batch, b: nat)
    requires Finished(Run(blobs, steps)) && b < 2
    requires Run(blobs, steps).replays.tasks == (if b == 1 then [x, y] else [y, x])
    ensures Run(blobs, steps).host == Replay(Replay(blobs, x.items), y.items) <==> WinsAll(Run(blobs, steps), b)
  {
    var s := Run(blobs, steps);
    hide Run, Replay, Winner, AllItems, Finished, WinnerAgrees, Contested;
    assert multiset([x, y]) == multiset(s.replays.tasks);
    SerialIff(blobs, steps, [x, y]);
    ReplayTwo(blobs, x, y);
    forall key
      ensures WinnerAgrees(s, [x, y], key) <==>
              (Contested(s.replays.tasks[0].items, s.replays.tasks[1].items, key) ==>
                 Winner(s.replays.history, key) == Some(b))
    {
      TwoAgree(blobs, steps, x, y, b, key);
      ContestedSymmetric(x.items, y.items, key);
    }
  }

  lemma ReplayTwo(blobs: Blobs, x: Batch, y: Batch)
    ensures Replay(blobs, AllItems([x, y])) == Replay(Replay(blobs, x.items), y.items)
  {
    assert [x] + [y] == [x, y];
    hide *;
    OneTask(x);
    ItemsSnoc([x], y);
    ReplayConcat(blobs, x.items, y.items);
  }

  lemma {:induction false} ReplayConcat(blobs: Blobs, a: seq<Saved>, b: seq<Saved>)
    ensures Replay(blobs, a + b) == Replay(Replay(blobs, a), b)
  {
    if b == [] {
      assert a + b == a;
    } else {
      ReplayConcat(blobs, a, b[..|b| - 1]);
      assert (a + b)[..|a + b| - 1] == a + b[..|b| - 1];
    }
  }

  /** Two overlapping replays leave what one after the other would have left, in one order or the
      other, exactly when one of them came last on every key they disagree about. */
  lemma TwoReplaysSerialIff(blobs: Blobs, steps: seq<Step>)
    requires Finished(Run(blobs, steps)) && |Run(blobs, steps).replays.tasks| == 2
    ensures var s := Run(blobs, steps);
            var a, b := s.replays.tasks[0].items, s.replays.tasks[1].items;
            (s.host == Replay(Replay(blobs, a), b) <==> WinsAll(s, 1)) &&
            (s.host == Replay(Replay(blobs, b), a) <==> WinsAll(s, 0))
  {
    hide *;
    var tasks := Run(blobs, steps).replays.tasks;
    assert tasks == [tasks[0], tasks[1]];
    TwoInOrder(blobs, steps, tasks[0], tasks[1], 1);
    TwoInOrder(blobs, steps, tasks[1], tasks[0], 0);
  }

  lemma RunSnoc(blobs: Blobs, steps: seq<Step>, step: Step)
    ensures Run(blobs, steps + [step]) == Apply(Run(blobs, steps), step)
  {}

  /** Two replays that disagree about two keys and cross over: each wins one key, and no order of the
      two would have left this store. */
  lemma CrossingLosesBothOrders(blobs: Blobs, p: Saved, q: Saved, p': Saved, q': Saved)
    requires p.Key() == p'.Key() && q.Key() == q'.Key() && p.Key() != q.Key()
    requires p.json != p'.json && q.json != q'.json
    ensures var s := Run(blobs, [Begin([p, q]), Begin([p', q']), Persist(0), Persist(1), Persist(1), Persist(0)]);
            Finished(s) && s.host == blobs[p.Key() := p'.json][q.Key() := q.json] &&
            s.host != Replay(Replay(blobs, [p, q]), [p', q']) &&
            s.host != Replay(Replay(blobs, [p', q']), [p, q])
  {
    CrossingRun(blobs, p, q, p', q');
    ReplayPair(blobs, p, q);
    ReplayPair(blobs, p', q');
    ReplayPair(Replay(blobs, [p, q]), p', q');
    ReplayPair(Replay(blobs, [p', q']), p, q);
    hide Run, Replay;
    var host := blobs[p.Key() := p'.json][q.Key() := q.json];
    var first, second := Replay(Replay(blobs, [p, q]), [p', q']), Replay(Replay(blobs, [p', q']), [p, q]);
    assert host[q.Key()] == q.json && first[q.Key()] == q'.json;
    assert host[p.Key()] == p'.json && second[p.Key()] == p.json;
  }

  lemma ReplayPair(blobs: Blobs, p: Saved, q: Saved)
    ensures Replay(blobs, [p, q]) == blobs[p.Key() := p.json][q.Key() := q.json]
  {
    ReplaySnoc(blobs, [p], q);
    ReplaySnoc(blobs, [], p);
    assert [p] + [q] == [p, q] && [] + [p] == [p] && Replay(blobs, []) == blobs;
  }

  lemma CrossingRun(blobs: Blobs, p: Saved, q: Saved, p': Saved, q': Saved)
    requires p.Key() == p'.Key() && q.Key() == q'.Key() && p.Key() != q.Key()
    ensures var s := Run(blobs, [Begin([p, q]), Begin([p', q']), Persist(0), Persist(1), Persist(1), Persist(0)]);
            Finished(s) && s.host == blobs[p.Key() := p'.json][q.Key() := q.json]
  {
    var a, b := Begin([p, q]), Begin([p', q']);
    var s := Apply(Apply(Init(blobs), a), b);
    assert s.replays.tasks == [Task([p, q], 0), Task([p', q'], 0)];
    CrossingSteps(s, p, q, p', q');
    assert Run(blobs, []) == Init(blobs);
    hide Run, Apply;
    RunTwo(blobs, [], a, b);
    RunTwo(blobs, [a, b], Persist(0), Persist(1));
    RunTwo(blobs, [a, b, Persist(0), Persist(1)], Persist(1), Persist(0));
    assert [] + [a, b] == [a, b];
    assert [a, b] + [Persist(0), Persist(1)] == [a, b, Persist(0), Persist(1)];
    assert [a, b, Persist(0), Persist(1)] + [Persist(1), Persist(0)] ==
           [a, b, Persist(0), Persist(1), Persist(1), Persist(0)];
  }

  lemma RunTwo(blobs: Blobs, steps: seq<Step>, x: Step, y: Step)
    ensures Run(blobs, steps + [x, y]) == Apply(Apply(Run(blobs, steps), x), y)
  {
    hide Run, Apply;
    RunSnoc(blobs, steps, x);
    RunSnoc(blobs, steps + [x], y);
    assert steps + [x, y] == steps + [x] + [y];
  }

  lemma CrossingSteps(s: State, p: Saved, q: Saved, p': Saved, q': Saved)
    requires s.replays.tasks == [Task([p, q], 0), Task([p', q'], 0)]
    requires p.Key() == p'.Key() && q.Key() == q'.Key() && p.Key() != q.Key()
    ensures var t := Apply(Apply(Apply(Apply(s, Persist(0)), Persist(1)), Persist(1)), Persist(0));
            Finished(t) && t.host == s.host[p.Key() := p'.json][q.Key() := q.json]
  {
    var t1 := Apply(s, Persist(0));
    assert t1.replays.tasks == [Task([p, q], 1), Task([p', q'], 0)];
    var t2 := Apply(t1, Persist(1));
    assert t2.replays.tasks == [Task([p, q], 1), Task([p', q'], 1)];
    var t3 := Apply(t2, Persist(1));
    assert t3.replays.tasks == [Task([p, q], 1), Task([p', q'], 2)];
    var t4 := Apply(t3, Persist(0));
    assert t4.replays.tasks == [Task([p, q], 2), Task([p', q'], 2)];
  }
}
