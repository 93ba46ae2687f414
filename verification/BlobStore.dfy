/**
  Content-addressed writes to a shared object store.

  A writer probes for the object, tries a conditional create down a ladder of attribute
  sets, and only when the backend cannot create conditionally probes again and overwrites.
  Each store request is one atomic step; any number of writers interleave, any request
  may fail, a failed request may or may not have taken effect, and a writer that stops
  (a crash, a dropped request) simply takes no further step.
*/
module BlobStore {
  import opened Wrappers
  import opened Bytes

  type Objects = map<string, Bytes>

  /** Backend failures, by the variants the writer tells apart. */
  datatype StoreError = NotSupported | NotImplemented | Generic | OtherError

  /** What befalls one store request: nothing, or a failure that did or did not take effect. */
  datatype Weather = Clear | Fault(error: StoreError, applied: bool)

  predicate UnsupportedCapability(e: StoreError) {
    e == NotSupported || e == NotImplemented
  }

  predicate ConditionalCreateUnsupported(e: StoreError) {
    UnsupportedCapability(e) || e == Generic
  }

  datatype PutMode = CreateMode | OverwriteMode

  /** Full attributes, content type only, none. */
  const RUNGS: nat := 3

  /** Existence probe: a failed probe reads as absent. */
  function Probed(objects: Objects, key: string, weather: Weather): bool {
    weather.Clear? && key in objects
  }

  /** Objects after a put, and its error; an object that already exists is not an error. */
  function Put(objects: Objects, key: string, data: Bytes, mode: PutMode, weather: Weather): (Objects, Option<StoreError>) {
    var written := if mode == CreateMode && key in objects then objects else objects[key := data];
    match weather
    case Clear => (written, None)
    case Fault(e, applied) => (if applied then written else objects, Some(e))
  }

  /* ---- One writer ---- */

  datatype Pc = Probe | Create(rung: nat) | Reprobe | Overwrite(rung: nat) | Stored | Failed(error: StoreError)

  datatype Writer = Writer(key: string, data: Bytes, pc: Pc)

  predicate Ended(pc: Pc) {
    pc.Stored? || pc.Failed?
  }

  /** Where a put on the ladder leads. */
  function AfterPut(mode: PutMode, rung: nat, error: Option<StoreError>): Pc {
    match error
    case None => Stored
    case Some(e) =>
      if UnsupportedCapability(e) && rung + 1 < RUNGS then
        if mode == CreateMode then Create(rung + 1) else Overwrite(rung + 1)
      else if mode == CreateMode && ConditionalCreateUnsupported(e) then Reprobe
      else Failed(e)
  }

  /** One atomic step of a writer. */
  function StepWriter(w: Writer, objects: Objects, weather: Weather): (Writer, Objects) {
    match w.pc
    case Probe => (w.(pc := if Probed(objects, w.key, weather) then Stored else Create(0)), objects)
    case Reprobe => (w.(pc := if Probed(objects, w.key, weather) then Stored else Overwrite(0)), objects)
    case Create(rung) =>
      var (after, error) := Put(objects, w.key, w.data, CreateMode, weather);
      (w.(pc := AfterPut(CreateMode, rung, error)), after)
    case Overwrite(rung) =>
      var (after, error) := Put(objects, w.key, w.data, OverwriteMode, weather);
      (w.(pc := AfterPut(OverwriteMode, rung, error)), after)
    case Stored => (w, objects)
    case Failed(_) => (w, objects)
  }

  /** The two errors that say a backend lacks a capability, and the one that may say so of a conditional create. */
  predicate IsUnsupported(e: StoreError) {
    e in {NotSupported, NotImplemented}
  }

  /**
    Where each answer leads a writer. A probe that works and finds the object ends the
    write, any other leads to the next ladder. On a ladder an unsupported capability leads
    to the next of three rungs; on the last rung of a conditional create it leads to the
    second probe, as a generic error does on any rung; every other failure ends the write.
  */
  lemma {:induction false} AnswersExactly(w: Writer, objects: Objects, weather: Weather, rung: nat)
    requires rung < 3
    ensures var found := weather.Clear? && w.key in objects;
            && StepWriter(w.(pc := Probe), objects, weather) == (w.(pc := if found then Stored else Create(0)), objects)
            && StepWriter(w.(pc := Reprobe), objects, weather) == (w.(pc := if found then Stored else Overwrite(0)), objects)
    ensures var next := StepWriter(w.(pc := Create(rung)), objects, weather).0.pc;
            match weather
            case Clear => next == Stored
            case Fault(e, _) =>
              next == if IsUnsupported(e) && rung < 2 then Create(rung + 1)
                      else if IsUnsupported(e) || e == Generic then Reprobe
                      else Failed(e)
    ensures var next := StepWriter(w.(pc := Overwrite(rung)), objects, weather).0.pc;
            match weather
            case Clear => next == Stored
            case Fault(e, _) => next == if IsUnsupported(e) && rung < 2 then Overwrite(rung + 1) else Failed(e)
  {
  }

  /** Did the request reach the store: a failed one may have. */
  predicate Reached(weather: Weather) {
    weather == Clear || (weather.Fault? && weather.applied)
  }

  /**
    What every request does to the store. A conditional create that reaches it stores the
    bytes exactly where nothing is stored yet, an overwrite always, also when the writer
    is told that the request failed; nothing else ever changes an object.
  */
  lemma {:induction false} EffectsExactly(w: Writer, objects: Objects, weather: Weather, rung: nat)
    ensures var after := StepWriter(w.(pc := Create(rung)), objects, weather).1;
            after == if Reached(weather) && w.key !in objects then objects[w.key := w.data] else objects
    ensures var after := StepWriter(w.(pc := Overwrite(rung)), objects, weather).1;
            after == if Reached(weather) then objects[w.key := w.data] else objects
    ensures w.pc in {Probe, Reprobe, Stored} || w.pc.Failed? ==> StepWriter(w, objects, weather).1 == objects
  {
  }

  /** Requests a writer can still issue, at most. */
  function StepsLeft(pc: Pc): nat {
    match pc
    case Probe => 2 * RUNGS + 2
    case Create(rung) => if rung < RUNGS then 2 * RUNGS + 1 - rung else RUNGS + 2
    case Reprobe => RUNGS + 1
    case Overwrite(rung) => if rung < RUNGS then RUNGS - rung else 1
    case _ => 0
  }

  /** A writer running alone to its end; the n-th request of the run meets `weather(n)`. */
  function RunAlone(w: Writer, objects: Objects, n: nat, weather: nat -> Weather): (Writer, Objects, nat)
    decreases StepsLeft(w.pc)
  {
    if Ended(w.pc) then (w, objects, n)
    else
      var (next, after) := StepWriter(w, objects, weather(n));
      RunAlone(next, after, n + 1, weather)
  }

  /** A writer alone always ends, and a blob write issues at most eight requests. */
  lemma {:induction false} WriteIsShort(w: Writer, objects: Objects, n: nat, weather: nat -> Weather)
    ensures var (last, _, requests) := RunAlone(w, objects, n, weather);
            && Ended(last.pc) && last.key == w.key && last.data == w.data
            && n <= requests <= n + StepsLeft(w.pc)
            && StepsLeft(Probe) == 8
    decreases StepsLeft(w.pc)
  {
    if !Ended(w.pc) {
      var (next, after) := StepWriter(w, objects, weather(n));
      WriteIsShort(next, after, n + 1, weather);
    }
  }

  /** The store client: what a caller of the blob write runs, request by request. */
  class ObjectStore {
    var objects: Objects
    /** Requests issued so far. */
    var requests: nat
    const weather: nat -> Weather

    constructor (objects: Objects, weather: nat -> Weather)
      ensures this.objects == objects && requests == 0 && this.weather == weather
    {
      this.objects, this.requests, this.weather := objects, 0, weather;
    }

    /** Reports an object only when it is there, and every object unless the probe fails. */
    method AlreadyStored(key: string) returns (stored: bool)
      modifies this`requests
      ensures requests == old(requests) + 1
      ensures stored ==> key in objects
      ensures weather(old(requests)).Clear? && key in objects ==> stored
      ensures weather(old(requests)).Fault? ==> !stored
    {
      match weather(requests) {
        case Clear => stored := key in objects;
        case Fault(_, _) => stored := false;
      }
      requests := requests + 1;
    }

    /**
      Without an error the object is there, and holds `data` unless a create found another
      one; a create never touches an object that exists; no other object is ever touched.
    */
    method PutOnce(key: string, data: Bytes, mode: PutMode) returns (error: Option<StoreError>)
      modifies this
      ensures requests == old(requests) + 1
      ensures (objects, error) == Put(old(objects), key, data, mode, weather(old(requests)))
      ensures error.None? ==> key in objects
      ensures error.None? && (mode == OverwriteMode || key !in old(objects)) ==> objects[key] == data
      ensures mode == CreateMode && key in old(objects) ==> objects == old(objects)
      ensures key in objects && (key !in old(objects) || objects[key] != old(objects)[key]) ==> objects[key] == data
      ensures objects - {key} == old(objects) - {key}
    {
      var met := weather(requests);
      requests := requests + 1;
      if met.Fault? && !met.applied {
        return Some(met.error);
      }
      if mode == OverwriteMode || key !in objects {
        objects := objects[key := data];
      }
      error := if met.Fault? then Some(met.error) else None;
    }

    /** Down the attribute ladder, as long as the backend only lacks a capability. */
    method PutRungs(key: string, data: Bytes, mode: PutMode) returns (error: Option<StoreError>)
      modifies this
      ensures var first := Writer(key, data, if mode == CreateMode then Create(0) else Overwrite(0));
              var last := Writer(key, data, AfterPut(mode, RUNGS, error));
              RunAlone(first, old(objects), old(requests), weather) == RunAlone(last, objects, requests, weather)
    {
      ghost var first := Writer(key, data, if mode == CreateMode then Create(0) else Overwrite(0));
      ghost var target := RunAlone(first, objects, requests, weather);
      for rung := 0 to RUNGS - 1
        invariant RunAlone(Writer(key, data, if mode == CreateMode then Create(rung) else Overwrite(rung)), objects, requests, weather) == target
      {
        error := PutOnce(key, data, mode);
        if error.None? {
          return;
        }
        if !UnsupportedCapability(error.value) {
          return;
        }
      }
      error := PutOnce(key, data, mode);
    }

    /** The blob write: exactly the steps of a writer that starts at its first probe. */
    method PutBlob(key: string, data: Bytes) returns (error: Option<StoreError>)
      modifies this
      ensures var last := Writer(key, data, if error.None? then Stored else Failed(error.value));
              RunAlone(Writer(key, data, Probe), old(objects), old(requests), weather) == (last, objects, requests)
    {
      var stored := AlreadyStored(key);
      if stored {
        return None;
      }
      error := PutRungs(key, data, CreateMode);
      if error.None? || !ConditionalCreateUnsupported(error.value) {
        return;
      }
      stored := AlreadyStored(key);
      if stored {
        return None;
      }
      error := PutRungs(key, data, OverwriteMode);
    }
  }

  /* ---- Any number of writers ---- */

  datatype System = System(objects: Objects, writers: seq<Writer>)

  /** Which writer takes the next step, and what its request meets. */
  datatype Action = Action(writer: nat, weather: Weather)

  function Step(s: System, a: Action): (r: System)
    ensures |r.writers| == |s.writers|
  {
    if a.writer >= |s.writers| then s
    else
      var (w, objects) := StepWriter(s.writers[a.writer], s.objects, a.weather);
      System(objects, s.writers[a.writer := w])
  }

  /** The state after any interleaving; every run is some list of actions. */
  function Exec(s: System, actions: seq<Action>): (r: System)
    ensures |r.writers| == |s.writers|
    decreases |actions|
  {
    if actions == [] then s else Exec(Step(s, actions[0]), actions[1..])
  }

  /** Nobody deletes, and a writer keeps its key and its data. */
  lemma {:induction false} ExecKeeps(s: System, actions: seq<Action>)
    ensures var r := Exec(s, actions);
            && s.objects.Keys <= r.objects.Keys
            && forall i | 0 <= i < |s.writers| :: r.writers[i].key == s.writers[i].key && r.writers[i].data == s.writers[i].data
    decreases |actions|
  {
    if actions != [] {
      ExecKeeps(Step(s, actions[0]), actions[1..]);
    }
  }

  ghost predicate SuccessMeansStored(s: System) {
    forall i | 0 <= i < |s.writers| :: s.writers[i].pc.Stored? ==> s.writers[i].key in s.objects
  }

  /** A successful write means that the object is there, in every reachable state from then on. */
  lemma {:induction false} SuccessIsPresence(s: System, actions: seq<Action>)
    requires SuccessMeansStored(s)
    ensures SuccessMeansStored(Exec(s, actions))
    decreases |actions|
  {
    if actions != [] {
      SuccessIsPresence(Step(s, actions[0]), actions[1..]);
    }
  }

  predicate Careful(pc: Pc) {
    !pc.Reprobe? && !pc.Overwrite?
  }

  /** No conditional create of writer `i` in this run fails for lack of the capability. */
  predicate CreatesWorkFor(s: System, actions: seq<Action>, i: nat)
    decreases |actions|
  {
    if actions == [] then true
    else
      var a := actions[0];
      && (a.writer == i && i < |s.writers| && s.writers[i].pc.Create? && a.weather.Fault? ==>
            !ConditionalCreateUnsupported(a.weather.error))
      && CreatesWorkFor(Step(s, a), actions[1..], i)
  }

  /** Any other failure ends the write: it never leads to an overwrite. */
  lemma {:induction false} OverwriteNeedsMissingCapability(s: System, actions: seq<Action>, i: nat)
    requires i < |s.writers| && Careful(s.writers[i].pc) && CreatesWorkFor(s, actions, i)
    ensures Careful(Exec(s, actions).writers[i].pc)
    decreases |actions|
  {
    if actions != [] {
      OverwriteNeedsMissingCapability(Step(s, actions[0]), actions[1..], i);
    }
  }

  /** A writer that has ended stays ended. */
  lemma {:induction false} EndIsFinal(s: System, actions: seq<Action>, i: nat)
    requires i < |s.writers| && Ended(s.writers[i].pc)
    ensures Exec(s, actions).writers[i] == s.writers[i]
    decreases |actions|
  {
    if actions != [] {
      EndIsFinal(Step(s, actions[0]), actions[1..], i);
    }
  }

  /**
    Write-once. Where conditional creates work for every writer of a key, the first bytes
    stored under it never change, whatever later writers pass.
  */
  lemma {:induction false} FirstWriteWins(s: System, actions: seq<Action>, key: string)
    requires key in s.objects
    requires forall i | 0 <= i < |s.writers| && s.writers[i].key == key ::
               Careful(s.writers[i].pc) && CreatesWorkFor(s, actions, i)
    ensures key in Exec(s, actions).objects && Exec(s, actions).objects[key] == s.objects[key]
    decreases |actions|
  {
    if actions != [] {
      var a := actions[0];
      var next := Step(s, a);
      forall i | 0 <= i < |next.writers| && next.writers[i].key == key
        ensures Careful(next.writers[i].pc) && CreatesWorkFor(next, actions[1..], i)
      {
        assert s.writers[i].key == key;
        assert CreatesWorkFor(s, actions, i);
      }
      FirstWriteWins(next, actions[1..], key);
    }
  }

  /** No second probe for `key` fails in this run. */
  predicate ReprobesWorkFor(s: System, actions: seq<Action>, key: string)
    decreases |actions|
  {
    if actions == [] then true
    else
      var a := actions[0];
      && (a.writer < |s.writers| && s.writers[a.writer].key == key && s.writers[a.writer].pc.Reprobe? ==> a.weather.Clear?)
      && ReprobesWorkFor(Step(s, a), actions[1..], key)
  }

  /**
    Why the writer probes again. On any backend, whatever the other requests meet, an
    object that is there before anyone has gone past the second probe is never replaced,
    as long as the second probes themselves do not fail.
  */
  lemma {:induction false} LateWritersNeverReplace(s: System, actions: seq<Action>, key: string)
    requires key in s.objects && ReprobesWorkFor(s, actions, key)
    requires forall i | 0 <= i < |s.writers| && s.writers[i].key == key :: !s.writers[i].pc.Overwrite?
    ensures key in Exec(s, actions).objects && Exec(s, actions).objects[key] == s.objects[key]
    decreases |actions|
  {
    if actions != [] {
      var next := Step(s, actions[0]);
      forall i | 0 <= i < |next.writers| && next.writers[i].key == key
        ensures !next.writers[i].pc.Overwrite?
      {
        assert s.writers[i].key == key;
      }
      LateWritersNeverReplace(next, actions[1..], key);
    }
  }

  /** Every writer of `key` passes `data`, and whatever is stored under it is `data`. */
  ghost predicate Unanimous(s: System, key: string, data: Bytes) {
    && (forall i | 0 <= i < |s.writers| :: s.writers[i].key == key ==> s.writers[i].data == data)
    && (key in s.objects ==> s.objects[key] == data)
  }

  /**
    Without conditional creates the stored bytes still cannot change as long as all writers
    of the key pass the same bytes, under every interleaving and every failure.
  */
  lemma {:induction false} UnanimousWritesNeverChange(s: System, actions: seq<Action>, key: string, data: Bytes)
    requires Unanimous(s, key, data)
    ensures Unanimous(Exec(s, actions), key, data)
    decreases |actions|
  {
    if actions != [] {
      var a := actions[0];
      var next := Step(s, a);
      assert forall i | 0 <= i < |s.writers| :: next.writers[i].key == s.writers[i].key && next.writers[i].data == s.writers[i].data;
      UnanimousWritesNeverChange(next, actions[1..], key, data);
    }
  }

  /** Whatever is stored was there before or was passed by a writer of that key. */
  ghost predicate Sourced(s: System, key: string, value: Bytes) {
    || (key in s.objects && s.objects[key] == value)
    || exists i :: 0 <= i < |s.writers| && s.writers[i].key == key && s.writers[i].data == value
  }

  lemma {:induction false} StoredBytesAreSourced(s: System, actions: seq<Action>, key: string)
    requires key in Exec(s, actions).objects
    ensures Sourced(s, key, Exec(s, actions).objects[key])
    decreases |actions|
  {
    if actions != [] {
      var next := Step(s, actions[0]);
      StoredBytesAreSourced(next, actions[1..], key);
      var value := Exec(s, actions).objects[key];
      assert forall i | 0 <= i < |s.writers| :: next.writers[i].key == s.writers[i].key && next.writers[i].data == s.writers[i].data;
      if key in next.objects && next.objects[key] == value {
        if !(key in s.objects && s.objects[key] == value) {
          assert s.writers[actions[0].writer].key == key;
        }
      } else {
        var i :| 0 <= i < |next.writers| && next.writers[i].key == key && next.writers[i].data == value;
        assert s.writers[i].key == key;
      }
    }
  }

  /* ---- Write-once, exactly ---- */

  lemma {:induction false} ExecConcat(s: System, a: seq<Action>, b: seq<Action>)
    ensures Exec(s, a + b) == Exec(Exec(s, a), b)
    decreases |a|
  {
    if a == [] {
      assert a + b == b;
    } else {
      assert (a + b)[1..] == a[1..] + b;
      ExecConcat(Step(s, a[0]), a[1..], b);
    }
  }

  /** From some state on, `key` holds the bytes it held there. */
  predicate SameBytes(before: Objects, after: Objects, key: string) {
    key in before ==> key in after && after[key] == before[key]
  }

  /** No run of `s` ever replaces bytes that were stored under `key`, at any point of it. */
  ghost predicate NeverReplaces(s: System, key: string) {
    forall actions, more :: SameBytes(Exec(s, actions).objects, Exec(Exec(s, actions), more).objects, key)
  }

  /** The same for the runs in which no second probe for `key` fails. */
  ghost predicate NeverReplacesWhileProbesWork(s: System, key: string) {
    forall actions, more | ReprobesWorkFor(s, actions + more, key) ::
      SameBytes(Exec(s, actions).objects, Exec(Exec(s, actions), more).objects, key)
  }

  /** No writer of `key` has issued a request yet. */
  predicate AllAtProbe(s: System, key: string) {
    forall i | 0 <= i < |s.writers| :: s.writers[i].key == key ==> s.writers[i].pc == Probe
  }

  /** All writers of `key` and the object stored under it have the same bytes. */
  ghost predicate Agreed(s: System, key: string) {
    exists data :: Unanimous(s, key, data)
  }

  /** A failure of a conditional create that the writer takes for a missing capability. */
  const REJECT := Fault(Generic, false)

  /** One writer's way past the object: failed probe, rejected create, failed second probe, overwrite. */
  const BLUNDER := [REJECT, REJECT, REJECT, Clear]

  /** The run of one writer through a list of outcomes, as far as its own steps go. */
  function Alone(w: Writer, objects: Objects, weathers: seq<Weather>): (Writer, Objects)
    decreases |weathers|
  {
    if weathers == [] then (w, objects)
    else
      var (next, after) := StepWriter(w, objects, weathers[0]);
      Alone(next, after, weathers[1..])
  }

  function ActionsOf(i: nat, weathers: seq<Weather>): seq<Action> {
    if weathers == [] then [] else [Action(i, weathers[0])] + ActionsOf(i, weathers[1..])
  }

  /** While only one writer acts, the system does what that writer does alone. */
  lemma {:induction false} ExecAlone(s: System, i: nat, weathers: seq<Weather>)
    requires i < |s.writers|
    ensures var (w, objects) := Alone(s.writers[i], s.objects, weathers);
            Exec(s, ActionsOf(i, weathers)) == System(objects, s.writers[i := w])
    decreases |weathers|
  {
    hide StepWriter;
    if weathers == [] {
      assert s.writers[i := s.writers[i]] == s.writers;
    } else {
      var actions := ActionsOf(i, weathers);
      var next := Step(s, actions[0]);
      assert actions[1..] == ActionsOf(i, weathers[1..]);
      ExecAlone(next, i, weathers[1..]);
      var (w, _) := Alone(s.writers[i], s.objects, weathers);
      assert next.writers[i := w] == s.writers[i := w];
    }
  }

  lemma {:induction false} BlunderReplaces(w: Writer, objects: Objects)
    requires w.pc == Probe
    ensures Alone(w, objects, BLUNDER) == (w.(pc := Stored), objects[w.key := w.data])
  {
    var (w1, o1) := StepWriter(w, objects, REJECT);
    var (w2, o2) := StepWriter(w1, o1, REJECT);
    var (w3, o3) := StepWriter(w2, o2, REJECT);
    assert w3 == w.(pc := Overwrite(0)) && o3 == objects;
    var b1, b2, b3 := BLUNDER[1..], BLUNDER[2..], BLUNDER[3..];
    assert b1[1..] == b2 && b2[1..] == b3 && b3[1..] == [];
    assert Alone(w3, o3, b3) == StepWriter(w3, o3, Clear);
    assert Alone(w2, o2, b2) == Alone(w3, o3, b3);
    assert Alone(w1, o1, b1) == Alone(w2, o2, b2);
  }

  lemma {:induction false} AloneStep(w: Writer, objects: Objects, weather: Weather, rest: seq<Weather>)
    ensures var (next, after) := StepWriter(w, objects, weather);
            Alone(w, objects, [weather] + rest) == Alone(next, after, rest)
  {
    hide StepWriter;
    assert ([weather] + rest)[1..] == rest;
  }

  /**
    On a backend without conditional creates, whichever error says so, a write of a key
    that is not stored ends with an overwrite and its bytes stored.
  */
  lemma {:induction false} CapabilityErrorsOverwrite(w: Writer, objects: Objects, e: StoreError)
    requires w.pc == Probe && w.key !in objects && e in {NotSupported, NotImplemented, Generic}
    ensures var rejected := Fault(e, false);
            var answers := [Clear] + ((if e == Generic then [rejected] else [rejected, rejected, rejected]) + [Clear, Clear]);
            Alone(w, objects, answers) == (w.(pc := Stored), objects[w.key := w.data])
  {
    hide Alone;
    var rejected, overwrite := Fault(e, false), [Clear, Clear];
    assert [Clear] + [Clear] == overwrite;
    var stored := objects[w.key := w.data];
    AloneStep(w.(pc := Reprobe), objects, Clear, [Clear]);
    assert [Clear] + [] == [Clear];
    AloneStep(w.(pc := Overwrite(0)), objects, Clear, []);
    NothingAlone(w.(pc := Stored), stored);
    AnswersExactly(w, objects, Clear, 0);
    assert Alone(w.(pc := Reprobe), objects, overwrite) == (w.(pc := Stored), stored);
    if e == Generic {
      AloneStep(w, objects, Clear, [rejected] + overwrite);
      AloneStep(w.(pc := Create(0)), objects, rejected, overwrite);
    } else {
      assert [rejected, rejected, rejected] + overwrite == [rejected] + ([rejected] + ([rejected] + overwrite));
      AloneStep(w, objects, Clear, [rejected] + ([rejected] + ([rejected] + overwrite)));
      AloneStep(w.(pc := Create(0)), objects, rejected, [rejected] + ([rejected] + overwrite));
      AloneStep(w.(pc := Create(1)), objects, rejected, [rejected] + overwrite);
      AloneStep(w.(pc := Create(2)), objects, rejected, overwrite);
    }
  }

  lemma {:induction false} NothingAlone(w: Writer, objects: Objects)
    ensures Alone(w, objects, []) == (w, objects)
  {
  }

  lemma {:induction false} FirstWriteStores(w: Writer, objects: Objects)
    requires w.pc == Probe && w.key !in objects
    ensures Alone(w, objects, [Clear, Clear]) == (w.(pc := Stored), objects[w.key := w.data])
  {
    assert [Clear, Clear][1..] == [Clear] && [Clear][1..] == [];
  }

  /** A single writer replaces a stored object it disagrees with, given three failed requests. */
  lemma {:induction false} LoneWriterReplaces(s: System, key: string, i: nat)
    requires key in s.objects && i < |s.writers| && s.writers[i].key == key && s.writers[i].pc == Probe
    requires s.writers[i].data != s.objects[key]
    ensures !SameBytes(s.objects, Exec(s, ActionsOf(i, BLUNDER)).objects, key)
  {
    hide Exec, Alone;
    ExecAlone(s, i, BLUNDER);
    BlunderReplaces(s.writers[i], s.objects);
  }

  lemma {:induction false} AgreedNeverReplaces(s: System, key: string)
    requires Agreed(s, key)
    ensures NeverReplaces(s, key)
  {
    hide Exec;
    var data :| Unanimous(s, key, data);
    forall actions, more
      ensures SameBytes(Exec(s, actions).objects, Exec(Exec(s, actions), more).objects, key)
    {
      var t := Exec(s, actions);
      UnanimousWritesNeverChange(s, actions, key, data);
      UnanimousWritesNeverChange(t, more, key, data);
      ExecKeeps(t, more);
    }
  }

  /** Without agreement there is a writer and an object, or there are two writers, that disagree. */
  lemma {:induction false} DisagreementHasWitness(s: System, key: string) returns (i: nat, j: nat)
    requires !Agreed(s, key)
    ensures i < |s.writers| && j < |s.writers| && s.writers[i].key == key && s.writers[j].key == key
    ensures if key in s.objects then s.writers[j].data != s.objects[key] else s.writers[i].data != s.writers[j].data
  {
    var data := [];
    i := 0;
    if key in s.objects {
      data := s.objects[key];
    } else {
      assert !Unanimous(s, key, []);
      i :| i < |s.writers| && s.writers[i].key == key;
      data := s.writers[i].data;
    }
    assert !Unanimous(s, key, data);
    j :| j < |s.writers| && s.writers[j].key == key && s.writers[j].data != data;
    if key in s.objects {
      i := j;
    }
  }

  /**
    Main result, both ways. For any store and any writers that have not started on `key`,
    no run replaces bytes stored under it if and only if all writers of `key`, and the
    object that is there already, have the same bytes.
  */
  lemma {:induction false} WriteOnceIsAgreement(s: System, key: string)
    requires AllAtProbe(s, key)
    ensures NeverReplaces(s, key) <==> Agreed(s, key)
  {
    if Agreed(s, key) {
      AgreedNeverReplaces(s, key);
    } else {
      hide Exec, Alone, Unanimous;
      var i, j := DisagreementHasWitness(s, key);
      if key in s.objects {
        LoneWriterReplaces(s, key, j);
        assert Exec(s, []) == s by { ExecNothing(s); }
        assert !SameBytes(Exec(s, []).objects, Exec(Exec(s, []), ActionsOf(j, BLUNDER)).objects, key);
      } else {
        var first := ActionsOf(i, [Clear, Clear]);
        ExecAlone(s, i, [Clear, Clear]);
        FirstWriteStores(s.writers[i], s.objects);
        LoneWriterReplaces(Exec(s, first), key, j);
        assert !SameBytes(Exec(s, first).objects, Exec(Exec(s, first), ActionsOf(j, BLUNDER)).objects, key);
      }
    }
  }

  lemma {:induction false} ExecNothing(s: System)
    ensures Exec(s, []) == s
  {
  }

  /* ---- Two writers that disagree ---- */

  /** `s` with writers `i` and `j` and the objects as given. */
  function At(s: System, i: nat, pi: Pc, j: nat, pj: Pc, objects: Objects): System
    requires i < |s.writers| && j < |s.writers|
  {
    System(objects, s.writers[i := s.writers[i].(pc := pi)][j := s.writers[j].(pc := pj)])
  }

  lemma {:induction false} StepAt(s: System, i: nat, pi: Pc, j: nat, pj: Pc, objects: Objects, weather: Weather, next: Pc, after: Objects)
    requires i < |s.writers| && j < |s.writers| && i != j
    ensures StepWriter(s.writers[i].(pc := pi), objects, weather) == (s.writers[i].(pc := next), after) ==>
              Step(At(s, i, pi, j, pj, objects), Action(i, weather)) == At(s, i, next, j, pj, after)
    ensures StepWriter(s.writers[j].(pc := pj), objects, weather) == (s.writers[j].(pc := next), after) ==>
              Step(At(s, i, pi, j, pj, objects), Action(j, weather)) == At(s, i, pi, j, next, after)
  {
    hide StepWriter;
    var t := At(s, i, pi, j, pj, objects);
    assert t.writers[i] == s.writers[i].(pc := pi) && t.writers[j] == s.writers[j].(pc := pj);
    assert t.writers[i := s.writers[i].(pc := next)] == At(s, i, next, j, pj, after).writers;
    assert t.writers[j := s.writers[j].(pc := next)] == At(s, i, pi, j, next, after).writers;
  }

  /** The action is no second probe for `key`, or it works. */
  predicate ProbesWell(s: System, a: Action, key: string) {
    a.writer < |s.writers| && s.writers[a.writer].key == key && s.writers[a.writer].pc.Reprobe? ==> a.weather.Clear?
  }

  lemma {:induction false} WorkOne(s: System, a: Action, rest: seq<Action>, key: string)
    ensures ReprobesWorkFor(s, [a] + rest, key) <==> ProbesWell(s, a, key) && ReprobesWorkFor(Step(s, a), rest, key)
  {
    assert ([a] + rest)[1..] == rest;
  }

  /** Both writers create in vain, both see nothing stored, and then both overwrite. */
  function Race(i: nat, j: nat): seq<Action> {
    [Action(i, Clear), Action(j, Clear), Action(i, REJECT), Action(j, REJECT), Action(i, Clear), Action(j, Clear), Action(i, Clear)]
  }

  /**
    On a backend that rejects conditional creates, any two writers of one key that
    disagree can replace each other's bytes, in any system in which the key is not yet
    stored, and without a single failed probe.
  */
  lemma {:induction false} DisagreeingWritersReplace(s: System, key: string, i: nat, j: nat)
    requires i < |s.writers| && j < |s.writers| && key !in s.objects
    requires s.writers[i].key == key && s.writers[i].pc == Probe
    requires s.writers[j].key == key && s.writers[j].pc == Probe
    requires s.writers[i].data != s.writers[j].data
    ensures var t := Exec(s, Race(i, j));
            var u := Exec(t, [Action(j, Clear)]);
            && t.writers[i].pc == Stored && key in t.objects && t.objects[key] == s.writers[i].data
            && u.writers[j].pc == Stored && key in u.objects && u.objects[key] == s.writers[j].data
    ensures ReprobesWorkFor(s, Race(i, j) + [Action(j, Clear)], key)
  {
    hide Exec, Step, ReprobesWorkFor, At;
    var o, stored := s.objects, s.objects[key := s.writers[i].data];
    var last := Action(j, Clear);
    assert s == At(s, i, Probe, j, Probe, o) by { AtProbe(s, i, j); }
    StepAt(s, i, Probe, j, Probe, o, Clear, Create(0), o);
    var s1 := At(s, i, Create(0), j, Probe, o);
    StepAt(s, i, Create(0), j, Probe, o, Clear, Create(0), o);
    var s2 := At(s, i, Create(0), j, Create(0), o);
    StepAt(s, i, Create(0), j, Create(0), o, REJECT, Reprobe, o);
    var s3 := At(s, i, Reprobe, j, Create(0), o);
    StepAt(s, i, Reprobe, j, Create(0), o, REJECT, Reprobe, o);
    var s4 := At(s, i, Reprobe, j, Reprobe, o);
    StepAt(s, i, Reprobe, j, Reprobe, o, Clear, Overwrite(0), o);
    var s5 := At(s, i, Overwrite(0), j, Reprobe, o);
    StepAt(s, i, Overwrite(0), j, Reprobe, o, Clear, Overwrite(0), o);
    var s6 := At(s, i, Overwrite(0), j, Overwrite(0), o);
    StepAt(s, i, Overwrite(0), j, Overwrite(0), o, Clear, Stored, stored);
    var s7 := At(s, i, Stored, j, Overwrite(0), stored);
    StepAt(s, i, Stored, j, Overwrite(0), stored, Clear, Stored, stored[key := s.writers[j].data]);
    var s8 := At(s, i, Stored, j, Stored, stored[key := s.writers[j].data]);
    AtPcs(s, i, Create(0), j, Create(0), o);
    AtPcs(s, i, Reprobe, j, Create(0), o);
    var race := Race(i, j);
    Along([s, s1, s2, s3, s4, s5, s6, s7], race, key);
    Along([s, s1, s2, s3, s4, s5, s6, s7, s8], race + [last], key);
    ExecConcat(s, race, [last]);
    AtPcs(s, i, Stored, j, Overwrite(0), stored);
    AtPcs(s, i, Stored, j, Stored, stored[key := s.writers[j].data]);
  }

  lemma {:induction false} AtProbe(s: System, i: nat, j: nat)
    requires i < |s.writers| && j < |s.writers| && s.writers[i].pc == Probe && s.writers[j].pc == Probe
    ensures s == At(s, i, Probe, j, Probe, s.objects)
  {
    assert s.writers[i].(pc := Probe) == s.writers[i] && s.writers[j].(pc := Probe) == s.writers[j];
    assert s.writers == At(s, i, Probe, j, Probe, s.objects).writers;
  }

  lemma {:induction false} AtPcs(s: System, i: nat, pi: Pc, j: nat, pj: Pc, objects: Objects)
    requires i < |s.writers| && j < |s.writers| && i != j
    ensures var t := At(s, i, pi, j, pj, objects);
            |t.writers| == |s.writers| && t.writers[i].pc == pi && t.writers[j].pc == pj && t.objects == objects
  {
  }

  /** A run read off its states, in which every second probe works. */
  lemma {:induction false} Along(states: seq<System>, actions: seq<Action>, key: string)
    requires |states| == |actions| + 1
    requires forall k | 0 <= k < |actions| :: Step(states[k], actions[k]) == states[k + 1] && ProbesWell(states[k], actions[k], key)
    ensures Exec(states[0], actions) == states[|actions|] && ReprobesWorkFor(states[0], actions, key)
    decreases |actions|
  {
    hide Step, ProbesWell;
    if actions != [] {
      var later, rest := states[1..], actions[1..];
      assert actions == [actions[0]] + rest;
      forall k | 0 <= k < |rest|
        ensures Step(later[k], rest[k]) == later[k + 1] && ProbesWell(later[k], rest[k], key)
      {
        assert Step(states[k + 1], actions[k + 1]) == states[k + 2] && ProbesWell(states[k + 1], actions[k + 1], key);
      }
      Along(later, rest, key);
      WorkOne(states[0], actions[0], rest, key);
    }
  }

  lemma {:induction false} WorksForPrefix(s: System, a: seq<Action>, b: seq<Action>, key: string)
    requires ReprobesWorkFor(s, a + b, key)
    ensures ReprobesWorkFor(s, a, key)
    decreases |a|
  {
    if a != [] {
      assert (a + b)[0] == a[0] && (a + b)[1..] == a[1..] + b;
      WorksForPrefix(Step(s, a[0]), a[1..], b, key);
    }
  }

  lemma {:induction false} StoredIsNeverReplaced(s: System, key: string)
    requires AllAtProbe(s, key) && key in s.objects
    ensures NeverReplacesWhileProbesWork(s, key)
  {
    hide Exec, ReprobesWorkFor;
    forall actions, more | ReprobesWorkFor(s, actions + more, key)
      ensures SameBytes(Exec(s, actions).objects, Exec(Exec(s, actions), more).objects, key)
    {
      WorksForPrefix(s, actions, more, key);
      LateWritersNeverReplace(s, actions, key);
      LateWritersNeverReplace(s, actions + more, key);
      ExecConcat(s, actions, more);
    }
  }

  /**
    Main result, both ways: what the second probe buys. Over the runs in which no second
    probe fails, stored bytes are never replaced if and only if the object is there from
    the start or all writers of `key` have the same bytes.
  */
  lemma {:induction false} ProbesProtectStored(s: System, key: string)
    requires AllAtProbe(s, key)
    ensures NeverReplacesWhileProbesWork(s, key) <==> key in s.objects || Agreed(s, key)
  {
    hide Exec, ReprobesWorkFor, Unanimous;
    if Agreed(s, key) {
      AgreedNeverReplaces(s, key);
    } else if key in s.objects {
      StoredIsNeverReplaced(s, key);
    } else {
      var i, j := DisagreementHasWitness(s, key);
      DisagreeingWritersReplace(s, key, i, j);
      var race, last := Race(i, j), [Action(j, Clear)];
      assert !SameBytes(Exec(s, race).objects, Exec(Exec(s, race), last).objects, key);
    }
  }
}
