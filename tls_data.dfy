/**
 The thread-local-storage table as the interpreter holds it: one object whose
 fields the operations update in place. Every method is proved to take the
 table to the state, and to return the result, that the value-level model
 (modules Tls and TlsDtors) prescribes.
 */
module TlsMachine {
  import opened Tls
  import opened TlsDtors

  class TlsData {
    /** The key to hand out next. */
    var nextKey: Key
    /** pthread-style keys. */
    var keys: map<Key, TlsEntry>
    /** The single macOS thread-wide destructor of each thread, with its argument. */
    var threadDtors: map<ThreadId, (Instance, Scalar)>
    /** The threads whose destructors have started to run. */
    var dtorsRunning: set<ThreadId>
    /** The key of the pthread destructor last scheduled for each thread. */
    var lastDtorKey: map<ThreadId, Key>

    ghost function State(): TlsState
      reads this
    {
      TlsState(nextKey, keys, threadDtors, dtorsRunning, lastDtorKey)
    }

    constructor ()
      ensures State() == Default()
    {
      nextKey := 1;  // 0 is never a valid key on Windows
      keys := map[];
      threadDtors := map[];
      dtorsRunning := {};
      lastDtorKey := map[];
    }

    method CreateTlsKey(dtor: Option<Instance>, bits: nat) returns (r: Result<Key>)
      modifies this
      ensures var step := Tls.CreateTlsKey(old(State()), dtor, bits);
        State() == step.state && r == step.result
    {
      var newKey := nextKey;
      nextKey := nextKey + 1;
      keys := keys[newKey := TlsEntry(map[], dtor)];
      if bits < 128 && newKey >= Pow2(bits) {
        return Err(KeySpaceExhausted);
      }
      return Ok(newKey);
    }

    method DeleteTlsKey(key: Key) returns (r: Result<()>)
      modifies this
      ensures var step := Tls.DeleteTlsKey(old(State()), key);
        State() == step.state && r == step.result
    {
      if key in keys {
        keys := keys - {key};
        return Ok(());
      }
      return Err(DeleteMissingKey(key));
    }

    method LoadTls(key: Key, t: ThreadId) returns (r: Result<Option<Scalar>>)
      ensures r == Tls.LoadTls(State(), key, t)
      ensures r.Ok? <==> key in keys
      ensures r.Ok? ==> (r.value.Some? <==> t in keys[key].data)
    {
      if key in keys {
        var data := keys[key].data;
        if t in data {
          return Ok(Some(data[t]));
        }
        return Ok(None);
      }
      return Err(LoadMissingKey(key));
    }

    method StoreTls(key: Key, t: ThreadId, v: Option<Scalar>) returns (r: Result<()>)
      modifies this
      ensures var step := Tls.StoreTls(old(State()), key, t, v);
        State() == step.state && r == step.result
    {
      if key in keys {
        var entry := keys[key];
        match v {
          case Some(x) =>
            keys := keys[key := entry.(data := entry.data[t := x])];
          case None =>
            keys := keys[key := entry.(data := entry.data - {t})];
        }
        return Ok(());
      }
      return Err(StoreMissingKey(key));
    }

    method SetThreadDtor(t: ThreadId, dtor: Instance, data: Scalar) returns (r: Result<()>)
      modifies this
      ensures var step := Tls.SetThreadDtor(old(State()), t, dtor, data);
        State() == step.state && r == step.result
    {
      if t in dtorsRunning {
        return Err(DtorSetWhileRunning);
      }
      var hadOne := t in threadDtors;
      threadDtors := threadDtors[t := (dtor, data)];
      if hadOne {
        return Err(SecondThreadDtor);
      }
      return Ok(());
    }

    /** Walks the keys after `start` in ascending order, NULL-ing thread `t`'s
        value under each, and stops at the first of them that has a destructor. */
    method FetchTlsDtor(start: Option<Key>, t: ThreadId) returns (r: Option<Fetched>)
      modifies this
      ensures var step := TlsDtors.FetchTlsDtor(old(State()), start, t);
        State() == step.state && r == step.result
    {
      var pending := set k | k in keys && After(start, k);
      ghost var goal := FetchFrom(keys, pending, t);
      while pending != {}
        invariant pending <= keys.Keys
        invariant FetchFrom(keys, pending, t) == goal
        invariant State().(keys := old(keys)) == old(State())
        decreases pending
      {
        MinKeyExists(pending);
        var k :| k in pending && forall j :: j in pending ==> k <= j;
        assert k == MinKey(pending);
        pending := pending - {k};
        var entry := keys[k];
        if t in entry.data {
          var value := entry.data[t];
          keys := keys[k := entry.(data := entry.data - {t})];
          if entry.dtor.Some? {
            return Some(Fetched(entry.dtor.value, value, k));
          }
        }
      }
      return None;
    }

    method ScheduleMacosTlsDtor(t: ThreadId) returns (call: Option<Call>)
      modifies this
      ensures var step := TlsDtors.ScheduleMacosTlsDtor(old(State()), t);
        State() == step.state && call == step.result
    {
      if t in threadDtors {
        var (dtor, data) := threadDtors[t];
        threadDtors := threadDtors - {t};
        return Some(RunDtor(dtor, data));
      }
      return None;
    }

    method SchedulePthreadTlsDtors(t: ThreadId) returns (found: Option<Fetched>)
      modifies this
      ensures var step := TlsDtors.SchedulePthreadTlsDtors(old(State()), t);
        State() == step.state && found == step.result
    {
      var lastKey := if t in lastDtorKey then Some(lastDtorKey[t]) else None;
      found := FetchTlsDtor(lastKey, t);
      if found.None? {
        // every destructor ran once: start over from the beginning
        found := FetchTlsDtor(None, t);
      }
      if found.Some? {
        lastDtorKey := lastDtorKey[t := found.value.key];
        return;
      }
      lastDtorKey := lastDtorKey - {t};
    }

    method ScheduleNextTlsDtorForActiveThread(t: ThreadId, onWindows: bool) returns (calls: seq<Call>)
      modifies this
      ensures var step := TlsDtors.ScheduleNextTlsDtorForActiveThread(old(State()), t, onWindows);
        State() == step.state && calls == step.result
    {
      if onWindows {
        calls := [];
        if t !in dtorsRunning {
          dtorsRunning := dtorsRunning + {t};
          calls := [ThreadCallback];
        }
      } else {
        dtorsRunning := dtorsRunning + {t};
        var macos := ScheduleMacosTlsDtor(t);
        var pthread := SchedulePthreadTlsDtors(t);
        calls := (if macos.Some? then [macos.value] else []) + CallOf(pthread);
      }
    }
  }
}
