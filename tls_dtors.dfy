/**
 Destructor scheduling for thread exit, as a specification over table values.

 At thread exit every key whose destructor is set and whose value for the
 exiting thread is non-NULL has that value set to NULL and the destructor
 called with the old value; the whole pass is repeated while such values
 remain (the `pthread_key_create` description in the System Interfaces volume
 of POSIX.1). Keys are visited in ascending order, one destructor per
 scheduling step. On macOS the single thread-wide destructor of the thread
 is scheduled (pushed) before the pthread destructor of the same step.
 */
module TlsDtors {
  import opened Tls

  /** `k` lies strictly after `start`; every key lies after `None`. */
  predicate After(start: Option<Key>, k: Key) {
    start.None? || start.value < k
  }

  /** The keys of `keys` that lie strictly after `start`. */
  function KeysAfter(keys: map<Key, TlsEntry>, start: Option<Key>): (ks: set<Key>)
    ensures forall k :: k in ks <==> k in keys && After(start, k)
  {
    set k | k in keys && After(start, k)
  }

  /** Key `k` has a destructor and a non-NULL value for thread `t`. */
  predicate HasDtorFor(keys: map<Key, TlsEntry>, k: Key, t: ThreadId) {
    k in keys && t in keys[k].data && keys[k].dtor.Some?
  }

  /** No key among `ks` has both a destructor and a value for `t`. */
  ghost predicate NoDtorAmong(keys: map<Key, TlsEntry>, t: ThreadId, ks: set<Key>) {
    forall k :: k in ks ==> !HasDtorFor(keys, k, t)
  }

  /** A destructor to call, the value to pass it, and the key it belongs to. */
  datatype Fetched = Fetched(dtor: Instance, value: Scalar, key: Key)

  /** The key map after a fetch, and the destructor the fetch found, if any. */
  datatype FetchStep = FetchStep(keys: map<Key, TlsEntry>, found: Option<Fetched>)

  /** `f` describes the smallest key among `ks` that has a destructor and a value for `t`. */
  ghost predicate IsFirstDtor(keys: map<Key, TlsEntry>, t: ThreadId, ks: set<Key>, f: Fetched) {
    && f.key in ks
    && HasDtorFor(keys, f.key, t)
    && keys[f.key].dtor == Some(f.dtor)
    && keys[f.key].data[t] == f.value
    && forall k :: k in ks && k < f.key ==> !HasDtorFor(keys, k, t)
  }

  /** `keys` with thread `t`'s value set to NULL under every key in `ks`. */
  function ClearThread(keys: map<Key, TlsEntry>, t: ThreadId, ks: set<Key>): (r: map<Key, TlsEntry>)
    ensures r.Keys == keys.Keys
  {
    map k | k in keys :: if k in ks then keys[k].(data := keys[k].data - {t}) else keys[k]
  }

  /** The keys of `ks` that a fetch visits before it stops with `found`. */
  ghost function VisitedUpTo(ks: set<Key>, found: Option<Fetched>): set<Key> {
    if found.None? then ks else set k | k in ks && k <= found.value.key
  }

  /** `keys'` differs from `keys` at most by NULL-ing values of thread `t`. */
  ghost predicate OnlyClears(keys: map<Key, TlsEntry>, keys': map<Key, TlsEntry>, t: ThreadId) {
    && keys'.Keys == keys.Keys
    && forall k :: k in keys ==>
         keys'[k].dtor == keys[k].dtor
         && (keys'[k].data == keys[k].data || keys'[k].data == keys[k].data - {t})
  }

  /** The number of keys under which thread `t` holds a value. */
  ghost function ThreadValueCount(keys: map<Key, TlsEntry>, t: ThreadId): nat {
    |set k | k in keys && t in keys[k].data|
  }

  ghost function MinKey(ks: set<Key>): (m: Key)
    requires ks != {}
    ensures m in ks && forall k :: k in ks ==> m <= k
  {
    MinKeyExists(ks);
    var m :| m in ks && forall k :: k in ks ==> m <= k;
    m
  }

  lemma MinKeyExists(ks: set<Key>)
    requires ks != {}
    ensures exists m :: m in ks && forall k :: k in ks ==> m <= k
  {
    var m := LeastOf(ks);
  }

  lemma LeastOf(ks: set<Key>) returns (m: Key)
    requires ks != {}
    ensures m in ks && forall k :: k in ks ==> m <= k
    decreases ks
  {
    var x :| x in ks;
    if ks == {x} {
      m := x;
    } else {
      var m' := LeastOf(ks - {x});
      m := if x < m' then x else m';
      forall k | k in ks
        ensures m <= k
      {
        if k != x {
          assert k in ks - {x};
        }
      }
    }
  }

  /** NULL-ing `t`'s value under one more key `k` extends the cleared set by `k`. */
  lemma ClearOneMore(keys: map<Key, TlsEntry>, t: ThreadId, k: Key, ks: set<Key>)
    requires k in keys
    ensures ClearThread(keys[k := keys[k].(data := keys[k].data - {t})], t, ks)
            == ClearThread(keys, t, ks + {k})
  {
    assert keys[k].data - {t} - {t} == keys[k].data - {t};
  }

  /** NULL-ing a value the thread does not have changes nothing. */
  lemma ClearAbsent(keys: map<Key, TlsEntry>, t: ThreadId, k: Key, ks: set<Key>)
    requires k in keys && t !in keys[k].data
    ensures ClearThread(keys, t, ks) == ClearThread(keys, t, ks + {k})
  {
    assert keys[k].data - {t} == keys[k].data;
  }

  /**
   The loop of `fetch_tls_dtor`: visit the keys of `pending` in ascending
   order; under each, remove thread `t`'s value if it has one, and stop at the
   first such key that has a destructor.
   */
  ghost function FetchFrom(keys: map<Key, TlsEntry>, pending: set<Key>, t: ThreadId)
    : (r: FetchStep)
    requires pending <= keys.Keys
    decreases pending
    // nothing is found exactly when no pending key has both a destructor and a value
    ensures r.found.None? <==> NoDtorAmong(keys, t, pending)
    // otherwise the smallest such key is found, with its destructor and the value it held
    ensures r.found.Some? ==> IsFirstDtor(keys, t, pending, r.found.value)
    // every visited key has lost `t`'s value; nothing else has changed
    ensures r.keys == ClearThread(keys, t, VisitedUpTo(pending, r.found))
  {
    if pending == {} then
      FetchStep(keys, None)
    else
      var k := MinKey(pending);
      var rest := pending - {k};
      var e := keys[k];
      if t in e.data then
        var keys' := keys[k := e.(data := e.data - {t})];
        if e.dtor.Some? then
          assert VisitedUpTo(pending, Some(Fetched(e.dtor.value, e.data[t], k))) == {k};
          ClearOneMore(keys, t, k, {});
          FetchStep(keys', Some(Fetched(e.dtor.value, e.data[t], k)))
        else
          var r := FetchFrom(keys', rest, t);
          assert forall j :: j != k ==> HasDtorFor(keys', j, t) == HasDtorFor(keys, j, t);
          ClearOneMore(keys, t, k, VisitedUpTo(rest, r.found));
          assert VisitedUpTo(rest, r.found) + {k} == VisitedUpTo(pending, r.found);
          r
      else
        var r := FetchFrom(keys, rest, t);
        ClearAbsent(keys, t, k, VisitedUpTo(rest, r.found));
        assert VisitedUpTo(rest, r.found) + {k} == VisitedUpTo(pending, r.found);
        r
  }


  /** A call the scheduler asks the interpreter to make on the exiting thread. */
  datatype Call =
    | RunDtor(dtor: Instance, arg: Scalar)  // a destructor with its argument
    | ThreadCallback                        // the libstd thread callback on Windows

  /** Finds the next destructor to run for thread `t` after key `start`,
      NULL-ing `t`'s value under every key it passes. */
  ghost function FetchTlsDtor(s: TlsState, start: Option<Key>, t: ThreadId): (r: Transition<Option<Fetched>>)
    ensures r.result.None? <==> NoDtorAmong(s.keys, t, KeysAfter(s.keys, start))
    ensures r.result.Some? ==> IsFirstDtor(s.keys, t, KeysAfter(s.keys, start), r.result.value)
    ensures r.state.keys == ClearThread(s.keys, t, VisitedUpTo(KeysAfter(s.keys, start), r.result))
    // only thread `t`'s values change, and only in the keys table
    ensures OnlyClears(s.keys, r.state.keys, t)
    ensures r.state.(keys := s.keys) == s
    ensures r.result.Some? ==> t !in r.state.keys[r.result.value.key].data
    ensures r.result.None? ==>
      forall k :: k in r.state.keys && After(start, k) ==> t !in r.state.keys[k].data
    ensures s.Valid() ==> r.state.Valid()
  {
    var f := FetchFrom(s.keys, KeysAfter(s.keys, start), t);
    Transition(s.(keys := f.keys), f.found)
  }

  /** The key of the destructor last scheduled for thread `t`, if any. */
  function LastKey(s: TlsState, t: ThreadId): Option<Key> {
    if t in s.lastDtorKey then Some(s.lastDtorKey[t]) else None
  }

  /** Keys left at or before `start` by the first pass are untouched, so the
      restarted pass finds exactly the first destructor of the original table. */
  lemma RestartedPass(s: TlsState, start: Option<Key>, t: ThreadId)
    ensures var first := FetchTlsDtor(s, start, t);
      var again := FetchTlsDtor(first.state, None, t);
      first.result.None? ==>
        && (again.result.None? <==> NoDtorAmong(s.keys, t, s.keys.Keys))
        && (again.result.Some? ==> IsFirstDtor(s.keys, t, s.keys.Keys, again.result.value))
  {
  }

  lemma OnlyClearsTransitive(a: map<Key, TlsEntry>, b: map<Key, TlsEntry>, c: map<Key, TlsEntry>, t: ThreadId)
    requires OnlyClears(a, b, t) && OnlyClears(b, c, t)
    ensures OnlyClears(a, c, t)
  {
  }

  /** One scheduling step of the pthread destructors of exiting thread `t`:
      resume after the key of the last destructor, and start over from the
      first key when that finds nothing. */
  ghost function SchedulePthreadTlsDtors(s: TlsState, t: ThreadId): (r: Transition<Option<Fetched>>)
    // the step touches only the key table and the thread's last key; what it
    // finds and clears is stated by the lemmas that follow
    ensures r.state.(keys := s.keys, lastDtorKey := s.lastDtorKey) == s
    ensures r.result.Some? ==> r.state.lastDtorKey == s.lastDtorKey[t := r.result.value.key]
    ensures r.result.None? ==> r.state.lastDtorKey == s.lastDtorKey - {t}
  {
    var first := FetchTlsDtor(s, LastKey(s, t), t);
    var fetched := if first.result.Some? then first else FetchTlsDtor(first.state, None, t);
    match fetched.result
    case Some(f) =>
      Transition(fetched.state.(lastDtorKey := fetched.state.lastDtorKey[t := f.key]), Some(f))
    case None =>
      Transition(fetched.state.(lastDtorKey := fetched.state.lastDtorKey - {t}), None)
  }

  /** `f` is the destructor a pthread scheduling step of thread `t` picks: the
      first one after the last key or, when there is none after it, the first
      one of all. */
  ghost predicate PthreadDtorChosen(s: TlsState, t: ThreadId, f: Fetched) {
    || IsFirstDtor(s.keys, t, KeysAfter(s.keys, LastKey(s, t)), f)
    || (&& NoDtorAmong(s.keys, t, KeysAfter(s.keys, LastKey(s, t)))
        && IsFirstDtor(s.keys, t, s.keys.Keys, f))
  }

  /** When a pthread scheduling step finds a destructor, it is the first one
      after the last key, or, if there is none after it, the first one of
      all; its value has been set to NULL and its key is remembered. */
  lemma SchedulePthreadFindsFirst(s: TlsState, t: ThreadId)
    ensures var r := SchedulePthreadTlsDtors(s, t);
      r.result.Some? ==>
        && PthreadDtorChosen(s, t, r.result.value)
        && t !in r.state.keys[r.result.value.key].data
        && r.state.lastDtorKey == s.lastDtorKey[t := r.result.value.key]
  {
    RestartedPass(s, LastKey(s, t), t);
  }

  /** A pthread scheduling step finds nothing only when no key has both a
      destructor and a value for `t`; then `t` holds no value at all and its
      last key is forgotten. */
  lemma SchedulePthreadNothingLeft(s: TlsState, t: ThreadId)
    ensures var r := SchedulePthreadTlsDtors(s, t);
      && (r.result.None? <==> NoDtorAmong(s.keys, t, s.keys.Keys))
      && (r.result.None? ==> forall k :: k in r.state.keys ==> t !in r.state.keys[k].data)
      && (r.result.None? ==> r.state.lastDtorKey == s.lastDtorKey - {t})
  {
    var first := FetchTlsDtor(s, LastKey(s, t), t);
    if first.result.None? {
      var again := FetchTlsDtor(first.state, None, t);
      RestartedPass(s, LastKey(s, t), t);
      if again.result.None? {
        forall k | k in again.state.keys
          ensures t !in again.state.keys[k].data
        {
          assert After(None, k);
        }
      }
    } else {
      assert first.result.value.key in s.keys;
    }
  }

  /** A pthread scheduling step changes only thread `t`'s values and its
      remembered key. */
  lemma SchedulePthreadOnlyClears(s: TlsState, t: ThreadId)
    ensures var r := SchedulePthreadTlsDtors(s, t);
      && OnlyClears(s.keys, r.state.keys, t)
      && r.state.(keys := s.keys, lastDtorKey := s.lastDtorKey) == s
      && (s.Valid() ==> r.state.Valid())
  {
    var first := FetchTlsDtor(s, LastKey(s, t), t);
    if first.result.None? {
      var again := FetchTlsDtor(first.state, None, t);
      OnlyClearsTransitive(s.keys, first.state.keys, again.state.keys, t);
    }
  }

  /** The keys a pthread scheduling step that finds `f` visits: the keys after
      the last key up to `f`'s, or, when `f` lies at or before the last key
      (the pass started over), every key after the last key and then every key
      up to `f`'s. */
  ghost function PthreadVisited(s: TlsState, t: ThreadId, f: Fetched): set<Key> {
    var after := KeysAfter(s.keys, LastKey(s, t));
    if After(LastKey(s, t), f.key) then set k | k in after && k <= f.key
    else after + set k | k in s.keys && k <= f.key
  }

  /** NULL-ing `t`'s values under `a` and then under `b` is NULL-ing them under both. */
  lemma ClearThreadTwice(keys: map<Key, TlsEntry>, t: ThreadId, a: set<Key>, b: set<Key>)
    ensures ClearThread(ClearThread(keys, t, a), t, b) == ClearThread(keys, t, a + b)
  {
    forall k | k in keys
      ensures ClearThread(ClearThread(keys, t, a), t, b)[k] == ClearThread(keys, t, a + b)[k]
    {
      assert keys[k].data - {t} - {t} == keys[k].data - {t};
    }
  }

  /** A pthread scheduling step that finds a destructor NULLs `t`'s value under
      exactly the keys it visits; every other value, with or without a
      destructor, is kept. */
  lemma SchedulePthreadClearsVisited(s: TlsState, t: ThreadId)
    ensures var r := SchedulePthreadTlsDtors(s, t);
      r.result.Some? ==> r.state.keys == ClearThread(s.keys, t, PthreadVisited(s, t, r.result.value))
  {
    var r := SchedulePthreadTlsDtors(s, t);
    var after := KeysAfter(s.keys, LastKey(s, t));
    var first := FetchTlsDtor(s, LastKey(s, t), t);
    if first.result.None? && r.result.Some? {
      var f := r.result.value;
      var again := FetchTlsDtor(first.state, None, t);
      RestartedPass(s, LastKey(s, t), t);
      assert !After(LastKey(s, t), f.key);
      var upTo := set k | k in s.keys && k <= f.key;
      assert first.state.keys == ClearThread(s.keys, t, after);
      assert VisitedUpTo(KeysAfter(first.state.keys, None), again.result) == upTo;
      assert again.state.keys == ClearThread(first.state.keys, t, upTo);
      ClearThreadTwice(s.keys, t, after, upTo);
      assert PthreadVisited(s, t, f) == after + upTo;
    }
  }

  /** The keys under which thread `t` has both a value and a destructor: the
      destructor calls still owed to `t`. */
  ghost function DtorKeys(keys: map<Key, TlsEntry>, t: ThreadId): set<Key> {
    set k | k in keys && HasDtorFor(keys, k, t)
  }

  /** A fetch NULLs no value of `t` that has a destructor, except the one it returns. */
  lemma FetchKeepsOtherDtors(s: TlsState, start: Option<Key>, t: ThreadId)
    ensures var r := FetchTlsDtor(s, start, t);
      forall k :: HasDtorFor(s.keys, k, t) && (r.result.None? || k != r.result.value.key) ==>
        r.state.keys[k] == s.keys[k]
  {
    var r := FetchTlsDtor(s, start, t);
    forall k | HasDtorFor(s.keys, k, t) && (r.result.None? || k != r.result.value.key)
      ensures r.state.keys[k] == s.keys[k]
    {
      assert k !in VisitedUpTo(KeysAfter(s.keys, start), r.result);
    }
  }

  /** A pthread scheduling step NULLs no value of `t` that has a destructor,
      except the one whose destructor it schedules. */
  lemma SchedulePthreadKeepsOtherDtors(s: TlsState, t: ThreadId)
    ensures var r := SchedulePthreadTlsDtors(s, t);
      forall k :: HasDtorFor(s.keys, k, t) && (r.result.None? || k != r.result.value.key) ==>
        r.state.keys[k] == s.keys[k]
  {
    var first := FetchTlsDtor(s, LastKey(s, t), t);
    FetchKeepsOtherDtors(s, LastKey(s, t), t);
    if first.result.None? {
      FetchKeepsOtherDtors(first.state, None, t);
      forall k | HasDtorFor(s.keys, k, t)
        ensures HasDtorFor(first.state.keys, k, t)
      {
        assert first.state.keys[k] == s.keys[k];
      }
    }
  }

  /** A map that only lost values of `t`, keeping every value that has a
      destructor except possibly the one under `found`, owes exactly one call
      fewer when `found` is cleared, and none when nothing is owed. */
  lemma DtorKeysAfterClear(keys: map<Key, TlsEntry>, keys': map<Key, TlsEntry>, t: ThreadId, found: Option<Key>)
    requires OnlyClears(keys, keys', t)
    requires found.Some? ==> HasDtorFor(keys, found.value, t) && t !in keys'[found.value].data
    requires found.None? ==> NoDtorAmong(keys, t, keys.Keys)
    requires forall k :: HasDtorFor(keys, k, t) && (found.None? || k != found.value) ==> keys'[k] == keys[k]
    ensures |DtorKeys(keys', t)| + (if found.Some? then 1 else 0) == |DtorKeys(keys, t)|
  {
    var before := DtorKeys(keys, t);
    var after := DtorKeys(keys', t);
    if found.Some? {
      var key := found.value;
      forall k
        ensures k in after <==> k in before - {key}
      {
        if k in after {
          assert k in keys && HasDtorFor(keys, k, t);
        }
        if k in before - {key} {
          assert keys'[k] == keys[k];
        }
      }
      assert after == before - {key};
      assert before == after + {key};
    } else {
      assert before == {};
      assert after == {};
    }
  }

  /** The call a value with a destructor is owed: its destructor, on that value. */
  ghost function DtorCall(keys: map<Key, TlsEntry>, t: ThreadId, k: Key): Call
    requires HasDtorFor(keys, k, t)
  {
    RunDtor(keys[k].dtor.value, keys[k].data[t])
  }

  /** The calls owed for the keys `ks`, one per key. */
  ghost function CallsFor(keys: map<Key, TlsEntry>, t: ThreadId, ks: set<Key>): multiset<Call>
    requires forall k :: k in ks ==> HasDtorFor(keys, k, t)
    decreases ks
  {
    if ks == {} then multiset{}
    else
      var k := MinKey(ks);
      multiset{DtorCall(keys, t, k)} + CallsFor(keys, t, ks - {k})
  }

  /** Taking any one key out of `ks` takes out exactly its call. */
  lemma {:induction false} CallsForRemove(keys: map<Key, TlsEntry>, t: ThreadId, ks: set<Key>, x: Key)
    requires forall k :: k in ks ==> HasDtorFor(keys, k, t)
    requires x in ks
    ensures CallsFor(keys, t, ks) == multiset{DtorCall(keys, t, x)} + CallsFor(keys, t, ks - {x})
    decreases ks
  {
    var m := MinKey(ks);
    if m != x {
      var rest, others := ks - {m}, ks - {x};
      CallsForRemove(keys, t, rest, x);
      assert m in others && MinKey(others) in ks;
      assert MinKey(others) == m;
      assert others - {m} == rest - {x};
      calc {
        CallsFor(keys, t, ks);
        multiset{DtorCall(keys, t, m)} + CallsFor(keys, t, rest);
        multiset{DtorCall(keys, t, m)} + (multiset{DtorCall(keys, t, x)} + CallsFor(keys, t, rest - {x}));
        multiset{DtorCall(keys, t, x)} + (multiset{DtorCall(keys, t, m)} + CallsFor(keys, t, others - {m}));
        multiset{DtorCall(keys, t, x)} + CallsFor(keys, t, others);
      }
    }
  }

  /** The calls owed for `ks` depend only on the entries under `ks`. */
  lemma {:induction false} CallsForFrame(keys: map<Key, TlsEntry>, keys': map<Key, TlsEntry>, t: ThreadId, ks: set<Key>)
    requires forall k :: k in ks ==> HasDtorFor(keys, k, t) && k in keys' && keys'[k] == keys[k]
    ensures forall k :: k in ks ==> HasDtorFor(keys', k, t)
    ensures CallsFor(keys', t, ks) == CallsFor(keys, t, ks)
    decreases ks
  {
    if ks != {} {
      CallsForFrame(keys, keys', t, ks - {MinKey(ks)});
    }
  }

  /** The multiset form of `DtorKeysAfterClear`: the calls still owed are the
      calls owed before, less the call of the cleared key. */
  lemma CallsAfterClear(keys: map<Key, TlsEntry>, keys': map<Key, TlsEntry>, t: ThreadId, found: Option<Key>)
    requires OnlyClears(keys, keys', t)
    requires found.Some? ==> HasDtorFor(keys, found.value, t) && t !in keys'[found.value].data
    requires found.None? ==> NoDtorAmong(keys, t, keys.Keys)
    requires forall k :: HasDtorFor(keys, k, t) && (found.None? || k != found.value) ==> keys'[k] == keys[k]
    ensures CallsFor(keys', t, DtorKeys(keys', t))
            + (if found.Some? then multiset{DtorCall(keys, t, found.value)} else multiset{})
            == CallsFor(keys, t, DtorKeys(keys, t))
  {
    var before := DtorKeys(keys, t);
    var after := DtorKeys(keys', t);
    if found.Some? {
      var key := found.value;
      forall k
        ensures k in after <==> k in before - {key}
      {
        if k in after {
          assert k in keys && HasDtorFor(keys, k, t);
        }
        if k in before - {key} {
          assert keys'[k] == keys[k];
        }
      }
      assert after == before - {key};
      CallsForRemove(keys, t, before, key);
      CallsForFrame(keys, keys', t, after);
    } else {
      assert before == {};
      assert after == {};
    }
  }

  /** Each pthread scheduling step makes exactly the call it takes off what is
      owed: the destructor of the key it clears, on the value that key held. */
  lemma SchedulePthreadSettlesCall(s: TlsState, t: ThreadId)
    ensures var r := SchedulePthreadTlsDtors(s, t);
      multiset(CallOf(r.result)) + CallsFor(r.state.keys, t, DtorKeys(r.state.keys, t))
      == CallsFor(s.keys, t, DtorKeys(s.keys, t))
  {
    var r := SchedulePthreadTlsDtors(s, t);
    SchedulePthreadOnlyClears(s, t);
    SchedulePthreadNothingLeft(s, t);
    SchedulePthreadKeepsOtherDtors(s, t);
    SchedulePthreadFindsFirst(s, t);
    var found := if r.result.Some? then Some(r.result.value.key) else None;
    assert found.Some? ==> HasDtorFor(s.keys, found.value, t);
    CallsAfterClear(s.keys, r.state.keys, t, found);
    if r.result.Some? {
      assert DtorCall(s.keys, t, found.value) == RunDtor(r.result.value.dtor, r.result.value.value);
      assert multiset(CallOf(r.result)) == multiset{RunDtor(r.result.value.dtor, r.result.value.value)};
    }
  }

  /** `s'` is what a pthread scheduling step of `t` from `s` leaves when it
      schedules `f`: `f` is the destructor the pass picks, exactly the keys it
      visits lose `t`'s value (among them `f`'s, and no other value that has a
      destructor), and `f`'s key is remembered. */
  ghost predicate SchedulesPthread(s: TlsState, t: ThreadId, f: Fetched, s': TlsState) {
    && PthreadDtorChosen(s, t, f)
    && s'.keys == ClearThread(s.keys, t, PthreadVisited(s, t, f))
    && f.key in s'.keys && t !in s'.keys[f.key].data
    && (forall k :: HasDtorFor(s.keys, k, t) && k != f.key ==> k in s'.keys && s'.keys[k] == s.keys[k])
    && s'.lastDtorKey == s.lastDtorKey[t := f.key]
  }

  /** A pthread scheduling step that finds a destructor ends as `SchedulesPthread` says. */
  lemma SchedulePthreadStep(s: TlsState, t: ThreadId)
    ensures var r := SchedulePthreadTlsDtors(s, t);
      r.result.Some? ==> SchedulesPthread(s, t, r.result.value, r.state)
  {
    SchedulePthreadOnlyClears(s, t);
    SchedulePthreadFindsFirst(s, t);
    SchedulePthreadKeepsOtherDtors(s, t);
    SchedulePthreadClearsVisited(s, t);
  }

  /** Each pthread scheduling step settles exactly the destructor call it
      makes: one value with a destructor fewer when it schedules one, and the
      same number when it does not. */
  lemma SchedulePthreadSettlesOne(s: TlsState, t: ThreadId)
    ensures var r := SchedulePthreadTlsDtors(s, t);
      |CallOf(r.result)| + |DtorKeys(r.state.keys, t)| == |DtorKeys(s.keys, t)|
  {
    var r := SchedulePthreadTlsDtors(s, t);
    SchedulePthreadOnlyClears(s, t);
    SchedulePthreadNothingLeft(s, t);
    SchedulePthreadKeepsOtherDtors(s, t);
    SchedulePthreadFindsFirst(s, t);
    var found := if r.result.Some? then Some(r.result.value.key) else None;
    assert found.Some? ==> HasDtorFor(s.keys, found.value, t);
    DtorKeysAfterClear(s.keys, r.state.keys, t, found);
  }

  /** A map that only lost values of `t`, including the one under `k`, holds fewer of them. */
  lemma ClearedCountShrinks(keys: map<Key, TlsEntry>, keys': map<Key, TlsEntry>, t: ThreadId, k: Key)
    requires OnlyClears(keys, keys', t)
    requires k in keys && t in keys[k].data && t !in keys'[k].data
    ensures ThreadValueCount(keys', t) < ThreadValueCount(keys, t)
  {
    var before := set j | j in keys && t in keys[j].data;
    var after := set j | j in keys' && t in keys'[j].data;
    assert after <= before;
    assert k in before - after;
    assert before == after + (before - after);
    assert |before| == |after| + |before - after|;
  }

  /** Takes the macOS thread-wide destructor of thread `t` out of the table
      before it is called, so that it is called at most once. */
  function ScheduleMacosTlsDtor(s: TlsState, t: ThreadId): (r: Transition<Option<Call>>)
    ensures t !in r.state.threadDtors
    ensures r.state == s.(threadDtors := s.threadDtors - {t})
    ensures r.result.Some? <==> t in s.threadDtors
    ensures r.result.Some? ==> r.result.value == RunDtor(s.threadDtors[t].0, s.threadDtors[t].1)
    ensures s.Valid() ==> r.state.Valid()
  {
    if t in s.threadDtors then
      var (dtor, data) := s.threadDtors[t];
      Transition(s.(threadDtors := s.threadDtors - {t}), Some(RunDtor(dtor, data)))
    else
      Transition(s, None)
  }

  function CallOf(f: Option<Fetched>): seq<Call> {
    if f.Some? then [RunDtor(f.value.dtor, f.value.value)] else []
  }

  /** Schedules the next destructors of the active thread `t`, which has
      terminated. On Windows the libstd thread callback is scheduled once;
      elsewhere the macOS thread-wide destructor is pushed first, then the
      next pthread destructor, whose value is NULL-ed in the same step. The
      calls are listed in the order they are pushed. */
  ghost function ScheduleNextTlsDtorForActiveThread(s: TlsState, t: ThreadId, onWindows: bool)
    : (r: Transition<seq<Call>>)
    // from now on the thread counts as running its destructors
    ensures r.state.dtorsRunning == s.dtorsRunning + {t}
    // Windows: the callback is scheduled exactly on the first call, and the table is untouched
    ensures onWindows ==> r.state == s.(dtorsRunning := s.dtorsRunning + {t})
    ensures onWindows ==> r.result == if t in s.dtorsRunning then [] else [ThreadCallback]
    // elsewhere: the thread-wide destructor is gone and came first, then at most one pthread destructor
    ensures !onWindows ==> r.state.threadDtors == s.threadDtors - {t}
    ensures !onWindows && t in s.threadDtors ==>
      |r.result| >= 1 && r.result[0] == RunDtor(s.threadDtors[t].0, s.threadDtors[t].1)
    ensures !onWindows ==> |r.result| <= 2 && ThreadCallback !in r.result
    ensures !onWindows && t !in s.threadDtors ==> |r.result| <= 1
    // elsewhere a pthread destructor is scheduled exactly when some key has a
    // destructor and a value for `t`; it is the one the pthread pass picks, called
    // with the value it held, and its key is remembered
    ensures !onWindows ==>
      (NoDtorAmong(s.keys, t, s.keys.Keys) <==> |r.result| == if t in s.threadDtors then 1 else 0)
    ensures !onWindows && !NoDtorAmong(s.keys, t, s.keys.Keys) ==>
      exists f :: && SchedulesPthread(s, t, f, r.state)
                  && |r.result| >= 1 && r.result[|r.result| - 1] == RunDtor(f.dtor, f.value)
    // when there is none, `t` holds no value at all and its last key is forgotten
    ensures !onWindows && NoDtorAmong(s.keys, t, s.keys.Keys) ==>
      && r.state.lastDtorKey == s.lastDtorKey - {t}
      && forall k :: k in r.state.keys ==> t !in r.state.keys[k].data
    ensures OnlyClears(s.keys, r.state.keys, t)
    ensures r.state.nextKey == s.nextKey
    ensures s.Valid() ==> r.state.Valid()
  {
    if onWindows then
      if t !in s.dtorsRunning then
        Transition(s.(dtorsRunning := s.dtorsRunning + {t}), [ThreadCallback])
      else
        Transition(s, [])
    else
      var running := s.(dtorsRunning := s.dtorsRunning + {t});
      var macos := ScheduleMacosTlsDtor(running, t);
      var pthread := SchedulePthreadTlsDtors(macos.state, t);
      SchedulePthreadOnlyClears(macos.state, t);
      SchedulePthreadNothingLeft(macos.state, t);
      SchedulePthreadStep(macos.state, t);
      assert LastKey(macos.state, t) == LastKey(s, t);
      assert pthread.result.Some? ==> SchedulesPthread(s, t, pthread.result.value, pthread.state);
      var calls := (if macos.result.Some? then [macos.result.value] else []) + CallOf(pthread.result);
      Transition(pthread.state, calls)
  }

  /** As written, the thread-wide destructor does not run before the thread's
      TLS slots are freed: when the thread still has a value under a key with a
      destructor, the same step NULLs one of its values and pushes that pthread
      destructor after the thread-wide one, so the pthread destructor runs first. */
  lemma MacosDtorRunsAfterSlotFreed(s: TlsState, t: ThreadId, k: Key)
    requires t in s.threadDtors && HasDtorFor(s.keys, k, t)
    ensures var r := ScheduleNextTlsDtorForActiveThread(s, t, false);
      && |r.result| == 2
      && r.result[0] == RunDtor(s.threadDtors[t].0, s.threadDtors[t].1)
      && r.result[1].RunDtor?
      && ThreadValueCount(r.state.keys, t) < ThreadValueCount(s.keys, t)
  {
    var running := s.(dtorsRunning := s.dtorsRunning + {t});
    var macos := ScheduleMacosTlsDtor(running, t);
    assert !NoDtorAmong(s.keys, t, s.keys.Keys);
    SchedulePthreadNothingLeft(macos.state, t);
    PthreadStepShrinks(macos.state, t);
  }

  /** The scheduling step as the comment on it intends: the thread-wide
      destructor runs "before any TLS slots get freed". A step that schedules
      it schedules nothing else and frees no slot; the pthread destructors
      follow in later steps, exactly as in `ScheduleNextTlsDtorForActiveThread`. */
  ghost function ScheduleNextMacosFirst(s: TlsState, t: ThreadId, onWindows: bool)
    : (r: Transition<seq<Call>>)
    ensures r.state.dtorsRunning == s.dtorsRunning + {t}
    // the thread-wide destructor is scheduled alone, while every slot still holds its value
    ensures !onWindows && t in s.threadDtors ==>
      && r.result == [RunDtor(s.threadDtors[t].0, s.threadDtors[t].1)]
      && r.state.keys == s.keys
      && r.state.threadDtors == s.threadDtors - {t}
      && r.state.lastDtorKey == s.lastDtorKey
    // without one, the step is the one the source takes
    ensures onWindows || t !in s.threadDtors ==> r == ScheduleNextTlsDtorForActiveThread(s, t, onWindows)
    ensures OnlyClears(s.keys, r.state.keys, t)
    ensures r.state.nextKey == s.nextKey
    ensures s.Valid() ==> r.state.Valid()
  {
    if !onWindows && t in s.threadDtors then
      var macos := ScheduleMacosTlsDtor(s.(dtorsRunning := s.dtorsRunning + {t}), t);
      Transition(macos.state, [macos.result.value])
    else
      ScheduleNextTlsDtorForActiveThread(s, t, onWindows)
  }

  /** Each destructor the pthread scheduler finds removes at least one of the
      thread's values, so with no new stores the steps come to an end. */
  lemma PthreadStepShrinks(s: TlsState, t: ThreadId)
    requires SchedulePthreadTlsDtors(s, t).result.Some?
    ensures ThreadValueCount(SchedulePthreadTlsDtors(s, t).state.keys, t) < ThreadValueCount(s.keys, t)
  {
    var r := SchedulePthreadTlsDtors(s, t);
    SchedulePthreadFindsFirst(s, t);
    SchedulePthreadOnlyClears(s, t);
    ClearedCountShrinks(s.keys, r.state.keys, t, r.result.value.key);
  }
}
