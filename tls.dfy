/**
 Value-level model of the thread-local-storage table an interpreter keeps to
 emulate pthread-style TLS keys and the macOS per-thread destructor.

 Thread ids, function instances (destructors) and scalars are opaque. A NULL
 value is the absence of an entry: a load of a missing entry yields `None`.
 */
module Tls {

  /** The interpreter's thread identifier. */
  type ThreadId(==, !new)
  /** A function instance, used as a destructor. */
  type Instance(==, !new)
  /** A pointer-sized scalar: a value stored in a TLS slot, or the argument of
      a thread-wide destructor (which may itself be NULL). */
  type Scalar(==, !new)

  /** TLS keys are 128-bit unsigned integers in the source. */
  type Key = nat

  datatype Option<T> = None | Some(value: T)

  /** The errors the table reports; each is either undefined behaviour of the
      interpreted program or an unsupported operation of the interpreter. */
  datatype TlsError =
    | KeySpaceExhausted
    | DeleteMissingKey(key: Key)
    | LoadMissingKey(key: Key)
    | StoreMissingKey(key: Key)
    | DtorSetWhileRunning
    | SecondThreadDtor
  {
    predicate IsUndefinedBehavior() {
      DeleteMissingKey? || LoadMissingKey? || StoreMissingKey? || DtorSetWhileRunning?
    }
  }

  datatype Result<T> = Ok(value: T) | Err(error: TlsError)

  /** One pthread key: a value per thread (absent means NULL) and an optional destructor. */
  datatype TlsEntry = TlsEntry(data: map<ThreadId, Scalar>, dtor: Option<Instance>)

  /** The whole table, field for field. */
  datatype TlsState = TlsState(
    nextKey: Key,
    keys: map<Key, TlsEntry>,
    threadDtors: map<ThreadId, (Instance, Scalar)>,
    dtorsRunning: set<ThreadId>,
    lastDtorKey: map<ThreadId, Key>)
  {
    /** Key 0 is never in use and the counter lies beyond every key handed out. */
    predicate Valid() {
      nextKey >= 1 && forall k :: k in keys ==> 1 <= k < nextKey
    }
  }

  /** The new state of the table after an operation, and what the operation returns. */
  datatype Transition<T> = Transition(state: TlsState, result: T)

  function Pow2(n: nat): (r: nat)
    ensures r >= 1
  {
    if n == 0 then 1 else 2 * Pow2(n - 1)
  }

  /** The table a fresh interpreter starts with. */
  function Default(): (s: TlsState)
    ensures s.Valid()
    ensures s.nextKey == 1 && s.keys == map[]
    ensures s.threadDtors == map[] && s.dtorsRunning == {} && s.lastDtorKey == map[]
  {
    TlsState(1, map[], map[], {}, map[])
  }

  /** Looks up the value of thread `t` under `key`; NULL when the thread has none. */
  function LoadTls(s: TlsState, key: Key, t: ThreadId): (r: Result<Option<Scalar>>)
    ensures r.Err? <==> key !in s.keys
    ensures r.Err? ==> r.error == LoadMissingKey(key) && r.error.IsUndefinedBehavior()
    ensures r.Ok? ==> (r.value.Some? <==> t in s.keys[key].data)
    ensures r.Ok? && r.value.Some? ==> r.value.value == s.keys[key].data[t]
  {
    if key in s.keys then
      var data := s.keys[key].data;
      Ok(if t in data then Some(data[t]) else None)
    else
      Err(LoadMissingKey(key))
  }

  /** Allocates the next key, registering `dtor` for it. `bits` is the width of
      the integer the key has to fit in. */
  function CreateTlsKey(s: TlsState, dtor: Option<Instance>, bits: nat): (r: Transition<Result<Key>>)
    // the key handed out is the old counter, and the counter moves on by one
    ensures r.state.nextKey == s.nextKey + 1
    ensures r.result.Ok? ==> r.result.value == s.nextKey
    // in a valid table the new key was not in use: the insert never replaces an entry
    ensures s.Valid() ==> s.nextKey !in s.keys && s.nextKey >= 1 && r.state.Valid()
    // the new key exists, with the destructor given and NULL for every thread
    ensures s.nextKey in r.state.keys && r.state.keys[s.nextKey].dtor == dtor
    ensures forall t :: LoadTls(r.state, s.nextKey, t) == Ok(None)
    // every other key is untouched
    ensures forall k :: k != s.nextKey ==> (k in r.state.keys <==> k in s.keys)
    ensures forall k :: k in s.keys && k != s.nextKey ==> r.state.keys[k] == s.keys[k]
    ensures r.state.(nextKey := s.nextKey, keys := s.keys) == s
    // the key space is exhausted exactly when the key does not fit in `bits` bits;
    // the table has changed all the same
    ensures r.result.Err? <==> bits < 128 && s.nextKey >= Pow2(bits)
    ensures r.result.Err? ==> r.result.error == KeySpaceExhausted && !r.result.error.IsUndefinedBehavior()
    ensures r.result.Ok? && bits < 128 ==> r.result.value < Pow2(bits)
  {
    var newKey := s.nextKey;
    var s' := s.(nextKey := s.nextKey + 1, keys := s.keys[newKey := TlsEntry(map[], dtor)]);
    if bits < 128 && newKey >= Pow2(bits) then
      Transition(s', Err(KeySpaceExhausted))
    else
      Transition(s', Ok(newKey))
  }

  /** Removes `key`; removing a key that does not exist is undefined behaviour. */
  function DeleteTlsKey(s: TlsState, key: Key): (r: Transition<Result<()>>)
    ensures r.result.Ok? <==> key in s.keys
    ensures r.result.Err? ==> r.state == s && r.result.error == DeleteMissingKey(key)
    ensures r.result.Ok? ==> key !in r.state.keys && r.state.keys.Keys == s.keys.Keys - {key}
    // after a deletion every load from `key` fails, and every other key loads as before
    ensures forall t :: LoadTls(r.state, key, t).Err?
    ensures forall k, t :: k != key ==> LoadTls(r.state, k, t) == LoadTls(s, k, t)
    ensures forall k :: k in r.state.keys ==> r.state.keys[k] == s.keys[k]
    ensures r.state.(keys := s.keys) == s
    ensures s.Valid() ==> r.state.Valid()
  {
    if key in s.keys then
      Transition(s.(keys := s.keys - {key}), Ok(()))
    else
      Transition(s, Err(DeleteMissingKey(key)))
  }

  /** Stores `v` for thread `t` under `key`; `None` stores NULL, which removes the entry. */
  function StoreTls(s: TlsState, key: Key, t: ThreadId, v: Option<Scalar>): (r: Transition<Result<()>>)
    ensures r.result.Ok? <==> key in s.keys
    ensures r.result.Err? ==> r.state == s && r.result.error == StoreMissingKey(key)
    // a load of the same slot gives back what was stored
    ensures r.result.Ok? ==> LoadTls(r.state, key, t) == Ok(v)
    // every other slot, every destructor and the set of keys are unchanged
    ensures forall k, u :: k != key || u != t ==> LoadTls(r.state, k, u) == LoadTls(s, k, u)
    ensures r.state.keys.Keys == s.keys.Keys
    ensures forall k :: k in s.keys ==> r.state.keys[k].dtor == s.keys[k].dtor
    ensures r.state.(keys := s.keys) == s
    ensures s.Valid() ==> r.state.Valid()
  {
    if key in s.keys then
      var e := s.keys[key];
      var data := match v
        case Some(x) => e.data[t := x]
        case None => e.data - {t};
      Transition(s.(keys := s.keys[key := e.(data := data)]), Ok(()))
    else
      Transition(s, Err(StoreMissingKey(key)))
  }

  /** Registers the single macOS thread-wide destructor of thread `t`. */
  function SetThreadDtor(s: TlsState, t: ThreadId, dtor: Instance, data: Scalar): (r: Transition<Result<()>>)
    // while the thread's destructors run, the call is undefined behaviour and changes nothing
    ensures t in s.dtorsRunning ==> r.state == s && r.result == Err(DtorSetWhileRunning)
    // otherwise the pair is recorded, replacing any earlier one
    ensures t !in s.dtorsRunning ==> r.state == s.(threadDtors := s.threadDtors[t := (dtor, data)])
    // a second destructor for the same thread is unsupported (but has been recorded)
    ensures t !in s.dtorsRunning ==>
      (r.result.Err? <==> t in s.threadDtors) && (r.result.Err? ==> r.result.error == SecondThreadDtor)
    ensures r.result.Ok? <==> t !in s.dtorsRunning && t !in s.threadDtors
    ensures s.Valid() ==> r.state.Valid()
  {
    if t in s.dtorsRunning then
      Transition(s, Err(DtorSetWhileRunning))
    else
      var s' := s.(threadDtors := s.threadDtors[t := (dtor, data)]);
      if t in s.threadDtors then Transition(s', Err(SecondThreadDtor))
      else Transition(s', Ok(()))
  }

  /** A fresh table hands out key 1 first; only a zero-width key space rejects it. */
  lemma FirstKeyIsOne(dtor: Option<Instance>, bits: nat)
    ensures CreateTlsKey(Default(), dtor, bits).result
            == if bits == 0 then Err(KeySpaceExhausted) else Ok(1)
  {
  }
}
