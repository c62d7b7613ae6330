/**
 lib/batch.js: callbacks waiting on the same key are queued and later called together, once.

 The `_batch` object is a map from keys to non-empty queues; the `null` that `call` leaves behind
 is an absent key.
 */
module Batch {
  import opened Wrappers

  /** Keys are object property names. */
  type Queues<C> = map<string, seq<C>>

  /** The properties every plain object inherits from `Object.prototype`: on a fresh `{}` each
      already reads as a function or an object, never as `null`. */
  predicate Inherited(key: string) {
    key in {"constructor", "__proto__", "__defineGetter__", "__defineSetter__", "__lookupGetter__",
            "__lookupSetter__", "hasOwnProperty", "isPrototypeOf", "propertyIsEnumerable",
            "toLocaleString", "toString", "valueOf"}
  }

  /** The key holds a queue of its own. */
  predicate HasQueue<C>(b: Queues<C>, key: string) {
    key in b
  }

  /** Every queue is non-empty, and none sits under an inherited name (`push` cannot start one
      there). */
  predicate Valid<C>(b: Queues<C>) {
    forall k | k in b :: |b[k]| > 0 && !Inherited(k)
  }

  /** `exists(key)`: `this._batch[key] != null`, which an inherited property also meets. */
  predicate Exists<C>(b: Queues<C>, key: string) {
    HasQueue(b, key) || Inherited(key)
  }

  /** `new Batch()`. */
  function New<C>(): (r: Queues<C>)
    ensures Valid(r)
    ensures forall k :: !HasQueue(r, k)
    ensures forall k :: Exists(r, k) <==> Inherited(k)
  {
    map[]
  }

  /** `push(key, cb)`: appends `cb` to the queue of `key`, starting one when there is none. On an
      inherited name without a queue, `this._batch[key] || []` keeps the inherited value, which has
      no `push`, and the source throws a `TypeError`: `None`. */
  function Push<C>(b: Queues<C>, key: string, cb: C): (r: Option<Queues<C>>)
    ensures r.None? <==> !HasQueue(b, key) && Inherited(key)
    ensures r.Some? ==> HasQueue(r.value, key)
    ensures r.Some? && HasQueue(b, key) ==> r.value[key] == b[key] + [cb]
    ensures r.Some? && !HasQueue(b, key) ==> r.value[key] == [cb]
    ensures r.Some? ==> forall k | k != key :: HasQueue(r.value, k) == HasQueue(b, k)
    ensures r.Some? ==> forall k | k != key && HasQueue(b, k) :: k in r.value && r.value[k] == b[k]
    ensures r.Some? && Valid(b) ==> Valid(r.value)
  {
    if key in b then Some(b[key := b[key] + [cb]])
    else if Inherited(key) then None
    else Some(b[key := [cb]])
  }

  /** `call(key, fn)`: takes the queue of `key` away and applies `fn` to each queued callback in
      the order they were pushed; `outs` are the results. The source dereferences the queue, so a
      key without one is a caller error. */
  method Call<C, R>(b: Queues<C>, key: string, f: C -> R) returns (r: Queues<C>, outs: seq<R>)
    requires HasQueue(b, key)
    ensures !HasQueue(r, key)
    ensures Valid(b) ==> !Exists(r, key)
    ensures forall k | k != key :: HasQueue(r, k) == HasQueue(b, k)
    ensures forall k | k != key && HasQueue(b, k) :: k in r && r[k] == b[k]
    ensures Valid(b) ==> Valid(r)
    ensures |outs| == |b[key]|
    ensures forall i | 0 <= i < |outs| :: outs[i] == f(b[key][i])
  {
    var cbs := b[key];
    r := b - {key};
    outs := [];
    var i := 0;
    while i < |cbs|
      invariant 0 <= i <= |cbs|
      invariant |outs| == i
      invariant forall j | 0 <= j < i :: outs[j] == f(cbs[j])
    {
      outs := outs + [f(cbs[i])];
      i := i + 1;
    }
  }

  /** Pushing `cbs` one after another, stopping at the first push that throws. */
  function PushAll<C>(b: Queues<C>, key: string, cbs: seq<C>): Option<Queues<C>>
    decreases |cbs|
  {
    if |cbs| == 0 then Some(b)
    else
      match Push(b, key, cbs[0])
      case None => None
      case Some(b') => PushAll(b', key, cbs[1..])
  }

  /** Callbacks are queued in the order they were pushed: after a round of pushes, the queue of
      the key is what it held followed by those callbacks, and other keys are untouched. Pushing on
      an inherited name without a queue throws at the first push. */
  lemma {:induction false} PushAllQueues<C>(b: Queues<C>, key: string, done: seq<C>, cbs: seq<C>)
    requires (HasQueue(b, key) && b[key] == done && |done| > 0) || (!HasQueue(b, key) && done == [])
    ensures !HasQueue(b, key) && Inherited(key) && |cbs| > 0 ==> PushAll(b, key, cbs).None?
    ensures HasQueue(b, key) || !Inherited(key) || |cbs| == 0 ==>
      var r := PushAll(b, key, cbs);
      && r.Some?
      && (|done + cbs| > 0 ==> HasQueue(r.value, key) && r.value[key] == done + cbs)
      && (|done + cbs| == 0 ==> !HasQueue(r.value, key))
      && (forall k | k != key :: HasQueue(r.value, k) == HasQueue(b, k))
      && (forall k | k != key && HasQueue(b, k) :: k in r.value && r.value[k] == b[k])
    decreases |cbs|
  {
    if |cbs| > 0 && (HasQueue(b, key) || !Inherited(key)) {
      var b' := Push(b, key, cbs[0]).value;
      PushAllQueues(b', key, done + [cbs[0]], cbs[1..]);
      assert done + [cbs[0]] + cbs[1..] == done + cbs;
    }
  }

  /** After `call`, the next `push` on the key starts a fresh queue of one. */
  method CallThenPush<C, R>(b: Queues<C>, key: string, f: C -> R, cb: C) returns (r: Option<Queues<C>>)
    requires Valid(b) && HasQueue(b, key)
    ensures r.Some? && HasQueue(r.value, key) && r.value[key] == [cb]
    ensures Valid(r.value)
  {
    var cleared, _ := Call(b, key, f);
    r := Push(cleared, key, cb);
  }
}
