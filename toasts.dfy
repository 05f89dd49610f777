/**
 * The toast store: one shared list of toast objects, a counter that hands out
 * ids, and an expiry timer per added toast. A toast is a JavaScript object,
 * modelled as a map from property names to values; a property that is absent
 * reads as `undefined`. Each timer is an explicit `Expire` step.
 */
module Toasts {

  /**
   * The JavaScript values a toast property can hold. Numbers are integers;
   * an object or function is a reference, equal only to itself.
   */
  datatype Value = Undefined | Null | Num(n: int) | Str(s: string) | Bool(b: bool) | Ref(address: nat)

  type Toast = map<string, Value>

  /** `toast[key]`: the property's value, and `undefined` exactly where nothing else can be read. */
  function Field(t: Toast, key: string): (v: Value)
    ensures key in t ==> v == t[key]
    ensures v != Undefined ==> key in t && t[key] == v
  {
    if key in t then t[key] else Undefined
  }

  /**
   * JavaScript truthiness: false for exactly `undefined`, `null`, `0`, `''`
   * and `false`; every object is truthy.
   */
  function Truthy(v: Value): (b: bool)
    ensures !b <==> v == Undefined || v == Null || v == Num(0) || v == Str([]) || v == Bool(false)
  {
    match v
    case Undefined => false
    case Null => false
    case Num(n) => n != 0
    case Str(s) => s != []
    case Bool(b) => b
    case Ref(_) => true
  }

  /**
   * `{ id, ...toast }`: every property of the toast is copied, and `id` is
   * added; a caller's own `id` property, spread after it, wins.
   */
  function Stamp(id: nat, t: Toast): (s: Toast)
    ensures s.Keys == t.Keys + {"id"}
    ensures forall key | key in t :: s[key] == t[key]
    ensures "id" !in t ==> s["id"] == Num(id)
  {
    map["id" := Num(id)] + t
  }

  /** `{ type: kind, ...toast }`: the caller's properties, with `type` defaulting to `kind`. */
  function WithType(kind: string, t: Toast): (s: Toast)
    ensures s.Keys == t.Keys + {"type"}
    ensures forall key | key in t :: s[key] == t[key]
    ensures "type" !in t ==> s["type"] == Str(kind)
  {
    map["type" := Str(kind)] + t
  }

  /** `toast.duration || 5000`: the duration when it is truthy, otherwise five seconds; always truthy. */
  function ExpiryDelay(t: Toast): (d: Value)
    ensures Truthy(d)
    ensures Truthy(Field(t, "duration")) ==> d == t["duration"]
    ensures !Truthy(Field(t, "duration")) ==> d == Num(5000)
  {
    if Truthy(Field(t, "duration")) then Field(t, "duration") else Num(5000)
  }

  /** A zero duration does not mean "never" or "at once": it falls back to five seconds. */
  lemma ZeroDurationFallsBack(t: Toast)
    requires "duration" in t && t["duration"] == Num(0)
    ensures ExpiryDelay(t) == Num(5000)
  {
  }

  /** `findIndex(toast => toast.id === id)`: the first position whose id is `id`, or -1 when there is none. */
  function FindIndex(ts: seq<Toast>, id: Value): (i: int)
    ensures -1 <= i < |ts|
    ensures i == -1 <==> forall k | 0 <= k < |ts| :: Field(ts[k], "id") != id
    ensures 0 <= i ==> Field(ts[i], "id") == id && forall k | 0 <= k < i :: Field(ts[k], "id") != id
  {
    if ts == [] then -1
    else if Field(ts[0], "id") == id then 0
    else
      var j := FindIndex(ts[1..], id);
      if j == -1 then -1 else j + 1
  }

  /** `splice(i, 1)`: the list without its entry at position `i`, the others in order. */
  function Cut(ts: seq<Toast>, i: nat): (r: seq<Toast>)
    requires i < |ts|
    ensures |r| == |ts| - 1
  {
    ts[..i] + ts[i + 1..]
  }

  /**
   * The list after `removeToast(id)`: unchanged when no entry has that id,
   * otherwise the first such entry is cut out and the others keep their
   * order.
   */
  function Removed(ts: seq<Toast>, id: Value): (r: seq<Toast>)
    ensures (forall k | 0 <= k < |ts| :: Field(ts[k], "id") != id) ==> r == ts
    ensures (exists k | 0 <= k < |ts| :: Field(ts[k], "id") == id) ==>
      exists i | 0 <= i < |ts| ::
        && Field(ts[i], "id") == id
        && (forall k | 0 <= k < i :: Field(ts[k], "id") != id)
        && r == Cut(ts, i)
  {
    var i := FindIndex(ts, id);
    if i == -1 then ts else Cut(ts, i)
  }

  lemma {:induction false} FindIndexAppend(ts: seq<Toast>, x: Toast, id: Value)
    requires forall k | 0 <= k < |ts| :: Field(ts[k], "id") != id
    requires Field(x, "id") == id
    ensures FindIndex(ts + [x], id) == |ts|
  {
    var i := FindIndex(ts + [x], id);
    assert (ts + [x])[|ts|] == x;
    forall k | 0 <= k < |ts| ensures Field((ts + [x])[k], "id") != id {
      assert (ts + [x])[k] == ts[k];
    }
  }

  /**
   * When no entry has the id about to be handed out and the caller gives no
   * `id` of their own, adding a toast and then removing its id restores the
   * list.
   */
  lemma AddThenRemove(ts: seq<Toast>, id: nat, t: Toast)
    requires forall k | 0 <= k < |ts| :: Field(ts[k], "id") != Num(id)
    requires "id" !in t
    ensures Removed(ts + [Stamp(id, t)], Num(id)) == ts
  {
    FindIndexAppend(ts, Stamp(id, t), Num(id));
    assert (ts + [Stamp(id, t)])[..|ts|] == ts;
  }

  /** The entry's id as a number, or -1 when its `id` is not a number. */
  function Id(t: Toast): (n: int)
    ensures n >= 0 ==> Field(t, "id") == Num(n)
  {
    match Field(t, "id")
    case Num(n) => if n >= 0 then n else -1
    case _ => -1
  }

  /** Every entry carries a numeric id below `bound`. */
  ghost predicate IdsBelow(ts: seq<Toast>, bound: nat) {
    forall k | 0 <= k < |ts| :: 0 <= Id(ts[k]) < bound
  }

  /** The ids strictly increase along the list. */
  ghost predicate Increasing(ts: seq<Toast>) {
    forall a, b | 0 <= a < b < |ts| :: Id(ts[a]) < Id(ts[b])
  }

  /** Increasing numeric ids never repeat. */
  lemma IncreasingUnique(ts: seq<Toast>, bound: nat, a: nat, b: nat)
    requires Increasing(ts) && IdsBelow(ts, bound)
    requires a < |ts| && b < |ts| && a != b
    ensures Field(ts[a], "id") != Field(ts[b], "id")
  {
    assert Id(ts[a]) != Id(ts[b]);
  }

  /** The entries of the list with position `i` cut out. */
  lemma CutIndex(ts: seq<Toast>, i: nat, k: nat)
    requires i < |ts| && k < |ts| - 1
    ensures (Cut(ts, i))[k] == if k < i then ts[k] else ts[k + 1]
  {
  }

  /** Cutting one entry out keeps the ids increasing and below the bound. */
  lemma CutKeepsOrder(ts: seq<Toast>, i: nat, bound: nat)
    requires Increasing(ts) && IdsBelow(ts, bound) && i < |ts|
    ensures Increasing(Cut(ts, i)) && IdsBelow(Cut(ts, i), bound)
  {
    forall k | 0 <= k < |ts| - 1 ensures Cut(ts, i)[k] == if k < i then ts[k] else ts[k + 1] {
      CutIndex(ts, i, k);
    }
  }

  /** With unique ids, cutting out the entry with a given id leaves no entry with it. */
  lemma CutRemovesId(ts: seq<Toast>, i: nat, bound: nat)
    requires Increasing(ts) && IdsBelow(ts, bound) && i < |ts|
    ensures forall k | 0 <= k < |ts| - 1 :: Field((Cut(ts, i))[k], "id") != Field(ts[i], "id")
  {
    forall k | 0 <= k < |ts| - 1 ensures Field((Cut(ts, i))[k], "id") != Field(ts[i], "id") {
      CutIndex(ts, i, k);
      IncreasingUnique(ts, bound, i, if k < i then k else k + 1);
    }
  }

  /** Cutting out one entry keeps every entry at another position. */
  lemma CutKeepsOthers(ts: seq<Toast>, i: nat, j: nat)
    requires i < |ts| && j < |ts| && j != i
    ensures ts[j] in Cut(ts, i)
  {
    if j < i {
      CutIndex(ts, i, j);
    } else {
      CutIndex(ts, i, j - 1);
    }
  }

  /**
   * With increasing ids, `removeToast(id)` removes every entry with that id
   * (there is at most one) and keeps every other entry, in order.
   */
  lemma RemovedExactly(ts: seq<Toast>, id: Value, bound: nat)
    requires Increasing(ts) && IdsBelow(ts, bound)
    ensures Increasing(Removed(ts, id)) && IdsBelow(Removed(ts, id), bound)
    ensures forall k | 0 <= k < |Removed(ts, id)| :: Field(Removed(ts, id)[k], "id") != id
    ensures forall t | t in ts && Field(t, "id") != id :: t in Removed(ts, id)
  {
    var i := FindIndex(ts, id);
    if i != -1 {
      CutKeepsOrder(ts, i, bound);
      CutRemovesId(ts, i, bound);
      forall t | t in ts && Field(t, "id") != id ensures t in Removed(ts, id) {
        var j :| 0 <= j < |ts| && ts[j] == t;
        CutKeepsOthers(ts, i, j);
      }
    }
  }

  /** A scheduled expiry: the id to remove and the delay it was scheduled with. */
  datatype Timer = Timer(id: nat, delay: Value)

  const SuccessKind: string := "success"
  const ErrorKind: string := "error"
  const InfoKind: string := "info"
  const WarningKind: string := "warning"

  /**
   * The module-level state every `useToast()` call shares: the `toasts` list,
   * the `toastId` counter, and the expiry timers still to fire.
   */
  class ToastStore {
    var toasts: seq<Toast>
    var toastId: nat
    var timers: seq<Timer>

    /**
     * Holds as long as no caller supplies an `id` property of their own:
     * every listed toast and every timer refers to an id already handed out,
     * and the list is in increasing id order.
     */
    ghost predicate Valid()
      reads this
    {
      && IdsBelow(toasts, toastId)
      && Increasing(toasts)
      && (forall timer | timer in timers :: timer.id < toastId)
    }

    /** `ref([])` and `let toastId = 0`. */
    constructor ()
      ensures Valid()
      ensures toasts == [] && toastId == 0 && timers == []
    {
      toasts, toastId, timers := [], 0, [];
    }

    /**
     * `addToast`: hands out the counter's value and advances the counter,
     * appends the stamped toast after all existing entries, and schedules its
     * expiry.
     */
    method AddToast(t: Toast) returns (id: nat)
      modifies this
      ensures id == old(toastId) && toastId == old(toastId) + 1
      ensures toasts == old(toasts) + [Stamp(id, t)]
      ensures timers == old(timers) + [Timer(id, ExpiryDelay(t))]
      ensures old(Valid()) && "id" !in t ==> Valid()
    {
      id := toastId;
      toastId := toastId + 1;
      toasts := toasts + [Stamp(id, t)];
      timers := timers + [Timer(id, ExpiryDelay(t))];
    }

    /** `removeToast`: the list loses the first entry with that id, if any; the counter and timers stay. */
    method RemoveToast(id: Value)
      modifies this
      ensures toasts == Removed(old(toasts), id)
      ensures toastId == old(toastId) && timers == old(timers)
      ensures old(Valid()) ==> Valid()
      ensures old(Valid()) ==> forall k | 0 <= k < |toasts| :: Field(toasts[k], "id") != id
    {
      if Valid() {
        RemovedExactly(toasts, id, toastId);
      }
      toasts := Removed(toasts, id);
    }

    /** The `k`-th pending timer fires: it is dropped and removes its toast's id. */
    method Expire(k: nat)
      requires k < |timers|
      modifies this
      ensures toasts == Removed(old(toasts), Num(old(timers[k].id)))
      ensures timers == old(timers[..k] + timers[k + 1..])
      ensures toastId == old(toastId)
      ensures old(Valid()) ==> Valid()
    {
      var id := timers[k].id;
      ghost var before := timers;
      timers := timers[..k] + timers[k + 1..];
      assert forall timer | timer in timers :: timer in before;
      RemoveToast(Num(id));
    }

    /** `success`: `addToast` with `type` defaulting to `'success'`. */
    method Success(t: Toast) returns (id: nat)
      modifies this
      ensures id == old(toastId) && toastId == old(toastId) + 1
      ensures toasts == old(toasts) + [Stamp(id, WithType(SuccessKind, t))]
      ensures timers == old(timers) + [Timer(id, ExpiryDelay(t))]
      ensures old(Valid()) && "id" !in t ==> Valid()
    {
      WithTypeKeepsDelay(SuccessKind, t);
      id := AddToast(WithType(SuccessKind, t));
    }

    /** `error`: `addToast` with `type` defaulting to `'error'`. */
    method Error(t: Toast) returns (id: nat)
      modifies this
      ensures id == old(toastId) && toastId == old(toastId) + 1
      ensures toasts == old(toasts) + [Stamp(id, WithType(ErrorKind, t))]
      ensures timers == old(timers) + [Timer(id, ExpiryDelay(t))]
      ensures old(Valid()) && "id" !in t ==> Valid()
    {
      WithTypeKeepsDelay(ErrorKind, t);
      id := AddToast(WithType(ErrorKind, t));
    }

    /** `info`: `addToast` with `type` defaulting to `'info'`. */
    method Info(t: Toast) returns (id: nat)
      modifies this
      ensures id == old(toastId) && toastId == old(toastId) + 1
      ensures toasts == old(toasts) + [Stamp(id, WithType(InfoKind, t))]
      ensures timers == old(timers) + [Timer(id, ExpiryDelay(t))]
      ensures old(Valid()) && "id" !in t ==> Valid()
    {
      WithTypeKeepsDelay(InfoKind, t);
      id := AddToast(WithType(InfoKind, t));
    }

    /** `warning`: `addToast` with `type` defaulting to `'warning'`. */
    method Warning(t: Toast) returns (id: nat)
      modifies this
      ensures id == old(toastId) && toastId == old(toastId) + 1
      ensures toasts == old(toasts) + [Stamp(id, WithType(WarningKind, t))]
      ensures timers == old(timers) + [Timer(id, ExpiryDelay(t))]
      ensures old(Valid()) && "id" !in t ==> Valid()
    {
      WithTypeKeepsDelay(WarningKind, t);
      id := AddToast(WithType(WarningKind, t));
    }
  }

  /** The kind helpers only add the `type` default: the duration, and with it the expiry delay, is the caller's. */
  lemma WithTypeKeepsDelay(kind: string, t: Toast)
    ensures ExpiryDelay(WithType(kind, t)) == ExpiryDelay(t)
  {
    assert Field(WithType(kind, t), "duration") == Field(t, "duration");
  }

  /** A stored toast's `type` is the caller's when they gave one, otherwise the helper's kind. */
  lemma StoredType(id: nat, kind: string, t: Toast)
    ensures "type" in t ==> Field(Stamp(id, WithType(kind, t)), "type") == t["type"]
    ensures "type" !in t ==> Field(Stamp(id, WithType(kind, t)), "type") == Str(kind)
  {
  }
}
