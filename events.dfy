// The add-on's listener registry (testudo3d/events.py): a module-level dictionary
// from event names to the functions subscribed to them, in subscription order.
// The registry is a class whose one field is reassigned by subscribe and
// unsubscribe; a listener is known only by its identity.

module Events {
  import opened Wrappers

  /** A subscribed function, known by its identity. */
  type Listener = nat

  /** The exceptions unsubscribe lets escape: an unknown event, or a function not subscribed to it. */
  datatype UnsubscribeError = KeyError | ValueError

  type Listeners = map<string, seq<Listener>>

  /** No event keeps an empty list: unsubscribe deletes the key when its list empties. */
  predicate NoEmptyLists(m: Listeners)
  {
    forall e :: e in m ==> m[e] != []
  }

  /** The listeners send_event calls for an event, in order; none for an unknown event. */
  function Calls(m: Listeners, event: string): (r: seq<Listener>)
    ensures event !in m ==> r == []
    ensures NoEmptyLists(m) ==> (r == [] <==> event !in m)
  {
    if event in m then m[event] else []
  }

  /** subscribe: create the event's list if absent and append func at its end. */
  function Subscribed(m: Listeners, event: string, func: Listener): (r: Listeners)
    ensures r.Keys == m.Keys + {event}
    ensures Calls(r, event) == Calls(m, event) + [func]
    ensures forall e :: e in m && e != event ==> r[e] == m[e]
    ensures NoEmptyLists(m) ==> NoEmptyLists(r)
  {
    m[event := Calls(m, event) + [func]]
  }

  /** list.index: the position of the first occurrence of x. */
  function FirstIndex(s: seq<Listener>, x: Listener): (i: nat)
    requires x in s
    ensures i < |s| && s[i] == x && x !in s[..i]
  {
    if s[0] == x then 0
    else
      var i := FirstIndex(s[1..], x);
      assert s[..i + 1] == [s[0]] + s[1..][..i];
      i + 1
  }

  /** list.remove: drop the first occurrence of x. */
  function RemoveFirst(s: seq<Listener>, x: Listener): (r: seq<Listener>)
    requires x in s
    ensures r == s[..FirstIndex(s, x)] + s[FirstIndex(s, x) + 1..]
  {
    if s[0] == x then
      s[1..]
    else
      var rest := RemoveFirst(s[1..], x);
      assert s[..FirstIndex(s, x)] == [s[0]] + s[1..][..FirstIndex(s[1..], x)];
      [s[0]] + rest
  }

  /** list.remove takes away exactly one occurrence. */
  lemma RemoveFirstCount(s: seq<Listener>, x: Listener)
    requires x in s
    ensures multiset(RemoveFirst(s, x)) == multiset(s) - multiset{x}
  {
    var i := FirstIndex(s, x);
    assert s == s[..i] + [x] + s[i + 1..];
  }

  /**
   * unsubscribe: remove one occurrence of func from the event's list, deleting
   * the key once the list is empty; KeyError for an unknown event, ValueError for
   * a function that is not subscribed.
   */
  function Unsubscribed(m: Listeners, event: string, func: Listener): (r: Result<Listeners, UnsubscribeError>)
    ensures event !in m ==> r == Err(KeyError)
    ensures event in m && func !in m[event] ==> r == Err(ValueError)
    ensures r.Ok? && NoEmptyLists(m) ==> NoEmptyLists(r.value)
  {
    if event !in m then Err(KeyError)
    else if func !in m[event] then Err(ValueError)
    else
      var rest := RemoveFirst(m[event], func);
      Ok(if rest == [] then m - {event} else m[event := rest])
  }

  /**
   * A successful unsubscribe touches only the event's list, takes one occurrence of
   * func out of it, and deletes the event exactly when func was its only listener.
   */
  lemma UnsubscribedEffect(m: Listeners, event: string, func: Listener)
    requires event in m && func in m[event]
    ensures var r := Unsubscribed(m, event, func);
      r.Ok? && r.value.Keys <= m.Keys &&
      (forall e :: e in m && e != event ==> e in r.value && r.value[e] == m[e]) &&
      multiset(Calls(r.value, event)) == multiset(m[event]) - multiset{func} &&
      (event !in r.value <==> m[event] == [func])
  {
    var rest := RemoveFirst(m[event], func);
    RemoveFirstCount(m[event], func);
    if rest == [] {
      assert |m[event]| == 1 && m[event][0] == func;
      assert m[event] == [func];
    }
  }

  /** On an event func is not yet subscribed to, subscribe then unsubscribe restores the registry. */
  lemma SubscribeUnsubscribe(m: Listeners, event: string, func: Listener)
    requires NoEmptyLists(m)
    requires event !in m || func !in m[event]
    ensures Unsubscribed(Subscribed(m, event, func), event, func) == Ok(m)
  {
    var s := Calls(m, event);
    var sub := Subscribed(m, event, func);
    assert sub[event] == s + [func];
    assert (s + [func])[..|s|] == s;
    var rest := RemoveFirst(s + [func], func);
    assert rest == s;
    if event in m {
      assert rest == m[event] != [];
      assert sub[event := rest] == m[event := m[event]];
      assert m[event := m[event]] == m;
    } else {
      assert rest == [];
      assert sub - {event} == m;
    }
  }

  /** Unsubscribing a function subscribed several times leaves its later subscriptions in place. */
  lemma UnsubscribeOneOccurrence(m: Listeners, event: string, func: Listener)
    requires event in m && multiset(m[event])[func] >= 2
    ensures var r := Unsubscribed(m, event, func);
      r.Ok? && event in r.value && multiset(r.value[event])[func] == multiset(m[event])[func] - 1
  {
    assert func in multiset(m[event]);
    UnsubscribedEffect(m, event, func);
  }

  /** The module-level listeners dictionary. */
  class Registry {
    var listeners: Listeners

    predicate Valid()
      reads this
    {
      NoEmptyLists(listeners)
    }

    constructor()
      ensures Valid() && listeners == map[]
    {
      listeners := map[];
    }

    method Subscribe(event: string, func: Listener)
      requires Valid()
      modifies this
      ensures Valid() && listeners == Subscribed(old(listeners), event, func)
    {
      if event !in listeners {
        listeners := listeners[event := []];
      }
      listeners := listeners[event := listeners[event] + [func]];
    }

    /** A raised error leaves the registry as it was. */
    method Unsubscribe(event: string, func: Listener) returns (r: Result<(), UnsubscribeError>)
      requires Valid()
      modifies this
      ensures Valid()
      ensures match Unsubscribed(old(listeners), event, func)
        case Ok(m) => r == Ok(()) && listeners == m
        case Err(e) => r == Err(e) && listeners == old(listeners)
    {
      if event !in listeners {
        return Err(KeyError);
      }
      if func !in listeners[event] {
        return Err(ValueError);
      }
      listeners := listeners[event := RemoveFirst(listeners[event], func)];
      if listeners[event] == [] {
        listeners := listeners - {event};
      }
      assert old(listeners)[event := []] - {event} == old(listeners) - {event};
      r := Ok(());
    }

    /** send_event: call every listener of the event once, in subscription order; the calls are returned. */
    method SendEvent(event: string) returns (called: seq<Listener>)
      ensures called == Calls(listeners, event)
      ensures forall f :: f in called <==> event in listeners && f in listeners[event]
    {
      called := [];
      if event in listeners {
        var funcs := listeners[event];
        var k := 0;
        while k < |funcs|
          invariant 0 <= k <= |funcs|
          invariant called == funcs[..k]
        {
          called := called + [funcs[k]];
          k := k + 1;
        }
        assert funcs[..k] == funcs;
      }
    }
  }
}
