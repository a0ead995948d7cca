/** The event-listener registry (lib/DomEventsSink.js): a list of registered
    listeners that can be removed in bulk by conjunctive, optional filters. */
module DomEventsSink {
  import opened Base

  /** Identities of event targets and of handler functions (compared with `===`). */
  type TargetId = nat
  type HandlerId = nat

  /** The `optionsOrCapture` argument: omitted (`undefined`), `null`, a boolean, or an
      options object whose `capture` member is absent or a boolean. */
  datatype ListenerOptions = Omitted | NullOptions | Capture(flag: bool) | OptionsObject(capture: Option<bool>)

  /** `optionsOrCapture === true || typeof optionsOrCapture === 'object' && optionsOrCapture.capture === true`;
      `None` when the argument is `null`, where reading `.capture` throws a TypeError. */
  function UseCapture(options: ListenerOptions): (r: Option<bool>)
    ensures r.None? <==> options.NullOptions?
    ensures r == Some(true) <==> options == Capture(true) || options == OptionsObject(Some(true))
  {
    match options
    case Omitted => Some(false)
    case NullOptions => None
    case Capture(b) => Some(b)
    case OptionsObject(c) => Some(c == Some(true))
  }

  /** `optionsOrCapture ? optionsOrCapture : false`: what `addEventListener` is given. */
  function RegisteredOptions(options: ListenerOptions): (r: ListenerOptions)
    ensures r == (if options.Capture? || options.OptionsObject? then options else Capture(false))
  {
    match options
    case Omitted => Capture(false)
    case NullOptions => Capture(false)
    case Capture(b) => Capture(b)
    case OptionsObject(_) => options
  }

  /** One entry of `_events`. */
  datatype Record = Record(el: TargetId, name: string, namespace: Option<string>,
                           handler: HandlerId, useCapture: bool)

  /** `eventName.split('.')`: segment 0 is the name, segment 1 (if any) the namespace. */
  function EventName(eventName: string): string
  {
    SplitOn(eventName, '.')[0]
  }

  function EventNamespace(eventName: string): Option<string>
  {
    var parts := SplitOn(eventName, '.');
    if |parts| > 1 then Some(parts[1]) else None
  }

  /** Name and namespace each carry no dot, and the name is the text before the first dot. */
  lemma EventNameParts(eventName: string)
    ensures '.' !in EventName(eventName)
    ensures EventNamespace(eventName).Some? ==> '.' !in EventNamespace(eventName).value
    ensures EventNamespace(eventName).None? <==> '.' !in eventName
    ensures EventNamespace(eventName).None? ==> EventName(eventName) == eventName
    ensures EventNamespace(eventName).Some? ==> eventName[..|EventName(eventName)| + 1] == EventName(eventName) + "."
  {
    var parts := SplitOn(eventName, '.');
    JoinSplitOn(eventName, '.');
    var i := IndexOf(eventName, '.');
    if '.' in eventName {
      var k :| 0 <= k < |eventName| && eventName[k] == '.';
      assert i <= k;
    }
    if i < |eventName| {
      assert parts[0] == eventName[..i];
      assert eventName[..i + 1] == eventName[..i] + ".";
    }
  }

  /** The filters `remove` applies: each `None` is a filter that is switched off. */
  datatype Filter = Filter(el: Option<TargetId>, name: Option<string>, namespace: Option<string>,
                           handler: Option<HandlerId>, capture: Option<bool>)

  /** A string is truthy when it is not empty. */
  function Truthy(s: Option<string>): Option<string>
  {
    if s.Some? && |s.value| > 0 then s else None
  }

  /** The filters of `remove(el, eventName, handler, optionsOrCapture)`, or `None` when the
      arguments make it throw (`null` options). A falsy event name gives no name filter. */
  function MakeFilter(el: Option<TargetId>, eventName: Option<string>, handler: Option<HandlerId>,
                      options: ListenerOptions): (f: Option<Filter>)
    ensures f.None? <==> options.NullOptions?
    ensures f.Some? ==> (f.value.capture.Some? <==> !options.Omitted?)
    ensures f.Some? && f.value.capture.Some? ==> Some(f.value.capture.value) == UseCapture(options)
    ensures f.Some? ==> f.value.el == el && f.value.handler == handler
    ensures f.Some? && f.value.name.Some? ==> |f.value.name.value| > 0
    ensures f.Some? && f.value.namespace.Some? ==> |f.value.namespace.value| > 0
  {
    if options.NullOptions? then None
    else
      var named := eventName.Some? && |eventName.value| > 0;
      var name := if named then Some(EventName(eventName.value)) else None;
      var namespace := if named then EventNamespace(eventName.value) else None;
      var capture := if options.Omitted? then None else UseCapture(options);
      Some(Filter(el, Truthy(name), Truthy(namespace), handler, capture))
  }

  /** No filter at all: the "remove everything" case. */
  predicate NoFilter(f: Filter)
  {
    f.el.None? && f.name.None? && f.namespace.None? && f.handler.None? && f.capture.None?
  }

  /** A record is removed iff it satisfies every filter that is switched on. */
  predicate Selects(f: Filter, r: Record)
  {
    && (f.el.Some? ==> r.el == f.el.value)
    && (f.name.Some? ==> r.name == f.name.value)
    && (f.namespace.Some? ==> r.namespace == f.namespace)
    && (f.handler.Some? ==> r.handler == f.handler.value)
    && (f.capture.Some? ==> r.useCapture == f.capture.value)
  }

  /** The records `remove` keeps, in their order. */
  function Kept(events: seq<Record>, f: Filter): (kept: seq<Record>)
    ensures |kept| <= |events|
    ensures forall k :: 0 <= k < |kept| ==> kept[k] in events && !Selects(f, kept[k])
  {
    if |events| == 0 then []
    else (if Selects(f, events[0]) then [] else [events[0]]) + Kept(events[1..], f)
  }

  /** The records `remove` drops, in their order. */
  function Removed(events: seq<Record>, f: Filter): (removed: seq<Record>)
    ensures |removed| <= |events|
    ensures forall k :: 0 <= k < |removed| ==> removed[k] in events && Selects(f, removed[k])
  {
    if |events| == 0 then []
    else (if Selects(f, events[0]) then [events[0]] else []) + Removed(events[1..], f)
  }

  /** Kept and removed records together are exactly the old list. */
  lemma {:induction false} PartitionExact(events: seq<Record>, f: Filter)
    ensures multiset(Kept(events, f)) + multiset(Removed(events, f)) == multiset(events)
    ensures |Kept(events, f)| + |Removed(events, f)| == |events|
  {
    if |events| > 0 {
      var x, rest := events[0], events[1..];
      PartitionExact(rest, f);
      PartitionStep(x, rest, f);
      assert events == [x] + rest;
      assert multiset(events) == multiset([x]) + multiset(rest);
    }
  }

  /** The first record goes to exactly one side. */
  lemma PartitionStep(x: Record, rest: seq<Record>, f: Filter)
    ensures Kept([x] + rest, f) == (if Selects(f, x) then [] else [x]) + Kept(rest, f)
    ensures Removed([x] + rest, f) == (if Selects(f, x) then [x] else []) + Removed(rest, f)
  {
    assert ([x] + rest)[1..] == rest;
  }

  /** Every record that fails a filter is kept, every record that passes all is removed. */
  lemma {:induction false} PartitionMembership(events: seq<Record>, f: Filter, r: Record)
    requires r in events
    ensures !Selects(f, r) ==> r in Kept(events, f)
    ensures Selects(f, r) ==> r in Removed(events, f)
  {
    if events[0] != r {
      PartitionMembership(events[1..], f, r);
    }
  }

  /** Filtering distributes over concatenation, so kept records keep their relative order. */
  lemma {:induction false} KeptAppend(a: seq<Record>, b: seq<Record>, f: Filter)
    ensures Kept(a + b, f) == Kept(a, f) + Kept(b, f)
  {
    if |a| > 0 {
      assert (a + b)[1..] == a[1..] + b;
      KeptAppend(a[1..], b, f);
    } else {
      assert a + b == b;
    }
  }

  /** Likewise for the removed records. */
  lemma {:induction false} RemovedAppend(a: seq<Record>, b: seq<Record>, f: Filter)
    ensures Removed(a + b, f) == Removed(a, f) + Removed(b, f)
  {
    if |a| > 0 {
      assert (a + b)[1..] == a[1..] + b;
      RemovedAppend(a[1..], b, f);
    } else {
      assert a + b == b;
    }
  }

  /** With no filter every record is removed. */
  lemma {:induction false} NoFilterRemovesAll(events: seq<Record>, f: Filter)
    requires NoFilter(f)
    ensures Kept(events, f) == [] && Removed(events, f) == events
  {
    if |events| > 0 {
      NoFilterRemovesAll(events[1..], f);
    }
  }

  /** A `.ns` event name filters by namespace only; options `false` selects non-capturing listeners. */
  lemma NamespaceOnlyFilter(ns: string)
    requires |ns| > 0 && '.' !in ns
    ensures MakeFilter(None, Some("." + ns), None, Capture(false))
            == Some(Filter(None, None, Some(ns), None, Some(false)))
  {
    var s := "." + ns;
    assert s[0] == '.';
    assert IndexOf(s, '.') == 0;
    assert s[1..] == ns;
    assert SplitOn(ns, '.') == [ns];
    assert SplitOn(s, '.') == [""] + SplitOn(ns, '.');
  }

  /** A call the sink makes on an event target. */
  datatype HostCall =
    | AddEventListener(target: TargetId, name: string, handler: HandlerId, options: ListenerOptions)
    | RemoveEventListener(target: TargetId, name: string, handler: HandlerId, useCapture: bool)

  /** The `removeEventListener` calls for the given records, in order. */
  function RemovalCalls(records: seq<Record>): (calls: seq<HostCall>)
    ensures |calls| == |records|
    ensures forall k :: 0 <= k < |records| ==>
      calls[k] == RemoveEventListener(records[k].el, records[k].name, records[k].handler, records[k].useCapture)
  {
    if |records| == 0 then []
    else [RemoveEventListener(records[0].el, records[0].name, records[0].handler, records[0].useCapture)]
         + RemovalCalls(records[1..])
  }

  /** The host's listener bookkeeping, as a log of the calls it received. */
  class ListenerLog {
    ghost var calls: seq<HostCall>

    constructor ()
      ensures calls == []
    {
      calls := [];
    }

    method Record(call: HostCall)
      modifies this
      ensures calls == old(calls) + [call]
    {
      calls := calls + [call];
    }
  }

  class Sink {
    var events: seq<Record>

    /** A new sink has no records. */
    constructor ()
      ensures events == []
    {
      events := [];
    }

    /** Registers the host listener and appends exactly one record; `ok` is false when
        `null` options make the `.capture` read throw after the listener was registered. */
    method Add(host: ListenerLog, el: TargetId, eventName: string, handler: HandlerId, options: ListenerOptions)
      returns (self: Sink, ok: bool)
      modifies this, host
      ensures self == this
      ensures ok == !options.NullOptions?
      ensures host.calls == old(host.calls) +
                            [AddEventListener(el, EventName(eventName), handler, RegisteredOptions(options))]
      ensures ok ==> events == old(events) +
                     [Record(el, EventName(eventName), EventNamespace(eventName), handler, UseCapture(options).value)]
      ensures !ok ==> events == old(events)
    {
      var parts := SplitOn(eventName, '.');
      var name := parts[0];
      var namespace := if |parts| > 1 then Some(parts[1]) else None;
      host.Record(AddEventListener(el, name, handler, RegisteredOptions(options)));
      self := this;
      var useCapture := UseCapture(options);
      if useCapture.None? {
        ok := false;
        return;
      }
      ok := true;
      events := events + [Record(el, name, namespace, handler, useCapture.value)];
    }

    /** Partitions the records by the filters, keeps the non-matching ones and calls
        `removeEventListener` for each removed one, in order. Throws (changing nothing)
        for `null` options. */
    method Remove(host: ListenerLog, el: Option<TargetId>, eventName: Option<string>,
                  handler: Option<HandlerId>, options: ListenerOptions)
      returns (self: Sink, ok: bool)
      modifies this, host
      ensures self == this
      ensures ok == !options.NullOptions?
      ensures !ok ==> events == old(events) && host.calls == old(host.calls)
      ensures ok ==> var f := MakeFilter(el, eventName, handler, options).value;
        && events == Kept(old(events), f)
        && host.calls == old(host.calls) + RemovalCalls(Removed(old(events), f))
    {
      self := this;
      var filter := MakeFilter(el, eventName, handler, options);
      if filter.None? {
        ok := false;
        return;
      }
      ok := true;
      var f := filter.value;
      var keep: seq<Record> := [];
      var remove: seq<Record> := [];
      if !NoFilter(f) {
        keep, remove := Partition(events, f);
      } else {
        NoFilterRemovesAll(events, f);
        remove := events;
      }
      events := keep;
      NotifyRemoved(host, remove);
    }
  }

  /** The first loop of `remove`: each record goes to `keep` or to `remove`, in order. */
  method Partition(events: seq<Record>, f: Filter) returns (keep: seq<Record>, remove: seq<Record>)
    ensures keep == Kept(events, f) && remove == Removed(events, f)
  {
    keep, remove := [], [];
    var i := 0;
    while i < |events|
      invariant 0 <= i <= |events|
      invariant keep == Kept(events[..i], f)
      invariant remove == Removed(events[..i], f)
    {
      KeptAppend(events[..i], [events[i]], f);
      RemovedAppend(events[..i], [events[i]], f);
      assert events[..i + 1] == events[..i] + [events[i]];
      if !Selects(f, events[i]) {
        keep := keep + [events[i]];
      } else {
        remove := remove + [events[i]];
      }
      i := i + 1;
    }
    assert events[..i] == events;
  }

  /** The second loop of `remove`: `removeEventListener` for each removed record, in order. */
  method NotifyRemoved(host: ListenerLog, remove: seq<Record>)
    modifies host
    ensures host.calls == old(host.calls) + RemovalCalls(remove)
  {
    var j := 0;
    while j < |remove|
      invariant 0 <= j <= |remove|
      invariant host.calls == old(host.calls) + RemovalCalls(remove[..j])
    {
      var item := remove[j];
      host.Record(RemoveEventListener(item.el, item.name, item.handler, item.useCapture));
      assert remove[..j + 1] == remove[..j] + [item];
      RemovalCallsAppend(remove[..j], [item]);
      j := j + 1;
    }
    assert remove[..j] == remove;
  }

  lemma {:induction false} RemovalCallsAppend(a: seq<Record>, b: seq<Record>)
    ensures RemovalCalls(a + b) == RemovalCalls(a) + RemovalCalls(b)
  {
    if |a| > 0 {
      assert (a + b)[1..] == a[1..] + b;
      RemovalCallsAppend(a[1..], b);
    } else {
      assert a + b == b;
    }
  }
}
