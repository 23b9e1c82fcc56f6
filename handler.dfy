/**
 * AbstractHandler: the per-entity service that persists entities through
 * the object manager, then fires at most one event per operation. It keeps
 * two tables keyed by operation: the configured event names (memoized from
 * the event's NAME when missing) and the registered event classes.
 *
 * The object manager and the event dispatcher are outside this model; what
 * the handler asks of them is recorded, in order, in `trace`.
 */
module Handler {
  import opened Values
  import opened Strings
  import opened Exceptions
  import opened AppEvents
  import opened Tables

  /** The operation keys both event tables start with, each mapped to null. */
  const EventKeys: set<string> := {"get", "post", "put", "patch", "delete", "add", "edit", "remove"}

  function InitialEventTable(): (m: map<string, Value>)
    ensures m.Keys == EventKeys
    ensures forall k :: k in m ==> m[k] == Null
  {
    map k | k in EventKeys :: Null
  }

  /** A call on the object manager. */
  datatype StoreCall = Persist(entity: Entity) | Flush | Delete(entity: Entity)

  /** Which object-manager call throws, if any: the write (persist or remove) or the flush. */
  datatype StoreFault = NoFault | FailsOnWrite(e: Failure) | FailsOnFlush(e: Failure)

  /** What the event dispatcher received: the name and the event's class, entity, container and context. */
  datatype Dispatch = Dispatch(name: string, eventClass: EventClass, entity: Option<Entity>,
                               container: Option<Container>, context: Option<map<string, Value>>)

  /** One side effect of a handler operation, in the order it happened. */
  datatype SideEffect = StoreEffect(call: StoreCall) | DispatchEffect(dispatch: Dispatch)

  // ---------------------------------------------------------------- isInt

  /** `is_numeric`: ints and floats are numeric; a string is numeric as PHP's numeric-string grammar says. */
  predicate IsNumeric(v: Value, numericString: string -> bool)
  {
    match v
    case Int(_) => true
    case Float(_) => true
    case Str(s) => numericString(s)
    case _ => false
  }

  lemma ContainsChar(s: string, c: char)
    ensures Contains(s, [c]) <==> c in s
  {
    if c in s {
      var j :| 0 <= j < |s| && s[j] == c;
      assert OccursAt(s, [c], j);
    }
    if Contains(s, [c]) {
      var j := Find(s, [c]).value;
      assert s[j..j + 1] == [c];
      assert s[j] == c;
    }
  }

  /**
   * isInt: ints, and numeric strings without a '.', are integers; anything
   * not numeric, a string with a '.', and a float are not. The last test of
   * the source, on `(int)$number`, can never fail.
   */
  function IsInt(v: Value, numericString: string -> bool): (r: bool)
    ensures r <==> v.Int? || (v.Str? && numericString(v.s) && '.' !in v.s)
  {
    if !IsNumeric(v, numericString) then false
    else if v.Str? && (ContainsChar(v.s, '.'); Contains(v.s, ".")) then false
    else if !v.Int? && !v.Str? then false
    else true
  }

  // ---------------------------------------------------------------- event names

  /** `eventNames[key]` when the key is present, null otherwise. */
  function ConfiguredName(names: map<string, Value>, key: string): Value
  {
    if key in names then names[key] else Null
  }

  /**
   * getEventName: the answer and the table afterwards. A configured string
   * is answered as is; otherwise, given an event, its NAME is answered and
   * recorded; with no event, whatever is configured (null or a non-string)
   * is answered and nothing changes.
   */
  function LookupEventName(names: map<string, Value>, key: string, eventName: Option<string>)
    : (r: (Value, map<string, Value>))
    ensures eventName.Some? ==> r.0.Str?
  {
    var configured := ConfiguredName(names, key);
    if !configured.Str? && eventName.Some? then (Str(eventName.value), names[key := Str(eventName.value)])
    else (configured, names)
  }

  /** A configured string name wins over the event's NAME and leaves the table alone. */
  lemma ConfiguredNameWins(names: map<string, Value>, key: string, eventName: Option<string>)
    requires key in names && names[key].Str?
    ensures LookupEventName(names, key, eventName) == (names[key], names)
  {
  }

  /**
   * Memoization: once a name is derived from an event it is recorded under
   * the key, and every later lookup of that key, with or without an event,
   * answers the same name and changes nothing.
   */
  lemma DerivedNameIsMemoized(names: map<string, Value>, key: string, name: string, later: Option<string>)
    requires !ConfiguredName(names, key).Str?
    ensures var (n, names') := LookupEventName(names, key, Some(name));
            && n == Str(name)
            && key in names' && names'[key] == Str(name)
            && names'.Keys == names.Keys + {key}
            && LookupEventName(names', key, later) == (n, names')
  {
  }

  /** With no event and no configured string, the lookup changes nothing and answers what is configured. */
  lemma NoEventNoChange(names: map<string, Value>, key: string)
    ensures LookupEventName(names, key, None) == (ConfiguredName(names, key), names)
  {
  }

  // ---------------------------------------------------------------- event classes

  /** What `setEventClassName` verifies before storing: the value names an existing event class. */
  function EventClassCheck(w: ClassWorld): (string, Value) -> bool
  {
    (k: string, v: Value) => w.IsEventClass(v)
  }

  /** Every stored event class is null or the name of an event class. */
  ghost predicate ClassTableValid(w: ClassWorld, classNames: map<string, Value>)
  {
    forall k :: k in classNames ==> classNames[k] == Null || w.IsEventClass(classNames[k])
  }

  /**
   * The event class getEvent instantiates for `key`: none when the key is
   * unknown (the INVALID_KEY failure is swallowed) or the stored value names
   * no existing class.
   */
  function ResolveEventClass(w: ClassWorld, classNames: map<string, Value>, key: string): (c: Option<EventClass>)
    requires w.Valid() && ClassTableValid(w, classNames)
    ensures c.Some? <==> key in classNames && w.ClassExists(classNames[key])
    ensures c.Some? ==> c.value == w.events[classNames[key].s] && c.value.className == classNames[key].s
  {
    if key in classNames && w.ClassExists(classNames[key]) then Some(w.events[classNames[key].s]) else None
  }

  /**
   * fireEvent, for an already lower-cased key: the event-name table
   * afterwards and what is dispatched. An event is dispatched at most once,
   * and only when an event class resolves for the key.
   */
  function FireEffect(w: ClassWorld, names: map<string, Value>, classNames: map<string, Value>,
                      container: Option<Container>, key: string, entity: Entity, context: map<string, Value>)
    : (r: (map<string, Value>, seq<Dispatch>))
    requires w.Valid() && ClassTableValid(w, classNames)
  {
    match ResolveEventClass(w, classNames, key)
    case None => (names, [])
    case Some(c) =>
      var (n, names') := LookupEventName(names, key, Some(NameConstant(c)));
      (names', [Dispatch(n.s, c, Some(entity), container, Some(context))])
  }

  /**
   * What fireEvent dispatches: nothing when no event class resolves; else
   * exactly one dispatch, of an event of the resolved class carrying the
   * entity, the handler's container and the context, under the configured
   * string name if there is one and the class's NAME otherwise.
   */
  lemma FireEffectSpec(w: ClassWorld, names: map<string, Value>, classNames: map<string, Value>,
                       container: Option<Container>, key: string, entity: Entity, context: map<string, Value>)
    requires w.Valid() && ClassTableValid(w, classNames)
    ensures var (names', ds) := FireEffect(w, names, classNames, container, key, entity, context);
            var c := ResolveEventClass(w, classNames, key);
            && |ds| <= 1
            && (|ds| == 1 <==> c.Some?)
            && (c.None? ==> names' == names)
            && (c.Some? ==>
                  && ds[0].eventClass == c.value
                  && ds[0].entity == Some(entity) && ds[0].container == container && ds[0].context == Some(context)
                  && (ConfiguredName(names, key).Str? ==> ds[0].name == ConfiguredName(names, key).s && names' == names)
                  && (!ConfiguredName(names, key).Str? ==>
                        ds[0].name == NameConstant(c.value) && names' == names[key := Str(ds[0].name)]))
  {
  }

  // ---------------------------------------------------------------- persistence

  /**
   * The object-manager calls of one write (`first` is the persist or remove
   * call) and what is thrown. The flush is issued only when asked for and
   * only when the write did not throw; whatever is thrown is rethrown as is.
   */
  function StoreTrace(first: StoreCall, andFlush: bool, fault: StoreFault): (r: (seq<StoreCall>, Option<Failure>))
  {
    match fault
    case FailsOnWrite(e) => ([first], Some(e))
    case FailsOnFlush(e) => if andFlush then ([first, Flush], Some(e)) else ([first], None)
    case NoFault => (if andFlush then [first, Flush] else [first], None)
  }

  /**
   * persistEntity's calls: the write always comes first; the flush follows
   * exactly when it was asked for and the write did not throw; what is
   * thrown is the failing call's own exception, and nothing else throws.
   */
  lemma StoreTraceSpec(first: StoreCall, andFlush: bool, fault: StoreFault)
    ensures var (calls, thrown) := StoreTrace(first, andFlush, fault);
            && 1 <= |calls| <= 2 && calls[0] == first
            && (|calls| == 2 <==> andFlush && !fault.FailsOnWrite?) && (|calls| == 2 ==> calls[1] == Flush)
            && (thrown.Some? <==> fault.FailsOnWrite? || (fault.FailsOnFlush? && andFlush))
            && (thrown.Some? ==> thrown.value == fault.e)
  {
  }

  function StoreEffects(calls: seq<StoreCall>): (es: seq<SideEffect>)
    ensures |es| == |calls|
    ensures forall i :: 0 <= i < |calls| ==> es[i] == StoreEffect(calls[i])
  {
    seq(|calls|, i requires 0 <= i < |calls| => StoreEffect(calls[i]))
  }

  function DispatchEffects(ds: seq<Dispatch>): (es: seq<SideEffect>)
    ensures |es| == |ds|
    ensures forall i :: 0 <= i < |ds| ==> es[i] == DispatchEffect(ds[i])
  {
    seq(|ds|, i requires 0 <= i < |ds| => DispatchEffect(ds[i]))
  }

  /**
   * add/edit/remove: write (and flush), then fire. The side effects in order
   * and what is thrown.
   */
  function WriteThenFire(first: StoreCall, fault: StoreFault, fired: seq<Dispatch>): (r: (seq<SideEffect>, Option<Failure>))
  {
    var (calls, thrown) := StoreTrace(first, true, fault);
    (StoreEffects(calls) + (if thrown.None? then DispatchEffects(fired) else []), thrown)
  }

  /**
   * Persist first, then fire: every store call precedes every dispatch; the
   * write and the flush are both issued unless the write throws; a throw
   * means no event at all and is the fault's own exception; otherwise the
   * dispatches are exactly those of fireEvent.
   */
  lemma {:induction false} WriteThenFireSpec(first: StoreCall, fault: StoreFault, fired: seq<Dispatch>)
    ensures var (es, thrown) := WriteThenFire(first, fault, fired);
            && (thrown.Some? <==> !fault.NoFault?)
            && (thrown.Some? ==> thrown.value == fault.e)
            && es[0] == StoreEffect(first)
            && (forall i, j :: 0 <= i < j < |es| && es[i].DispatchEffect? ==> es[j].DispatchEffect?)
            && (thrown.Some? ==> forall i :: 0 <= i < |es| ==> es[i].StoreEffect?)
            && (thrown.None? ==> es == [StoreEffect(first), StoreEffect(Flush)] + DispatchEffects(fired))
            && (fault.FailsOnWrite? ==> es == [StoreEffect(first)])
  {
    var (calls, thrown) := StoreTrace(first, true, fault);
    var es := WriteThenFire(first, fault, fired).0;
    if thrown.None? {
      assert calls == [first, Flush];
      assert StoreEffects(calls) == [StoreEffect(first), StoreEffect(Flush)];
      forall i, j | 0 <= i < j < |es| && es[i].DispatchEffect? ensures es[j].DispatchEffect? {
        assert i >= 2;
      }
    } else {
      assert es == StoreEffects(calls);
    }
  }

  /**
   * add, edit or remove as a whole: the side effects in order, what is
   * thrown, and the event-name table afterwards. `first` is the persist or
   * remove call; `eventKey` is the key before lower-casing.
   */
  function Operation(w: ClassWorld, names: map<string, Value>, classNames: map<string, Value>,
                     container: Option<Container>, first: StoreCall, eventKey: string, entity: Entity,
                     context: map<string, Value>, fault: StoreFault)
    : (r: (seq<SideEffect>, Option<Failure>, map<string, Value>))
    requires w.Valid() && ClassTableValid(w, classNames)
  {
    var (names', ds) := FireEffect(w, names, classNames, container, ToLower(eventKey), entity, context);
    var (es, t) := WriteThenFire(first, fault, ds);
    (es, t, if t.None? then names' else names)
  }

  /**
   * An operation writes first and fires after: it throws exactly when the
   * store does, and then dispatches nothing and leaves the event names
   * alone; otherwise it issues the write and the flush and then dispatches
   * exactly one event if an event class resolves for the lower-cased key,
   * and none if not.
   */
  lemma OperationSpec(w: ClassWorld, names: map<string, Value>, classNames: map<string, Value>,
                      container: Option<Container>, first: StoreCall, eventKey: string, entity: Entity,
                      context: map<string, Value>, fault: StoreFault)
    requires w.Valid() && ClassTableValid(w, classNames)
    ensures var (es, t, names') := Operation(w, names, classNames, container, first, eventKey, entity, context, fault);
            var resolved := ResolveEventClass(w, classNames, ToLower(eventKey)).Some?;
            && (t.Some? <==> !fault.NoFault?)
            && (t.Some? ==> names' == names && forall i :: 0 <= i < |es| ==> es[i].StoreEffect?)
            && (t.None? ==> |es| == (if resolved then 3 else 2)
                            && es[0] == StoreEffect(first) && es[1] == StoreEffect(Flush)
                            && (resolved ==> es[2].DispatchEffect? && es[2].dispatch.entity == Some(entity)))
  {
    var (names', ds) := FireEffect(w, names, classNames, container, ToLower(eventKey), entity, context);
    FireEffectSpec(w, names, classNames, container, ToLower(eventKey), entity, context);
    WriteThenFireSpec(first, fault, ds);
  }

  // ---------------------------------------------------------------- roles

  /** A security role object; PHP's strict `in_array` compares such objects by identity. */
  class Role {
    const role: string
    constructor (role: string)
      ensures this.role == role
    {
      this.role := role;
    }
  }

  /** The names of the roles in `all` that are not (by identity) among `given`, in order. */
  function NewRoleNames(all: seq<Role>, given: seq<Role>): seq<string>
    decreases |all|
  {
    if all == [] then []
    else NewRoleNames(all[..|all| - 1], given) + (if all[|all| - 1] in given then [] else [all[|all| - 1].role])
  }

  /** A name is reported iff some reachable role object outside `given` carries it. */
  lemma {:induction false} NewRoleNamesSpec(all: seq<Role>, given: seq<Role>, x: string)
    ensures x in NewRoleNames(all, given) <==> exists r :: r in all && r !in given && r.role == x
    decreases |all|
  {
    if all != [] {
      var pre := all[..|all| - 1];
      NewRoleNamesSpec(pre, given, x);
      assert all == pre + [all[|all| - 1]];
      if x in NewRoleNames(all, given) && x !in NewRoleNames(pre, given) {
        assert all[|all| - 1] in all;
      }
      forall r | r in all && r !in given && r.role == x
        ensures x in NewRoleNames(all, given)
      {
        if r != all[|all| - 1] {
          assert r in pre;
        }
      }
    }
  }

  predicate NoDuplicates(s: seq<string>)
  {
    forall i, j :: 0 <= i < j < |s| ==> s[i] != s[j]
  }

  /** The position of the first occurrence of `x` in `s`. */
  function FirstIndex(s: seq<string>, x: string): (k: nat)
    requires x in s
    ensures k < |s| && s[k] == x && x !in s[..k]
  {
    if s[0] == x then 0
    else
      var k := 1 + FirstIndex(s[1..], x);
      assert s[..k] == [s[0]] + s[1..][..k - 1];
      k
  }

  /** Only the first occurrence is preceded by no occurrence. */
  lemma FirstIndexUnique(s: seq<string>, x: string, k: nat)
    requires k < |s| && s[k] == x && x !in s[..k]
    ensures FirstIndex(s, x) == k
  {
  }

  /**
   * array_unique: the first occurrence of every value, in order. The result
   * has no duplicates, holds exactly the input's values, and lists them in
   * the order of their first occurrences in the input.
   */
  function Unique(s: seq<string>): (r: seq<string>)
    ensures NoDuplicates(r)
    ensures forall x :: x in r <==> x in s
    ensures forall i, j :: 0 <= i < j < |r| ==> FirstIndex(s, r[i]) < FirstIndex(s, r[j])
    decreases |s|
  {
    if s == [] then []
    else
      var pre := s[..|s| - 1];
      var last := s[|s| - 1];
      assert s == pre + [last];
      var p := Unique(pre);
      FirstIndexExtend(pre, last);
      if last in p then p
      else
        FirstIndexLast(pre, last);
        p + [last]
  }

  /** Appending an element keeps the first index of every earlier one. */
  lemma FirstIndexExtend(pre: seq<string>, last: string)
    ensures forall x :: x in pre ==> FirstIndex(pre + [last], x) == FirstIndex(pre, x)
  {
    forall x | x in pre
      ensures FirstIndex(pre + [last], x) == FirstIndex(pre, x)
    {
      var k := FirstIndex(pre, x);
      assert (pre + [last])[..k] == pre[..k];
      FirstIndexUnique(pre + [last], x, k);
    }
  }

  /** A new element's first index is where it was appended. */
  lemma FirstIndexLast(pre: seq<string>, last: string)
    requires last !in pre
    ensures FirstIndex(pre + [last], last) == |pre|
  {
    assert (pre + [last])[..|pre|] == pre;
    FirstIndexUnique(pre + [last], last, |pre|);
  }

  // ---------------------------------------------------------------- the handler

  class Handler {
    const world: ClassWorld
    var eventNames: map<string, Value>
    var eventClassNames: map<string, Value>
    var container: Option<Container>
    var trace: seq<SideEffect>

    ghost predicate Valid()
      reads this
    {
      world.Valid() && ClassTableValid(world, eventClassNames)
    }

    constructor (world: ClassWorld)
      requires world.Valid()
      ensures Valid() && this.world == world
      ensures eventNames == InitialEventTable() && eventClassNames == InitialEventTable()
      ensures container == None && trace == []
    {
      this.world := world;
      eventNames := InitialEventTable();
      eventClassNames := InitialEventTable();
      container := None;
      trace := [];
    }

    method SetContainer(container: Option<Container>)
      modifies this`container
      ensures this.container == container
    {
      this.container := container;
    }

    /** getEventName: see LookupEventName. */
    method GetEventName(key: string, event: AppEvent?) returns (name: Value)
      modifies this`eventNames
      ensures (name, eventNames) ==
              LookupEventName(old(eventNames), key, if event == null then None else Some(NameConstant(event.eventClass)))
    {
      name := Null;
      var setEventName := false;
      if key in eventNames {
        name := eventNames[key];
      }
      if !name.Str? && event != null {
        setEventName := true;
        name := Str(event.GetEventName());
      }
      if setEventName {
        SetEventName(key, name);
      }
    }

    /** setEventName: stores any value under any key. */
    method SetEventName(key: string, value: Value)
      modifies this`eventNames
      ensures eventNames == old(eventNames)[key := value]
    {
      eventNames := eventNames[key := value];
    }

    /** setEventNames: every pair in order, a later pair for a key winning. */
    method SetEventNames(updates: seq<(string, Value)>)
      modifies this`eventNames
      ensures eventNames == Overlay(old(eventNames), updates)
    {
      var i := 0;
      while i < |updates|
        invariant 0 <= i <= |updates|
        invariant eventNames == Overlay(old(eventNames), updates[..i])
      {
        assert updates[..i + 1][..i] == updates[..i];
        SetEventName(updates[i].0, updates[i].1);
        i := i + 1;
      }
      assert updates[..i] == updates;
    }

    /** getEventClassName: the stored value, or INVALID_KEY for a key the table does not have. */
    function GetEventClassName(key: string): (r: Result<Value, Failure>)
      reads this
      ensures r.Ok? <==> key in eventClassNames
      ensures r.Ok? ==> r.value == eventClassNames[key]
      ensures r.Err? ==> r.error.HandlerFailure? && r.error.kind == InvalidKey
    {
      if key in eventClassNames then Ok(eventClassNames[key])
      else Err(HandlerFailure(InvalidKey, "unable to find event class (" + key + ")"))
    }

    /**
     * setEventClassName: stores the value only when it names an existing
     * event class; otherwise INVALID_TYPE and the table is unchanged.
     */
    method SetEventClassName(key: string, value: Value) returns (thrown: Option<Failure>)
      requires Valid()
      modifies this`eventClassNames
      ensures Valid()
      ensures world.IsEventClass(value) ==> thrown == None && eventClassNames == old(eventClassNames)[key := value]
      ensures !world.IsEventClass(value) ==>
                && thrown.Some? && thrown.value.HandlerFailure? && thrown.value.kind == InvalidType
                && eventClassNames == old(eventClassNames)
    {
      if world.ClassExists(value) {
        if world.IsEventClass(value) {
          eventClassNames := eventClassNames[key := value];
          thrown := None;
        } else {
          thrown := Some(HandlerFailure(InvalidType, value.s + " is not an instance of Chance\\RestApi\\BridgeBundle\\Model\\AppEventInterface"));
        }
      } else {
        thrown := Some(HandlerFailure(InvalidType, (if value.Str? then value.s else "") + " is not a valid class"));
      }
    }

    /**
     * setEventClassNames: stores pairs in order and stops at the first value
     * that is not an event class, keeping the pairs stored before it.
     */
    method SetEventClassNames(updates: seq<(string, Value)>) returns (thrown: Option<Failure>)
      requires Valid()
      modifies this`eventClassNames
      ensures Valid()
      ensures eventClassNames == ApplyUntil(old(eventClassNames), updates, EventClassCheck(world)).0
      ensures thrown.None? <==> ApplyUntil(old(eventClassNames), updates, EventClassCheck(world)).1.None?
      ensures thrown.Some? ==> thrown.value.HandlerFailure? && thrown.value.kind == InvalidType
    {
      var accepts := EventClassCheck(world);
      var i := 0;
      thrown := None;
      while i < |updates|
        invariant 0 <= i <= |updates|
        invariant Valid() && thrown == None
        invariant var r := ApplyUntil(eventClassNames, updates[i..], accepts);
                  var r0 := ApplyUntil(old(eventClassNames), updates, accepts);
                  r.0 == r0.0 && (r.1.None? <==> r0.1.None?)
      {
        if !world.IsEventClass(updates[i].1) {
          assert updates[i..][0] == updates[i];
          assert !accepts(updates[i].0, updates[i].1);
          thrown := SetEventClassName(updates[i].0, updates[i].1);
          return;
        }
        ApplyUntilStep(eventClassNames, updates, i, accepts);
        thrown := SetEventClassName(updates[i].0, updates[i].1);
        i := i + 1;
      }
      assert updates[i..] == [];
    }

    /** The event class getEvent would instantiate for `key` now. */
    function EventClassFor(key: string): Option<EventClass>
      reads this
      requires Valid()
    {
      ResolveEventClass(world, eventClassNames, key)
    }

    /**
     * getEvent: a fresh event of the resolved class carrying the context,
     * the handler's container and the entity; null when the key is unknown
     * (INVALID_KEY is swallowed) or names no existing class.
     */
    method GetEvent(key: string, entity: Entity, context: map<string, Value>) returns (event: AppEvent?)
      requires Valid()
      ensures EventClassFor(key).None? ==> event == null
      ensures EventClassFor(key).Some? ==>
                && event != null && fresh(event)
                && event.eventClass == EventClassFor(key).value
                && event.entity == Some(entity) && event.container == container && event.context == Some(context)
    {
      event := null;
      var className := GetEventClassName(key);
      if className.Ok? {
        var cls := className.value;
        if world.ClassExists(cls) {
          var e := new AppEvent(world.events[cls.s], None, None, None);
          e.SetContext(Some(context));
          e.SetContainer(container);
          e.SetEntity(Some(entity));
          event := e;
        }
      }
    }

    /** fireEvent: lower-cases the key and dispatches at most one event, as FireEffect says. */
    method FireEvent(entity: Entity, eventKey: string, context: map<string, Value>)
      requires Valid()
      modifies this`eventNames, this`trace
      ensures var (names', ds) := FireEffect(world, old(eventNames), eventClassNames, container,
                                            ToLower(eventKey), entity, context);
              eventNames == names' && trace == old(trace) + DispatchEffects(ds)
    {
      var key := ToLower(eventKey);
      var event := GetEvent(key, entity, context);
      if event != null {
        var name := GetEventName(key, event);
        var d := Dispatch(name.s, event.eventClass, event.entity, event.container, event.context);
        trace := trace + [DispatchEffect(d)];
      }
    }

    /** persistEntity: persist, flush when asked, and rethrow whatever is thrown. */
    method PersistEntity(entity: Entity, andFlush: bool, fault: StoreFault) returns (r: Result<Entity, Failure>)
      modifies this`trace
      ensures var (calls, thrown) := StoreTrace(Persist(entity), andFlush, fault);
              && trace == old(trace) + StoreEffects(calls)
              && (thrown.None? ==> r == Ok(entity))
              && (thrown.Some? ==> r == Err(thrown.value))
    {
      trace := trace + [StoreEffect(Persist(entity))];
      if fault.FailsOnWrite? {
        return Err(fault.e);
      }
      if andFlush {
        trace := trace + [StoreEffect(Flush)];
        if fault.FailsOnFlush? {
          return Err(fault.e);
        }
      }
      r := Ok(entity);
    }

    /** The event key add/edit/remove fire with: the caller's string, else the operation's default. */
    static function EventKeyOr(eventKey: Value, default: string): string
    {
      if eventKey.Str? then eventKey.s else default
    }

    /** add: persist and flush, then fire under the key (default "add"). */
    method Add(entity: Entity, eventKey: Value, context: map<string, Value>, fault: StoreFault)
      returns (thrown: Option<Failure>)
      requires Valid()
      modifies this`eventNames, this`trace
      ensures var (es, t, names') := Operation(world, old(eventNames), eventClassNames, container, Persist(entity),
                                               EventKeyOr(eventKey, "add"), entity, context, fault);
              trace == old(trace) + es && thrown == t && eventNames == names'
    {
      thrown := Persisted(entity, fault);
      if thrown.None? {
        FireEvent(entity, EventKeyOr(eventKey, "add"), context);
      }
    }

    /** edit: persist and flush, then fire under the key (default "edit"). */
    method Edit(entity: Entity, eventKey: Value, context: map<string, Value>, fault: StoreFault)
      returns (thrown: Option<Failure>)
      requires Valid()
      modifies this`eventNames, this`trace
      ensures var (es, t, names') := Operation(world, old(eventNames), eventClassNames, container, Persist(entity),
                                               EventKeyOr(eventKey, "edit"), entity, context, fault);
              trace == old(trace) + es && thrown == t && eventNames == names'
    {
      thrown := Persisted(entity, fault);
      if thrown.None? {
        FireEvent(entity, EventKeyOr(eventKey, "edit"), context);
      }
    }

    /** remove: remove and flush, then fire under the key (default "remove"). */
    method Remove(entity: Entity, eventKey: Value, context: map<string, Value>, fault: StoreFault)
      returns (thrown: Option<Failure>)
      requires Valid()
      modifies this`eventNames, this`trace
      ensures var (es, t, names') := Operation(world, old(eventNames), eventClassNames, container, Delete(entity),
                                               EventKeyOr(eventKey, "remove"), entity, context, fault);
              trace == old(trace) + es && thrown == t && eventNames == names'
    {
      trace := trace + [StoreEffect(Delete(entity))];
      if fault.FailsOnWrite? {
        return Some(fault.e);
      }
      trace := trace + [StoreEffect(Flush)];
      if fault.FailsOnFlush? {
        return Some(fault.e);
      }
      thrown := None;
      FireEvent(entity, EventKeyOr(eventKey, "remove"), context);
    }

    /** persistEntity with flushing, as add and edit call it; the exception it throws, if any. */
    method Persisted(entity: Entity, fault: StoreFault) returns (thrown: Option<Failure>)
      modifies this`trace
      ensures var (calls, t) := StoreTrace(Persist(entity), true, fault);
              trace == old(trace) + StoreEffects(calls) && thrown == t
    {
      var r := PersistEntity(entity, true, fault);
      thrown := if r.Err? then Some(r.error) else None;
    }

    /**
     * getAssignedRoles: needs the container (MISSING_DEPENDENCY otherwise);
     * without a role list it takes the token's roles; answers the names of
     * the reachable roles that are not among the given role objects.
     */
    method GetAssignedRoles(givenRoles: Option<seq<Role>>, tokenRoles: seq<Role>, reachable: seq<Role> -> seq<Role>)
      returns (r: Result<seq<string>, Failure>)
      ensures container.None? ==> r.Err? && r.error.HandlerFailure? && r.error.kind == MissingDependency
      ensures container.Some? ==>
                var given := if givenRoles.Some? then givenRoles.value else tokenRoles;
                r.Ok? && forall x :: x in r.value <==> exists ro :: ro in reachable(given) && ro !in given && ro.role == x
    {
      if container.None? {
        return Err(HandlerFailure(MissingDependency, "container not set"));
      }
      var given := if givenRoles.Some? then givenRoles.value else tokenRoles;
      var allRoles := reachable(given);
      var userRoles: seq<string> := [];
      var i := 0;
      while i < |allRoles|
        invariant 0 <= i <= |allRoles|
        invariant userRoles == NewRoleNames(allRoles[..i], given)
      {
        assert allRoles[..i + 1][..i] == allRoles[..i];
        if !(allRoles[i] in given) {
          userRoles := userRoles + [allRoles[i].role];
        }
        i := i + 1;
      }
      assert allRoles[..i] == allRoles;
      forall x ensures x in userRoles <==> exists ro :: ro in allRoles && ro !in given && ro.role == x {
        NewRoleNamesSpec(allRoles, given, x);
      }
      r := Ok(userRoles);
    }

    /**
     * getCurrentUserRoles: the user's role names merged with the names the
     * hierarchy adds for them, without duplicates, every user role kept.
     */
    method GetCurrentUserRoles(userRoles: seq<string>, reachable: seq<Role> -> seq<Role>)
      returns (r: Result<seq<string>, Failure>, ghost objects: seq<Role>)
      ensures |objects| == |userRoles| && forall i :: 0 <= i < |userRoles| ==> objects[i].role == userRoles[i]
      ensures container.None? ==> r.Err? && r.error.HandlerFailure? && r.error.kind == MissingDependency
      ensures container.Some? ==>
                && r.Ok? && NoDuplicates(r.value)
                && forall x :: x in r.value <==>
                                 x in userRoles || exists ro :: ro in reachable(objects) && ro !in objects && ro.role == x
    {
      var roleObjects: seq<Role> := [];
      var i := 0;
      while i < |userRoles|
        invariant 0 <= i <= |userRoles|
        invariant |roleObjects| == i && forall j :: 0 <= j < i ==> roleObjects[j].role == userRoles[j]
      {
        var role := new Role(userRoles[i]);
        roleObjects := roleObjects + [role];
        i := i + 1;
      }
      objects := roleObjects;
      var givenRoles := GetAssignedRoles(Some(roleObjects), [], reachable);
      if givenRoles.Err? {
        r := Err(givenRoles.error);
      } else {
        r := Ok(Unique(userRoles + givenRoles.value));
      }
    }
  }
}
