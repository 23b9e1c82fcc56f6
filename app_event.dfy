/**
 * AbstractAppEvent: the event a handler dispatches after it persisted or
 * removed an entity. It carries the entity, the container and a free-form
 * context array, and answers its dispatch name from its NAME constant.
 */
module AppEvents {
  import opened Values

  /** What `self::class` evaluates to inside AbstractAppEvent. */
  const AbstractAppEventClass := "Chance\\RestApi\\BridgeBundle\\Event\\AbstractAppEvent"

  /**
   * A concrete event class: its fully qualified name and, when the class
   * redeclares it, its own NAME constant.
   */
  datatype EventClass = EventClass(className: string, ownName: Option<string>)

  /**
   * `static::NAME`. AbstractAppEvent declares `NAME = self::class`, which is
   * resolved where it is written, so a subclass that does not redeclare NAME
   * inherits the abstract base's own class name.
   */
  function NameConstant(c: EventClass): (name: string)
    ensures c.ownName.Some? ==> name == c.ownName.value
    ensures c.ownName.None? ==> name == AbstractAppEventClass
  {
    match c.ownName
    case Some(n) => n
    case None => AbstractAppEventClass
  }

  /** Two event classes that keep the inherited NAME are dispatched under the same name. */
  lemma InheritedNamesCollide(a: EventClass, b: EventClass)
    requires a.ownName.None? && b.ownName.None?
    ensures NameConstant(a) == NameConstant(b)
  {
  }

  /**
   * The classes that exist at run time, as far as the handler can ask
   * (`class_exists`), and among them those implementing the event interface
   * (`is_subclass_of($c, EVENT_INTERFACE)`), each with its description.
   */
  datatype ClassWorld = ClassWorld(classes: set<string>, events: map<string, EventClass>)
  {
    predicate Valid()
    {
      && events.Keys <= classes
      && forall c :: c in events ==> events[c].className == c
    }

    /** `class_exists($v)`: false for anything but the name of an existing class. */
    predicate ClassExists(v: Value)
    {
      v.Str? && v.s in classes
    }

    /** `is_subclass_of($v, EVENT_INTERFACE)`. */
    predicate IsEventClass(v: Value)
    {
      v.Str? && v.s in events
    }
  }

  /** The two AppEventException codes. */
  datatype AppEventError = InvalidFormat | MissingKey

  class AppEvent {
    const eventClass: EventClass
    var entity: Option<Entity>
    var container: Option<Container>
    var context: Option<map<string, Value>>

    /** Stores the given entity, container and context unchanged. */
    constructor (cls: EventClass, entity: Option<Entity>, container: Option<Container>,
                 context: Option<map<string, Value>>)
      ensures eventClass == cls
      ensures this.entity == entity && this.container == container && this.context == context
    {
      eventClass := cls;
      this.entity := entity;
      this.container := container;
      this.context := context;
    }

    method SetContainer(container: Option<Container>)
      modifies this`container
      ensures this.container == container
    {
      this.container := container;
    }

    method SetEntity(entity: Option<Entity>)
      modifies this`entity
      ensures this.entity == entity
    {
      this.entity := entity;
    }

    method SetContext(context: Option<map<string, Value>>)
      modifies this`context
      ensures this.context == context
    {
      this.context := context;
    }

    /**
     * A context entry. A key that is not a string is refused; a null context
     * and an absent key are both MISSING_KEY; a present key answers its value,
     * null included.
     */
    function GetContextItem(key: Value): (r: Result<Value, AppEventError>)
      reads this
      ensures !key.Str? ==> r == Err(InvalidFormat)
      ensures key.Str? ==> (r.Ok? <==> context.Some? && key.s in context.value)
      ensures key.Str? && r.Err? ==> r.error == MissingKey
      ensures r.Ok? ==> key.Str? && context.Some? && key.s in context.value && r.value == context.value[key.s]
    {
      if !key.Str? then Err(InvalidFormat)
      else if context.Some? && key.s in context.value then Ok(context.value[key.s])
      else Err(MissingKey)
    }

    /** The dispatch name: the class's NAME constant. */
    function GetEventName(): (name: string)
      ensures eventClass.ownName.Some? ==> name == eventClass.ownName.value
      ensures eventClass.ownName.None? ==> name == AbstractAppEventClass
    {
      NameConstant(eventClass)
    }
  }

  /** A null value stored under a key is still found: it is not reported missing. */
  lemma ContextNullIsFound(e: AppEvent, key: string)
    requires e.context.Some? && key in e.context.value && e.context.value[key] == Null
    ensures e.GetContextItem(Str(key)) == Ok(Null)
  {
  }
}
