/**
 * AbstractRestHandler: the handler behind a REST resource. On top of the
 * event-firing handler it keeps the entity-route table (one route name per
 * HTTP verb, derived on first use), turns a bound form into an add, an edit
 * or nothing, cleans the request payload, and builds the repository query
 * for a listing.
 *
 * PHP's class inheritance becomes composition: the handler's own state
 * lives in `core`.
 */
module RestHandler {
  import opened Values
  import opened Strings
  import opened Exceptions
  import opened AppEvents
  import opened Tables
  import opened Handler

  /** The keys of the entity-route table; no other key can ever be set. */
  const RouteKeys: set<string> := {"get", "post", "put", "patch", "delete"}

  /** The criteria key a user-aware listing is restricted on. */
  const UserAwareIdProperty := "userId"

  function InitialRoutes(): (m: map<string, Value>)
    ensures m.Keys == RouteKeys
    ensures forall k :: k in m ==> m[k] == Null
  {
    map k | k in RouteKeys :: Null
  }

  // ---------------------------------------------------------------- entity routes

  /** A string-or-null field in a `.` concatenation: null contributes nothing. */
  function Text(v: Option<string>): string
  {
    if v.Some? then v.value else ""
  }

  /** The route getEntityRoute derives for an empty entry: prefix, key, "_", form template variable name. */
  function DerivedRoute(prefix: Option<string>, key: string, varName: Option<string>): string
  {
    Text(prefix) + key + "_" + Text(varName)
  }

  /** A derived route always holds the "_", so PHP never finds it empty. */
  lemma DerivedRouteNotEmpty(prefix: Option<string>, key: string, varName: Option<string>)
    ensures Truthy(Str(DerivedRoute(prefix, key, varName)))
  {
    var r := DerivedRoute(prefix, key, varName);
    assert r[|Text(prefix)| + |key|] == '_';
  }

  /**
   * getEntityRoute: the answer and the table afterwards. An unknown key is
   * INVALID_ENTITY_ROUTE_KEY; a non-empty entry is answered as is; an empty
   * one (null, "", "0", ...) is replaced by the derived route, which is
   * answered and stored.
   */
  function RouteLookup(routes: map<string, Value>, key: string, prefix: Option<string>, varName: Option<string>)
    : (r: (Result<Value, Failure>, map<string, Value>))
  {
    if key !in routes then
      (Err(HandlerFailure(InvalidEntityRouteKey, "unable to find entity route (" + key + ")")), routes)
    else if Truthy(routes[key]) then (Ok(routes[key]), routes)
    else
      var d := Str(DerivedRoute(prefix, key, varName));
      (Ok(d), routes[key := d])
  }

  /** An unknown key is refused with INVALID_ENTITY_ROUTE_KEY and the table is left alone. */
  lemma RouteLookupUnknownKey(routes: map<string, Value>, key: string, prefix: Option<string>, varName: Option<string>)
    requires key !in routes
    ensures var (r, routes') := RouteLookup(routes, key, prefix, varName);
            r.Err? && r.error.HandlerFailure? && r.error.kind == InvalidEntityRouteKey && routes' == routes
  {
  }

  /**
   * A known key always answers a non-empty route: the stored one when it is
   * not empty (table unchanged), the derived one otherwise, which is then
   * the key's entry; no other entry changes and no key is added. A second
   * lookup answers the same route and changes nothing.
   */
  lemma RouteLookupCaches(routes: map<string, Value>, key: string, prefix: Option<string>, varName: Option<string>)
    requires key in routes
    ensures var (r, routes') := RouteLookup(routes, key, prefix, varName);
            && r.Ok? && Truthy(r.value)
            && routes'.Keys == routes.Keys && routes'[key] == r.value
            && (forall k :: k in routes && k != key ==> routes'[k] == routes[k])
            && (Truthy(routes[key]) ==> r.value == routes[key] && routes' == routes)
            && (!Truthy(routes[key]) ==> r.value == Str(Text(prefix) + key + "_" + Text(varName)))
            && RouteLookup(routes', key, prefix, varName) == (r, routes')
  {
    DerivedRouteNotEmpty(prefix, key, varName);
  }

  /** What setEntityRoute verifies before storing: the key is one of the five route keys. */
  function RouteKeyCheck(): (string, Value) -> bool
  {
    (k: string, v: Value) => k in RouteKeys
  }

  /**
   * setEntityRoutes never adds a key: whether it stops at an unknown key or
   * not, the table keeps exactly the five route keys.
   */
  lemma {:induction false} RouteUpdatesKeepKeys(m: map<string, Value>, u: seq<(string, Value)>)
    requires m.Keys == RouteKeys
    ensures ApplyUntil(m, u, RouteKeyCheck()).0.Keys == RouteKeys
  {
    ApplyUntilSpec(m, u, RouteKeyCheck());
    var r := ApplyUntil(m, u, RouteKeyCheck());
    var applied := if r.1.Some? then u[..r.1.value] else u;
    assert r.0 == Overlay(m, applied);
    assert forall i :: 0 <= i < |applied| ==> applied[i].0 in RouteKeys;
    forall k ensures k in r.0 <==> k in RouteKeys {
      OverlayLookup(m, applied, k);
    }
  }

  // ---------------------------------------------------------------- form requests

  /** What processFormRequest asks of the handler for valid data. */
  datatype Action = AddEntity | EditEntity | NoWrite

  /**
   * The switch on the lower-cased method: "put" edits an entity whose id
   * validates as an int and adds otherwise, "patch" edits, "delete" writes
   * nothing, and "post" and every other method add.
   */
  function ChooseAction(httpMethod: string, idIsInt: bool): (a: Action)
    ensures a == NoWrite <==> ToLower(httpMethod) == "delete"
    ensures a == EditEntity <==> ToLower(httpMethod) == "patch" || (ToLower(httpMethod) == "put" && idIsInt)
    ensures a == AddEntity <==> ToLower(httpMethod) != "delete" && ToLower(httpMethod) != "patch"
                                && !(ToLower(httpMethod) == "put" && idIsInt)
  {
    match ToLower(httpMethod)
    case "put" => if idIsInt then EditEntity else AddEntity
    case "patch" => EditEntity
    case "delete" => NoWrite
    case _ => AddEntity
  }

  /** getFormFromRequestData submits with clearMissing unless the method is exactly "PATCH". */
  function ClearsMissing(httpMethod: string): bool
  {
    "PATCH" != httpMethod
  }

  /**
   * The submit mode compares case-sensitively while the dispatch does not:
   * a lower-case "patch" is dispatched as an edit but still clears the
   * fields the request leaves out.
   */
  lemma PatchSpellings(idIsInt: bool)
    ensures ChooseAction("patch", idIsInt) == EditEntity && ClearsMissing("patch")
    ensures ChooseAction("PATCH", idIsInt) == EditEntity && !ClearsMissing("PATCH")
  {
    assert ToLower("PATCH") == "patch";
    assert ToLower("patch") == "patch";
  }

  /**
   * handleInvalidForm: always an InvalidForm carrying the form's error text,
   * with the HTTP conflict code exactly when that text contains
   * "already in use with", and the default code otherwise.
   */
  function HandleInvalidForm(errors: string): (f: Failure)
    ensures f.InvalidForm? && f.formErrors == errors
    ensures f.code == Some(HttpConflict) <==> Contains(errors, "already in use with")
    ensures f.code != Some(HttpConflict) ==> f.code == None
  {
    if !Contains(errors, "already in use with") then InvalidForm(None, errors)
    else InvalidForm(Some(HttpConflict), errors)
  }

  /**
   * The outcome of binding and validating the request: whether the form is
   * valid, the entity the form holds afterwards, and the text of its errors.
   */
  datatype FormVerdict = FormVerdict(valid: bool, data: Entity, errors: string)

  // ---------------------------------------------------------------- request payload

  /**
   * array_replace_recursive: every key of either array; a key only in `a`
   * keeps its value, a key of `b` takes b's value unless both values are
   * arrays, in which case they are merged the same way.
   */
  function ReplaceRecursive(a: map<string, Value>, b: map<string, Value>): (r: map<string, Value>)
    ensures r.Keys == a.Keys + b.Keys
    ensures forall k :: k in a && k !in b ==> r[k] == a[k]
    ensures forall k :: k in b && !(k in a && a[k].Arr? && b[k].Arr?) ==> r[k] == b[k]
    ensures forall k :: k in a && k in b && a[k].Arr? && b[k].Arr? ==>
              b[k] in b.Values && r[k] == Arr(ReplaceRecursive(a[k].entries, b[k].entries))
    decreases Arr(b)
  {
    map k | k in a.Keys + b.Keys ::
      if k in b && k in a && a[k].Arr? && b[k].Arr? then
        assert b[k] in b.Values;
        Arr(ReplaceRecursive(a[k].entries, b[k].entries))
      else if k in b then b[k]
      else a[k]
  }

  /** Replacing an array by itself changes nothing. */
  lemma {:induction false} ReplaceRecursiveSelf(a: map<string, Value>)
    ensures ReplaceRecursive(a, a) == a
    decreases Arr(a)
  {
    var r := ReplaceRecursive(a, a);
    forall k | k in a ensures r[k] == a[k] {
      if a[k].Arr? {
        assert a[k] in a.Values;
        ReplaceRecursiveSelf(a[k].entries);
      }
    }
  }

  /** Merging the same files in again changes nothing: the files already won every key they carry. */
  lemma {:induction false} ReplaceRecursiveIdempotent(a: map<string, Value>, b: map<string, Value>)
    ensures ReplaceRecursive(ReplaceRecursive(a, b), b) == ReplaceRecursive(a, b)
    decreases Arr(b)
  {
    var r := ReplaceRecursive(a, b);
    var r2 := ReplaceRecursive(r, b);
    forall k | k in r ensures r2[k] == r[k] {
      if k in b && r[k].Arr? && b[k].Arr? {
        assert b[k] in b.Values;
        if k in a && a[k].Arr? {
          ReplaceRecursiveIdempotent(a[k].entries, b[k].entries);
        } else {
          ReplaceRecursiveSelf(b[k].entries);
        }
      }
    }
  }

  /** The request keys the payload never carries on to the form. */
  const StrippedKeys: set<string> := {"submit", "_format"}

  /**
   * parseFormDataFromRequest, over the request's parameter bag and file bag
   * and the form's name: the form's entry from each bag (when either has
   * one, a missing entry defaults to an empty array for a compound form and
   * to null otherwise); two arrays are merged with the files winning, else
   * the parameters are taken when truthy and the files otherwise; an array
   * loses its "submit" and "_format" keys.
   */
  function ParseFormData(params: map<string, Value>, files: map<string, Value>, name: string, compound: bool)
    : (data: Value)
    ensures data.Arr? ==> data.entries.Keys !! StrippedKeys
    ensures name !in params && name !in files ==> data == Null
  {
    var present := name in params || name in files;
    var default := if compound then Arr(map[]) else Null;
    var p := if !present then Null else if name in params then params[name] else default;
    var f := if !present then Null else if name in files then files[name] else default;
    var merged := if p.Arr? && f.Arr? then Arr(ReplaceRecursive(p.entries, f.entries))
                  else if Truthy(p) then p else f;
    if merged.Arr? then Arr(merged.entries - StrippedKeys) else merged
  }

  /**
   * When both bags carry an array for the form: a key other than "submit"
   * and "_format" is in the payload iff it is in either array; the files'
   * value wins on a shared key (merged when both are arrays) and the
   * parameters' value is kept on a key the files lack.
   */
  lemma ParseFormDataMerge(params: map<string, Value>, files: map<string, Value>, name: string, compound: bool)
    requires name in params && name in files && params[name].Arr? && files[name].Arr?
    ensures var data := ParseFormData(params, files, name, compound);
            var p := params[name].entries;
            var f := files[name].entries;
            && data.Arr?
            && (forall k :: k !in StrippedKeys ==> (k in data.entries <==> k in p || k in f))
            && (forall k :: k in f && k !in StrippedKeys && !(k in p && p[k].Arr? && f[k].Arr?) ==>
                  data.entries[k] == f[k])
            && (forall k :: k in p && k !in f && k !in StrippedKeys ==> data.entries[k] == p[k])
  {
  }

  /**
   * A compound form posted without files: the files default to an empty
   * array and the payload is the parameters minus "submit" and "_format".
   */
  lemma ParseFormDataNoFiles(params: map<string, Value>, files: map<string, Value>, name: string)
    requires name in params && name !in files && params[name].Arr?
    ensures ParseFormData(params, files, name, true) == Arr(params[name].entries - StrippedKeys)
  {
    var p := params[name].entries;
    assert ReplaceRecursive(p, map[]) == p;
  }

  // ---------------------------------------------------------------- listing

  /** The repository call `findBy($criteria, $orderBy, $limit, $offset)` a listing makes. */
  datatype FindByQuery = FindBy(criteria: map<string, Value>, orderBy: Value, limit: Value, offset: Value)

  // ---------------------------------------------------------------- single entities

  /**
   * getOr404: the entity the repository found for `id`, or a not-found
   * failure naming the id.
   */
  function GetOr404(found: Option<Entity>, id: string): (r: Result<Entity, Failure>)
    ensures r.Ok? <==> found.Some?
    ensures r.Ok? ==> r.value == found.value
    ensures r.Err? ==> r.error == NotFound("The resource '" + id + "' was not found.")
  {
    if found.None? then Err(NotFound("The resource '" + id + "' was not found.")) else Ok(found.value)
  }

  // ---------------------------------------------------------------- the handler

  class RestHandler {
    const core: Handler
    var entityRoutes: map<string, Value>
    var routePrefix: Option<string>
    var formTemplateVarName: Option<string>
    var formTypeClass: Option<string>
    var userAware: bool
    const booleanProperties: seq<string>

    ghost predicate Valid()
      reads this
    {
      entityRoutes.Keys == RouteKeys
    }

    /** A handler over `core`, with the initial (all-null) route table and nothing configured. */
    constructor (core: Handler, booleanProperties: seq<string>)
      ensures Valid()
      ensures this.core == core && this.booleanProperties == booleanProperties
      ensures entityRoutes == InitialRoutes() && routePrefix == None && formTemplateVarName == None
      ensures formTypeClass == None && !userAware
    {
      this.core := core;
      this.booleanProperties := booleanProperties;
      entityRoutes := InitialRoutes();
      routePrefix := None;
      formTemplateVarName := None;
      formTypeClass := None;
      userAware := false;
    }

    /** setUserAware: the flag as `filter_var(..., FILTER_VALIDATE_BOOLEAN)` reads the value. */
    method SetUserAware(value: Value, asBool: Value -> bool)
      modifies this`userAware
      ensures userAware == asBool(value)
    {
      userAware := asBool(value);
    }

    /** setRoutePrefix: only a string replaces the prefix. */
    method SetRoutePrefix(value: Value)
      modifies this`routePrefix
      ensures routePrefix == if value.Str? then Some(value.s) else old(routePrefix)
    {
      if value.Str? {
        routePrefix := Some(value.s);
      }
    }

    /** setFormTemplateVarName: only a string replaces the name. */
    method SetFormTemplateVarName(value: Value)
      modifies this`formTemplateVarName
      ensures formTemplateVarName == if value.Str? then Some(value.s) else old(formTemplateVarName)
    {
      if value.Str? {
        formTemplateVarName := Some(value.s);
      }
    }

    /** setEntityRoute: a known key takes the value; an unknown one is INVALID_ENTITY_ROUTE_KEY and nothing changes. */
    method SetEntityRoute(key: string, value: Value) returns (thrown: Option<Failure>)
      modifies this`entityRoutes
      ensures key in old(entityRoutes) ==> thrown == None && entityRoutes == old(entityRoutes)[key := value]
      ensures key !in old(entityRoutes) ==>
                && thrown.Some? && thrown.value.HandlerFailure? && thrown.value.kind == InvalidEntityRouteKey
                && entityRoutes == old(entityRoutes)
      ensures entityRoutes.Keys == old(entityRoutes).Keys
    {
      if key !in entityRoutes {
        return Some(HandlerFailure(InvalidEntityRouteKey, "unable to find entity route (" + key + ")"));
      }
      entityRoutes := entityRoutes[key := value];
      thrown := None;
    }

    /** getEntityRoute: see RouteLookup and RouteLookupCaches. */
    method GetEntityRoute(key: string) returns (r: Result<Value, Failure>)
      modifies this`entityRoutes
      ensures (r, entityRoutes) == RouteLookup(old(entityRoutes), key, routePrefix, formTemplateVarName)
    {
      if key in entityRoutes {
        var route := entityRoutes[key];
        if !Truthy(route) {
          route := Str(Text(routePrefix) + key + "_" + Text(formTemplateVarName));
          var _ := SetEntityRoute(key, route);
        }
        return Ok(route);
      }
      r := Err(HandlerFailure(InvalidEntityRouteKey, "unable to find entity route (" + key + ")"));
    }

    /**
     * setEntityRoutes: stores the pairs in order and stops at the first
     * unknown key, keeping what was stored before it.
     */
    method SetEntityRoutes(updates: seq<(string, Value)>) returns (thrown: Option<Failure>)
      requires Valid()
      modifies this`entityRoutes
      ensures Valid()
      ensures entityRoutes == ApplyUntil(old(entityRoutes), updates, RouteKeyCheck()).0
      ensures thrown.None? <==> ApplyUntil(old(entityRoutes), updates, RouteKeyCheck()).1.None?
      ensures thrown.Some? ==> thrown.value.HandlerFailure? && thrown.value.kind == InvalidEntityRouteKey
    {
      var accepts := RouteKeyCheck();
      var i := 0;
      thrown := None;
      while i < |updates|
        invariant 0 <= i <= |updates|
        invariant Valid() && thrown == None
        invariant var r := ApplyUntil(entityRoutes, updates[i..], accepts);
                  var r0 := ApplyUntil(old(entityRoutes), updates, accepts);
                  r.0 == r0.0 && (r.1.None? <==> r0.1.None?)
      {
        if updates[i].0 !in RouteKeys {
          assert updates[i..][0] == updates[i];
          assert !accepts(updates[i].0, updates[i].1);
          thrown := SetEntityRoute(updates[i].0, updates[i].1);
          return;
        }
        ApplyUntilStep(entityRoutes, updates, i, accepts);
        thrown := SetEntityRoute(updates[i].0, updates[i].1);
        i := i + 1;
      }
      assert updates[i..] == [];
    }

    /** setFormTypeClass: see FilterFormTypeClass. */
    method SetFormTypeClass(value: Value)
      modifies this`formTypeClass
      ensures formTypeClass == FilterFormTypeClass(value)
    {
      var filtered: Option<string> := None;
      if value.Str? {
        filtered := Some(Trim(value.s));
      }
      formTypeClass := filtered;
    }

    /** getFormTypeClass: the configured class, or MISSING_FORM_TYPE when none is set. */
    function GetFormTypeClass(): (r: Result<string, Failure>)
      reads this
      ensures r.Ok? <==> formTypeClass.Some?
      ensures r.Ok? ==> r.value == formTypeClass.value
      ensures r.Err? ==> r.error.HandlerFailure? && r.error.kind == MissingFormType
    {
      if formTypeClass.None? then Err(HandlerFailure(MissingFormType, "form type not set"))
      else Ok(formTypeClass.value)
    }

    /**
     * processFormRequest. Without a form type class the form cannot be built:
     * MISSING_FORM_TYPE is thrown and nothing is written. Invalid data:
     * nothing is written and the InvalidForm of handleInvalidForm is thrown. Valid data: the form's
     * entity is added, edited or left alone as ChooseAction says, an add or
     * edit firing under the method itself as event key, and the entity is
     * answered unless the store throws. `action` is the handler operation
     * called, None for invalid data.
     */
    method ProcessFormRequest(httpMethod: string, verdict: FormVerdict, validatesAsInt: Value -> bool, fault: StoreFault)
      returns (r: Result<Entity, Failure>, action: Option<Action>)
      requires core.Valid()
      modifies core`eventNames, core`trace
      ensures formTypeClass.None? ==>
                && action == None && r.Err? && r.error.HandlerFailure? && r.error.kind == MissingFormType
                && core.trace == old(core.trace) && core.eventNames == old(core.eventNames)
      ensures formTypeClass.Some? && !verdict.valid ==>
                && action == None && r == Err(HandleInvalidForm(verdict.errors))
                && core.trace == old(core.trace) && core.eventNames == old(core.eventNames)
      ensures formTypeClass.Some? && verdict.valid ==> action == Some(ChooseAction(httpMethod, validatesAsInt(verdict.data.id)))
      ensures action == Some(NoWrite) ==>
                r == Ok(verdict.data) && core.trace == old(core.trace) && core.eventNames == old(core.eventNames)
      ensures formTypeClass.Some? && verdict.valid && action != Some(NoWrite) ==>
                var (es, t, names') := Operation(core.world, old(core.eventNames), core.eventClassNames, core.container,
                                                 Persist(verdict.data), httpMethod, verdict.data, map[], fault);
                && core.trace == old(core.trace) + es && core.eventNames == names'
                && r == (if t.None? then Ok(verdict.data) else Err(t.value))
    {
      var formType := GetFormTypeClass();
      if formType.Err? {
        return Err(formType.error), None;
      }
      if !verdict.valid {
        return Err(HandleInvalidForm(verdict.errors)), None;
      }
      var entity := verdict.data;
      var chosen := ChooseAction(httpMethod, validatesAsInt(entity.id));
      action := Some(chosen);
      var thrown: Option<Failure> := None;
      if chosen == EditEntity {
        thrown := core.Edit(entity, Str(httpMethod), map[], fault);
      } else if chosen == AddEntity {
        thrown := core.Add(entity, Str(httpMethod), map[], fault);
      }
      r := if thrown.None? then Ok(entity) else Err(thrown.value);
    }

    /**
     * getParameters: the cleaned payload with every key listed among the
     * boolean properties rewritten to the boolean `filter_var` reads from its
     * value; other keys, and a payload that is not an array, pass unchanged.
     */
    method GetParameters(params: map<string, Value>, files: map<string, Value>, name: string, compound: bool,
                         asBool: Value -> bool)
      returns (parameters: Value)
      ensures var data := ParseFormData(params, files, name, compound);
              && (!data.Arr? ==> parameters == data)
              && (data.Arr? ==>
                    && parameters.Arr? && parameters.entries.Keys == data.entries.Keys
                    && forall k :: k in data.entries ==>
                         parameters.entries[k] ==
                           (if k in booleanProperties then Bool(asBool(data.entries[k])) else data.entries[k]))
    {
      var data := ParseFormData(params, files, name, compound);
      if !data.Arr? {
        return data;
      }
      var entries := data.entries;
      var todo := entries.Keys;
      while todo != {}
        invariant todo <= data.entries.Keys && entries.Keys == data.entries.Keys
        invariant forall k :: k in todo ==> entries[k] == data.entries[k]
        invariant forall k :: k in data.entries && k !in todo ==>
                    entries[k] == (if k in booleanProperties then Bool(asBool(data.entries[k])) else data.entries[k])
        decreases todo
      {
        var k :| k in todo;
        if k in booleanProperties {
          entries := entries[k := Bool(asBool(entries[k]))];
        }
        todo := todo - {k};
      }
      parameters := Arr(entries);
    }

    /**
     * all: the criteria cast to an array and, for a user-aware handler,
     * restricted to the current user's id; order, limit and offset pass
     * through.
     */
    function All(criteria: Value, limit: Value, offset: Value, orderBy: Value, currentUserId: Value): (q: FindByQuery)
      reads this
      ensures q.orderBy == orderBy && q.limit == limit && q.offset == offset
    {
      var c := CastToArray(criteria);
      FindBy(if userAware then c[UserAwareIdProperty := currentUserId] else c, orderBy, limit, offset)
    }
  }

  /** setFormTypeClass keeps a string trimmed and turns anything else into "not set". */
  function FilterFormTypeClass(value: Value): (c: Option<string>)
    ensures c.Some? <==> value.Str?
    ensures c.Some? ==> c.value == Trim(value.s) && |c.value| <= |value.s|
  {
    if value.Str? then Some(Trim(value.s)) else None
  }

  /** Setting the configured form type class again is a no-op: trimming is idempotent. */
  lemma FormTypeClassStable(value: Value)
    requires value.Str?
    ensures FilterFormTypeClass(Str(FilterFormTypeClass(value).value)) == FilterFormTypeClass(value)
  {
    TrimIdempotent(value.s);
  }

  /**
   * A user-aware listing always queries the current user's id, whatever id
   * the caller's criteria carry, and keeps every other criterion; a listing
   * that is not user-aware passes the criteria through as an array.
   */
  lemma AllRestrictsToCurrentUser(h: RestHandler, criteria: Value, limit: Value, offset: Value, orderBy: Value,
                                  currentUserId: Value)
    ensures var q := h.All(criteria, limit, offset, orderBy, currentUserId);
            && (h.userAware ==>
                  && q.criteria.Keys == CastToArray(criteria).Keys + {UserAwareIdProperty}
                  && q.criteria[UserAwareIdProperty] == currentUserId
                  && forall k :: k in CastToArray(criteria) && k != UserAwareIdProperty ==>
                       q.criteria[k] == CastToArray(criteria)[k])
            && (!h.userAware ==> q.criteria == CastToArray(criteria))
  {
  }

  /** Two user-aware listings whose criteria differ only in the user id build the same query. */
  lemma AllIgnoresCallerUserId(h: RestHandler, c1: map<string, Value>, c2: map<string, Value>,
                               limit: Value, offset: Value, orderBy: Value, currentUserId: Value)
    requires h.userAware
    requires c1 - {UserAwareIdProperty} == c2 - {UserAwareIdProperty}
    ensures h.All(Arr(c1), limit, offset, orderBy, currentUserId) == h.All(Arr(c2), limit, offset, orderBy, currentUserId)
  {
    var q1 := h.All(Arr(c1), limit, offset, orderBy, currentUserId).criteria;
    var q2 := h.All(Arr(c2), limit, offset, orderBy, currentUserId).criteria;
    forall k ensures k in q1 <==> k in q2 {
      assert k in c1 - {UserAwareIdProperty} <==> k in c2 - {UserAwareIdProperty};
    }
    forall k | k in q1 ensures q1[k] == q2[k] {
      if k != UserAwareIdProperty {
        assert (c1 - {UserAwareIdProperty})[k] == (c2 - {UserAwareIdProperty})[k];
      }
    }
  }
}
