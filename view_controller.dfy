/**
 * AbstractRestViewController: turns what the REST handler answers (or
 * throws) into a view with an HTTP status, and derives the five entity
 * routes from the entity's short class name when it receives its container.
 *
 * Storage failures are reported with a readable message: a not-null column
 * is named by its property (`parent_company_id` becomes `parentCompany`),
 * a duplicate entry gets a fixed message.
 */
module ViewController {
  import opened Values
  import opened Strings
  import opened Exceptions
  import opened Tables
  import opened RestHandler
  import opened PropertyNames

  // ---------------------------------------------------------------- not-null column

  /** The literal text before and after the column name in a not-null violation. */
  const NotNullPrefix := "Integrity constraint violation: 1048 Column '"
  const NotNullSuffix := "' cannot be null"

  /** PCRE's `\w` without the unicode flag. */
  predicate IsWordChar(c: char)
  {
    'a' <= c <= 'z' || 'A' <= c <= 'Z' || '0' <= c <= '9' || c == '_'
  }

  /** The end of the run of word characters starting at `j`. */
  function WordEnd(s: string, j: nat): (k: nat)
    requires j <= |s|
    ensures j <= k <= |s|
    ensures forall q :: j <= q < k ==> IsWordChar(s[q])
    ensures k < |s| ==> !IsWordChar(s[k])
    decreases |s| - j
  {
    if j < |s| && IsWordChar(s[j]) then WordEnd(s, j + 1) else j
  }

  /**
   * The pattern `Integrity constraint violation: 1048 Column '(\w+)' cannot
   * be null` matches at `i`. The greedy `\w+` cannot give characters back
   * usefully, since the quote after it is not a word character, so the
   * column is the whole run of word characters after the prefix.
   */
  predicate NotNullMatchAt(s: string, i: nat)
  {
    && OccursAt(s, NotNullPrefix, i)
    && i + |NotNullPrefix| < WordEnd(s, i + |NotNullPrefix|)
    && OccursAt(s, NotNullSuffix, WordEnd(s, i + |NotNullPrefix|))
  }

  /** The leftmost match at or after `from`, as preg_match searches. */
  function FirstNotNullMatch(s: string, from: nat): (r: Option<nat>)
    ensures r.Some? ==> from <= r.value && NotNullMatchAt(s, r.value)
    ensures r.Some? ==> forall i :: from <= i < r.value ==> !NotNullMatchAt(s, i)
    ensures r.None? ==> forall i :: from <= i ==> !NotNullMatchAt(s, i)
    decreases |s| - from
  {
    if from >= |s| then None
    else if NotNullMatchAt(s, from) then Some(from)
    else FirstNotNullMatch(s, from + 1)
  }

  /**
   * The column a not-null violation names: present iff the pattern matches
   * somewhere; then a non-empty run of word characters that the message
   * carries between the pattern's prefix and suffix, taken from the
   * leftmost match.
   */
  function NotNullColumn(message: string): (column: Option<string>)
    ensures column.Some? <==> exists i :: NotNullMatchAt(message, i)
    ensures column.Some? ==> |column.value| > 0 && forall q :: 0 <= q < |column.value| ==> IsWordChar(column.value[q])
    ensures column.Some? ==> Contains(message, NotNullPrefix + column.value + NotNullSuffix)
    ensures column.Some? <==> FirstNotNullMatch(message, 0).Some?
    ensures column.Some? ==>
              var j := FirstNotNullMatch(message, 0).value + |NotNullPrefix|;
              column.value == message[j..WordEnd(message, j)]
  {
    match FirstNotNullMatch(message, 0)
    case None => None
    case Some(i) =>
      var j := i + |NotNullPrefix|;
      MatchSpellsColumn(message, i);
      Some(message[j..WordEnd(message, j)])
  }

  /** Where the pattern matches, the message spells prefix, column and suffix from there on. */
  lemma MatchSpellsColumn(message: string, i: nat)
    requires NotNullMatchAt(message, i)
    ensures var j := i + |NotNullPrefix|;
            OccursAt(message, NotNullPrefix + message[j..WordEnd(message, j)] + NotNullSuffix, i)
  {
    var j := i + |NotNullPrefix|;
    var k := WordEnd(message, j);
    var c := message[j..k];
    assert message[i..k + |NotNullSuffix|] == message[i..j] + message[j..k] + message[k..k + |NotNullSuffix|];
    assert message[i..k + |NotNullSuffix|] == NotNullPrefix + c + NotNullSuffix;
  }

  /** The error text of a not-null violation: the property's name when the column can be read, the raw message otherwise. */
  function NotNullMessage(message: string): string
  {
    match NotNullColumn(message)
    case Some(c) => Prettify(c) + " can not be null."
    case None => message
  }

  // ---------------------------------------------------------------- duplicate entry

  const DuplicatePrefix := "Duplicate entry '"
  const DuplicateMessage := "This item has already been recorded in the database."

  /** From `j` on, a quote comes before any newline (PCRE's `.` stops at a newline). */
  function QuoteBeforeNewline(s: string, j: nat): (r: bool)
    ensures r <==> exists p :: j <= p < |s| && s[p] == '\'' && forall q :: j <= q < p ==> s[q] != '\n'
    decreases |s| - j
  {
    if j >= |s| then false
    else if s[j] == '\'' then true
    else if s[j] == '\n' then false
    else QuoteBeforeNewline(s, j + 1)
  }

  function DuplicateEntryFrom(s: string, from: nat): (r: bool)
    ensures r <==> exists i :: from <= i && OccursAt(s, DuplicatePrefix, i) && QuoteBeforeNewline(s, i + |DuplicatePrefix|)
    decreases |s| - from
  {
    if from >= |s| then false
    else (OccursAt(s, DuplicatePrefix, from) && QuoteBeforeNewline(s, from + |DuplicatePrefix|))
         || DuplicateEntryFrom(s, from + 1)
  }

  /**
   * `/Duplicate entry '(.*)'/` matches: somewhere the prefix is followed,
   * on the same line, by a closing quote.
   */
  function DuplicateEntryMatches(message: string): (r: bool)
    ensures r <==> exists i, p :: && OccursAt(message, DuplicatePrefix, i)
                                  && i + |DuplicatePrefix| <= p < |message| && message[p] == '\''
                                  && forall q :: i + |DuplicatePrefix| <= q < p ==> message[q] != '\n'
  {
    DuplicateEntryFrom(message, 0)
  }

  /** The error text of a unique-constraint violation. */
  function UniqueMessage(message: string): string
  {
    if DuplicateEntryMatches(message) then DuplicateMessage else message
  }

  /**
   * A message carrying "Duplicate entry '", then an entry on one line and its
   * closing quote, is replaced by the fixed sentence; a message without the
   * prefix is passed on unchanged.
   */
  lemma UniqueMessageOf(head: string, entry: string, tail: string)
    requires '\n' !in entry
    ensures UniqueMessage(head + DuplicatePrefix + entry + "'" + tail) == DuplicateMessage
    ensures !Contains(head, DuplicatePrefix) ==> UniqueMessage(head) == head
  {
    var m := head + DuplicatePrefix + entry + "'" + tail;
    var i := |head|;
    var j := i + |DuplicatePrefix|;
    var p := j + |entry|;
    assert m[i..j] == DuplicatePrefix;
    assert OccursAt(m, DuplicatePrefix, i);
    assert m[p] == '\'';
    forall q | j <= q < p ensures m[q] != '\n' {
      assert m[q] == entry[q - j];
    }
  }

  // ---------------------------------------------------------------- views

  /** What a view carries. */
  datatype Body =
    | EntityBody(varName: string, entity: Entity)   // `[templateVar => entity]`
    | ErrorBody(error: string)                      // `['error' => message]`
    | MessageBody(message: string)                  // a bare message
    | ListBody(data: Value)                         // a listing
    | NoBody

  /** The route a view points the client to, with the entity's id. */
  datatype RouteTarget = RouteTo(route: Value, id: Value)

  datatype View = View(status: int, body: Body, route: Option<RouteTarget>)

  /**
   * cgetAction: the listing with 200; a HandlerException's message with 403
   * for ACCESS_DENIED, 400 for BAD_REQUEST and 500 for any other kind; any
   * other exception's message with 500. Nothing is rethrown.
   */
  function CgetOutcome(listing: Result<Value, Failure>): (v: View)
    ensures v.status == HttpOk <==> listing.Ok?
    ensures v.status == HttpForbidden <==> listing.Err? && listing.error.HandlerFailure? && listing.error.kind == AccessDenied
    ensures v.status == HttpBadRequest <==> listing.Err? && listing.error.HandlerFailure? && listing.error.kind == BadRequest
    ensures v.status in {HttpOk, HttpForbidden, HttpBadRequest, HttpInternalServerError}
    ensures listing.Ok? ==> v.body == ListBody(listing.value)
    ensures listing.Err? ==> v.body == MessageBody(Message(listing.error))
  {
    match listing
    case Ok(data) => View(HttpOk, ListBody(data), None)
    case Err(f) =>
      var code := if !f.HandlerFailure? then HttpInternalServerError
                  else match f.kind
                    case AccessDenied => HttpForbidden
                    case BadRequest => HttpBadRequest
                    case _ => HttpInternalServerError;
      View(code, MessageBody(Message(f)), None)
  }

  /** The method handlePutRequest or handlePostRequest runs for putAction, and the status it answers with. */
  function PutDelegate(found: bool): (r: (string, int))
    ensures found ==> r == ("PUT", HttpNoContent)
    ensures !found ==> r == ("POST", HttpCreated)
  {
    if found then ("PUT", HttpNoContent) else ("POST", HttpCreated)
  }

  /**
   * putAction goes through processFormRequest with the method PutDelegate
   * names: a new entity is always added; an existing one is edited when its
   * id validates as an int and added otherwise.
   */
  lemma PutDelegateAction(found: bool, idIsInt: bool)
    ensures ChooseAction(PutDelegate(found).0, idIsInt) ==
            (if found && idIsInt then EditEntity else AddEntity)
  {
    assert ToLower("PUT") == "put";
    assert ToLower("POST") == "post";
  }

  /** The five routes setContainer derives, in the order of the route table. */
  const RouteKeyOrder: seq<string> := ["get", "post", "put", "patch", "delete"]

  /** `routePrefix . method . "_" . shortname` for every route key, in order. */
  function RoutePairs(prefix: Option<string>, varName: string): (u: seq<(string, Value)>)
    ensures |u| == |RouteKeyOrder|
    ensures forall i :: 0 <= i < |u| ==> u[i] == (RouteKeyOrder[i], Str(Text(prefix) + RouteKeyOrder[i] + "_" + varName))
  {
    seq(|RouteKeyOrder|, i requires 0 <= i < |RouteKeyOrder| =>
      (RouteKeyOrder[i], Str(Text(prefix) + RouteKeyOrder[i] + "_" + varName)))
  }

  /** The table every route key maps to its derived route. */
  function DerivedRoutes(prefix: Option<string>, varName: string): (m: map<string, Value>)
    ensures m.Keys == RouteKeys
  {
    map k | k in RouteKeys :: Str(Text(prefix) + k + "_" + varName)
  }

  /** Writing the five derived pairs over a route table gives the derived table, whatever it held before. */
  lemma OverlayRoutePairs(m: map<string, Value>, prefix: Option<string>, varName: string)
    requires m.Keys == RouteKeys
    ensures Overlay(m, RoutePairs(prefix, varName)) == DerivedRoutes(prefix, varName)
  {
    var u := RoutePairs(prefix, varName);
    forall n | 0 < n <= |u| ensures Overlay(m, u[..n]) == Overlay(m, u[..n - 1])[u[n - 1].0 := u[n - 1].1] {
      assert u[..n][..n - 1] == u[..n - 1];
    }
    assert u[..0] == [] && u[..|u|] == u;
    var o := m[u[0].0 := u[0].1][u[1].0 := u[1].1][u[2].0 := u[2].1][u[3].0 := u[3].1][u[4].0 := u[4].1];
    assert Overlay(m, u) == o;
    assert o == DerivedRoutes(prefix, varName);
  }

  /** The handler accepts every derived pair, so its table becomes the derived table. */
  lemma ApplyRoutePairs(m: map<string, Value>, prefix: Option<string>, varName: string)
    requires m.Keys == RouteKeys
    ensures ApplyUntil(m, RoutePairs(prefix, varName), RouteKeyCheck()) == (DerivedRoutes(prefix, varName), None)
  {
    var u := RoutePairs(prefix, varName);
    assert forall i :: 0 <= i < |u| ==> u[i].0 in RouteKeys;
    ApplyUntilSpec(m, u, RouteKeyCheck());
    OverlayRoutePairs(m, prefix, varName);
  }

  /**
   * After setContainer the handler never derives a route of its own: every
   * derived route is non-empty, so getEntityRoute answers it unchanged,
   * whatever the handler's own prefix and template variable are.
   */
  lemma DerivedRoutesAreFinal(prefix: Option<string>, varName: string, k: string,
                              handlerPrefix: Option<string>, handlerVarName: Option<string>)
    requires k in RouteKeys
    ensures var d := DerivedRoutes(prefix, varName);
            RouteLookup(d, k, handlerPrefix, handlerVarName) == (Ok(d[k]), d)
  {
    DerivedRouteNotEmpty(prefix, k, Some(varName));
  }

  // ---------------------------------------------------------------- the controller

  class RestViewController {
    const handler: RestHandler
    var entityRoutes: map<string, Value>
    var routePrefix: Option<string>
    var apiFormTemplateName: Option<string>
    var container: Option<Container>

    /** The route table keeps exactly the five route keys. */
    predicate HasRoutes()
      reads this
    {
      entityRoutes.Keys == RouteKeys
    }

    ghost predicate Valid()
      reads this, handler
    {
      HasRoutes() && handler.Valid()
    }

    constructor (handler: RestHandler)
      requires handler.Valid()
      ensures Valid() && this.handler == handler
      ensures entityRoutes == InitialRoutes() && routePrefix == None
      ensures apiFormTemplateName == None && container == None
    {
      this.handler := handler;
      entityRoutes := InitialRoutes();
      routePrefix := None;
      apiFormTemplateName := None;
      container := None;
    }

    /** The template variable an entity is shown under; null reads as "". */
    function ViewVar(): string
      reads this
    {
      Text(apiFormTemplateName)
    }

    /** The view of a stored entity, pointing at the get route with its id. */
    function EntityView(status: int, e: Entity): (v: View)
      reads this
      requires HasRoutes()
      ensures v.status == status && v.body == EntityBody(ViewVar(), e)
      ensures v.route == Some(RouteTo(entityRoutes["get"], e.id))
    {
      View(status, EntityBody(ViewVar(), e), Some(RouteTo(entityRoutes["get"], e.id)))
    }

    /**
     * setContainer: remembers the container and the lower-cased short name
     * of the entity class, takes the route prefix from the container when
     * none is set, derives all five routes from them and hands the table to
     * the handler.
     */
    method SetContainer(c: Container, shortName: string, prefixParameter: Option<string>)
      requires Valid()
      modifies this`container, this`apiFormTemplateName, this`routePrefix, this`entityRoutes, handler`entityRoutes
      ensures Valid()
      ensures container == Some(c) && apiFormTemplateName == Some(ToLower(shortName))
      ensures routePrefix == if old(routePrefix).Some? then old(routePrefix) else prefixParameter
      ensures entityRoutes == DerivedRoutes(routePrefix, ToLower(shortName))
      ensures handler.entityRoutes == entityRoutes
    {
      container := Some(c);
      var name := ToLower(shortName);
      apiFormTemplateName := Some(name);
      if routePrefix.None? {
        routePrefix := prefixParameter;
      }
      var prefix := routePrefix;
      var pairs := RoutePairs(prefix, name);
      var routes := entityRoutes;
      var i := 0;
      while i < |RouteKeyOrder|
        invariant 0 <= i <= |RouteKeyOrder|
        invariant routes == Overlay(old(entityRoutes), pairs[..i])
      {
        assert pairs[..i + 1][..i] == pairs[..i];
        assert pairs[i] == (RouteKeyOrder[i], Str(Text(prefix) + RouteKeyOrder[i] + "_" + name));
        var httpMethod := RouteKeyOrder[i];
        routes := routes[httpMethod := Str(Text(prefix) + httpMethod + "_" + name)];
        i := i + 1;
      }
      assert pairs[..i] == pairs;
      OverlayRoutePairs(old(entityRoutes), prefix, name);
      entityRoutes := routes;
      ApplyRoutePairs(handler.entityRoutes, prefix, name);
      var _ := handler.SetEntityRoutes(pairs);
    }

    /**
     * What postAction answers for what handlePostRequest gave: a created
     * entity with 201; a not-null violation with 400 and NotNullMessage; a
     * unique violation with 409 and UniqueMessage; a HandlerException
     * rethrown; an InvalidForm rethrown when its class is a HandlerException
     * and otherwise, like any other exception, 500 with its message.
     */
    function PostOutcome(result: Result<Entity, Failure>, invalidFormIsHandlerException: bool)
      : (r: Result<View, Failure>)
      reads this
      requires HasRoutes()
    {
      match result
      case Ok(e) => Ok(EntityView(HttpCreated, e))
      case Err(f) =>
        match f
        case NotNullViolation(m) => Ok(View(HttpBadRequest, ErrorBody(NotNullMessage(m)), None))
        case UniqueViolation(m) => Ok(View(HttpConflict, ErrorBody(UniqueMessage(m)), None))
        case HandlerFailure(_, _) => Err(f)
        case InvalidForm(_, _) =>
          if invalidFormIsHandlerException then Err(f)
          else Ok(View(HttpInternalServerError, ErrorBody(Message(f)), None))
        case _ => Ok(View(HttpInternalServerError, ErrorBody(Message(f)), None))
    }

    /** postAction; its loop is the column transform. */
    method PostAction(result: Result<Entity, Failure>, invalidFormIsHandlerException: bool)
      returns (r: Result<View, Failure>)
      requires HasRoutes()
      ensures r == PostOutcome(result, invalidFormIsHandlerException)
    {
      if result.Ok? {
        return Ok(EntityView(HttpCreated, result.value));
      }
      var f := result.error;
      if f.NotNullViolation? {
        var message := f.message;
        var column := NotNullColumn(message);
        if column.Some? {
          var property := PropertyName(column.value);
          message := property + " can not be null.";
        }
        r := Ok(View(HttpBadRequest, ErrorBody(message), None));
      } else if f.UniqueViolation? {
        var message := f.message;
        if DuplicateEntryMatches(message) {
          message := DuplicateMessage;
        }
        r := Ok(View(HttpConflict, ErrorBody(message), None));
      } else if f.HandlerFailure? || (f.InvalidForm? && invalidFormIsHandlerException) {
        r := Err(f);
      } else {
        r := Ok(View(HttpInternalServerError, ErrorBody(Message(f)), None));
      }
    }

    /** getAction: the entity with 200, or getOr404's not-found failure. */
    function GetOutcome(found: Option<Entity>, id: string): (r: Result<View, Failure>)
      reads this
      ensures r.Ok? <==> found.Some?
      ensures r.Ok? ==> r.value == View(HttpOk, EntityBody(ViewVar(), found.value), None)
      ensures r.Err? ==> r.error == GetOr404(found, id).error
    {
      match GetOr404(found, id)
      case Ok(e) => Ok(View(HttpOk, EntityBody(ViewVar(), e), None))
      case Err(f) => Err(f)
    }

    /**
     * putAction, given whether an entity exists for the id and what the
     * delegated request (see PutDelegate) gave: the entity with 201 when it
     * was created and 204 when it was replaced; failures propagate.
     */
    function PutOutcome(found: bool, handled: Result<Entity, Failure>): (r: Result<View, Failure>)
      reads this
      requires HasRoutes()
    {
      match handled
      case Ok(e) => Ok(EntityView(PutDelegate(found).1, e))
      case Err(f) => Err(f)
    }

    /** patchAction: getOr404, then the patch request; the entity with 204, failures propagate. */
    function PatchOutcome(found: Option<Entity>, id: string, handled: Result<Entity, Failure>): (r: Result<View, Failure>)
      reads this
      requires HasRoutes()
    {
      match GetOr404(found, id)
      case Err(f) => Err(f)
      case Ok(_) =>
        match handled
        case Ok(e) => Ok(EntityView(HttpNoContent, e))
        case Err(f) => Err(f)
    }

    /** deleteAction: getOr404, then remove; 204 with no body, failures propagate. */
    function DeleteOutcome(found: Option<Entity>, id: string, removed: Option<Failure>): (r: Result<View, Failure>)
      reads this
    {
      match GetOr404(found, id)
      case Err(f) => Err(f)
      case Ok(_) => if removed.Some? then Err(removed.value) else Ok(View(HttpNoContent, NoBody, None))
    }
  }

  /**
   * postAction's statuses: success is 201 at the get route with the new id;
   * a not-null violation is always 400 and a unique violation always 409;
   * a HandlerException, and an InvalidForm whose class is one, is rethrown
   * unchanged; everything else is 500 carrying the exception's message.
   */
  lemma PostOutcomeSpec(c: RestViewController, result: Result<Entity, Failure>, flag: bool)
    requires c.HasRoutes()
    ensures var r := c.PostOutcome(result, flag);
            && (r.Err? <==> result.Err? && (result.error.HandlerFailure? || (result.error.InvalidForm? && flag)))
            && (r.Err? ==> r.error == result.error)
            && (result.Ok? ==> r.Ok? && r.value.status == HttpCreated && r.value.body == EntityBody(c.ViewVar(), result.value)
                               && r.value.route == Some(RouteTo(c.entityRoutes["get"], result.value.id)))
            && (result.Err? && result.error.NotNullViolation? ==>
                  r == Ok(View(HttpBadRequest, ErrorBody(NotNullMessage(result.error.message)), None)))
            && (result.Err? && result.error.UniqueViolation? ==>
                  r == Ok(View(HttpConflict, ErrorBody(UniqueMessage(result.error.message)), None)))
            && (r.Ok? && result.Err? && !result.error.NotNullViolation? && !result.error.UniqueViolation? ==>
                  r.value == View(HttpInternalServerError, ErrorBody(Message(result.error)), None))
  {
  }

  /**
   * putAction answers 204 when it replaced an existing entity and 201 when it
   * created one, at the get route with the entity's id; it catches nothing.
   */
  lemma PutOutcomeSpec(c: RestViewController, found: bool, handled: Result<Entity, Failure>)
    requires c.HasRoutes()
    ensures handled.Ok? ==>
              c.PutOutcome(found, handled) ==
                Ok(View(if found then HttpNoContent else HttpCreated, EntityBody(c.ViewVar(), handled.value),
                        Some(RouteTo(c.entityRoutes["get"], handled.value.id))))
    ensures handled.Err? ==> c.PutOutcome(found, handled) == Err(handled.error)
  {
  }

  /** patchAction: not-found after getOr404, else 204 with the patched entity; it catches nothing. */
  lemma PatchOutcomeSpec(c: RestViewController, found: Option<Entity>, id: string, handled: Result<Entity, Failure>)
    requires c.HasRoutes()
    ensures found.None? ==> c.PatchOutcome(found, id, handled) == Err(NotFound("The resource '" + id + "' was not found."))
    ensures found.Some? ==>
              c.PatchOutcome(found, id, handled) ==
                (if handled.Ok? then Ok(c.EntityView(HttpNoContent, handled.value)) else Err(handled.error))
  {
  }

  /** deleteAction: not-found after getOr404, else 204 with no body; it catches nothing. */
  lemma DeleteOutcomeSpec(c: RestViewController, found: Option<Entity>, id: string, removed: Option<Failure>)
    ensures found.None? ==> c.DeleteOutcome(found, id, removed) == Err(NotFound("The resource '" + id + "' was not found."))
    ensures found.Some? ==>
              c.DeleteOutcome(found, id, removed) ==
                (if removed.None? then Ok(View(HttpNoContent, NoBody, None)) else Err(removed.value))
  {
  }

  /**
   * A not-null message that names a column answers the property's name
   * (underscore-free, and the cut column up to case); any other message is
   * passed on unchanged.
   */
  lemma NotNullMessageSpec(message: string)
    ensures NotNullColumn(message).None? ==> NotNullMessage(message) == message
    ensures NotNullColumn(message).Some? ==>
              var c := NotNullColumn(message).value;
              && NotNullMessage(message) == Prettify(c) + " can not be null."
              && '_' !in Prettify(c)
              && ToLower(Prettify(c)) == ToLower(DropUnderscores(CutAtId(c)))
  {
    if NotNullColumn(message).Some? {
      var c := NotNullColumn(message).value;
      PrettifyNoUnderscore(c);
      PrettifyIsCutWithoutUnderscores(c);
    }
  }

  /** The run of word characters from `j` ends at the first character that is not one. */
  lemma WordEndAt(s: string, j: nat, k: nat)
    requires j <= k < |s|
    requires forall q :: j <= q < k ==> IsWordChar(s[q])
    requires !IsWordChar(s[k])
    ensures WordEnd(s, j) == k
  {
  }

  /** The message built from a column of word characters matches the pattern right after `head`, reading that column. */
  lemma SpelledMatch(head: string, column: string)
    requires |column| > 0 && forall q :: 0 <= q < |column| ==> IsWordChar(column[q])
    ensures var m := head + NotNullPrefix + column + NotNullSuffix;
            var j := |head| + |NotNullPrefix|;
            && NotNullMatchAt(m, |head|)
            && WordEnd(m, j) == j + |column|
            && m[j..j + |column|] == column
  {
    var m := head + NotNullPrefix + column + NotNullSuffix;
    var i := |head|;
    var j := i + |NotNullPrefix|;
    var k := j + |column|;
    assert m[i..j] == NotNullPrefix;
    assert m[j..k] == column;
    assert m[k..k + |NotNullSuffix|] == NotNullSuffix;
    assert m[k] == '\'';
    forall q | j <= q < k ensures IsWordChar(m[q]) {
      assert m[q] == column[q - j];
    }
    WordEndAt(m, j, k);
  }

  /** A match with none before it is the leftmost one. */
  lemma FirstNotNullMatchAt(m: string, i: nat)
    requires NotNullMatchAt(m, i)
    requires forall p :: 0 <= p < i ==> !NotNullMatchAt(m, p)
    ensures FirstNotNullMatch(m, 0) == Some(i)
  {
  }

  /**
   * A message made of some text in which the pattern does not match first,
   * then the pattern's prefix, a column of word characters and the suffix,
   * names exactly that column.
   */
  lemma NotNullColumnOf(head: string, column: string)
    requires forall p :: 0 <= p < |head| ==> !NotNullMatchAt(head + NotNullPrefix + column + NotNullSuffix, p)
    requires |column| > 0 && forall q :: 0 <= q < |column| ==> IsWordChar(column[q])
    ensures NotNullColumn(head + NotNullPrefix + column + NotNullSuffix) == Some(column)
  {
    SpelledMatch(head, column);
    FirstNotNullMatchAt(head + NotNullPrefix + column + NotNullSuffix, |head|);
  }

  /** A message of that shape is reported under the property name of its column. */
  lemma NotNullMessageOf(head: string, column: string)
    requires forall p :: 0 <= p < |head| ==> !NotNullMatchAt(head + NotNullPrefix + column + NotNullSuffix, p)
    requires |column| > 0 && forall q :: 0 <= q < |column| ==> IsWordChar(column[q])
    ensures NotNullMessage(head + NotNullPrefix + column + NotNullSuffix) == Prettify(column) + " can not be null."
  {
    NotNullColumnOf(head, column);
  }
}
