# REST API bridge bundle — a Dafny model of its handler and controller core

The bundle puts a REST layer over Doctrine entities in a Symfony application.
A **handler** owns the entity operations. Its base, `AbstractHandler`, does
the following:

- adds, edits and removes an entity through the entity manager (persist or
  remove, then flush);
- after a successful write, dispatches an application event whose class and
  name come from two per-action tables (`eventClassNames`, `eventNames`).
  An unset name is derived from the event class's `NAME` constant and
  memoised;
- answers the roles a user holds or may be assigned through the role
  hierarchy.

`AbstractRestHandler` extends it with the following:

- a table of entity routes, where an unset route is derived from the route
  prefix, the action and the form template variable;
- the form type class;
- processing a submitted form: an invalid form raises an
  `InvalidFormException`, with the conflict code when its errors say a value
  is "already in use with" another entity, and a valid form adds or edits by
  HTTP method;
- merging posted parameters and files;
- the user-aware `all()` listing;
- `getOr404`.

The controllers turn handler outcomes into views:

- `AbstractRestViewController` wires its routes into the handler when it gets
  its container. Its actions answer as follows:
  - post: 201 with the entity and its `get` route. A database not-null
    violation becomes "<property> can not be null." with 400, and a
    duplicate entry a fixed sentence with 409. A `HandlerException`
    propagates, and any other failure answers 500.
  - cget: 200 with the listing. A `HandlerException` answers 403 when access
    was denied, 400 for a bad request and 500 otherwise; any other failure
    answers 500.
  - get: 200 with the entity and no route, or not-found.
  - put: 204 (replaced) or 201 (created) with the entity and its `get` route.
  - patch: 204 with the entity and its `get` route, or not-found.
  - delete: 204 with no body, or not-found.
  - put, patch and delete catch nothing: every failure propagates.
- `AbstractRestController` renders those views. On post and put, an
  `InvalidFormException` that carries the conflict code becomes a 409 view
  with the form's errors, and any other such exception returns the form. On
  patch and delete, such an exception always returns the form.
- `AbstractAppEvent` is the dispatched event. It carries an entity, a
  container and a context map, and is named by its class's `NAME` constant.

## How the model is organised

- `values.dfy` holds PHP values (`Value`, with `empty()` as `Truthy` and the
  `(array)` cast as `CastToArray`) and `Result`/`Option`, which stand in for
  exceptions.
- `strings.dfy` holds the string built-ins the core uses:
  - `strtolower` and `ucfirst` on ASCII;
  - `strpos` as a leftmost `Find`;
  - `explode`/`implode` as `Split`/`Join`;
  - `trim`.
- `exceptions.dfy` holds the `HandlerException` kinds with their UUID codes,
  the HTTP statuses, and the failures a handler or the database can raise.
- `tables.dfy` holds PHP `foreach` writes into a keyed table (`Overlay`), and
  the same writes stopped by the first rejected pair (`ApplyUntil`).
- `app_event.dfy`: `AbstractAppEvent` as a class.
- `handler.dfy`: `AbstractHandler` as a class. Its `trace` field records, in
  order, the entity-manager calls and event dispatches it performs.
- `rest_handler.dfy`: `AbstractRestHandler` as a class composed with the
  handler (`core`).
- `property_names.dfy`: the column-to-property transform of a not-null
  message (cut at `_id`, explode on `_`, camel-case).
- `view_controller.dfy`: `AbstractRestViewController`, the not-null and
  duplicate-entry message matching, and the actions' outcomes.
- `rest_controller.dfy`: `AbstractRestController`'s actions and catch blocks.

The following are parameters of the model rather than definitions:

- the entity manager's failure (`StoreFault`);
- the submitted form's verdict (`FormVerdict`);
- `filter_var` (as `asBool` and `validatesAsInt`);
- `is_numeric`;
- the role hierarchy (`reachable`);
- the set of loaded classes (`ClassWorld`).

## Model

| member | source | states |
|---|---|---|
| AppEvents.NameConstant | Event/AbstractAppEvent.php:42 | `NAME` is `self::class`: an event class that redeclares it answers its own name, any other answers the abstract class's name |
| AppEvents.InheritedNamesCollide | Event/AbstractAppEvent.php:42 | two event classes that do not redeclare `NAME` get the same event name |
| AppEvents.AppEvent.constructor | Event/AbstractAppEvent.php:50-55 | the new event holds exactly the class, entity, container and context it was given |
| AppEvents.AppEvent.SetContainer | Event/AbstractAppEvent.php:68-71 | replaces the container and nothing else |
| AppEvents.AppEvent.SetEntity | Event/AbstractAppEvent.php:84-87 | replaces the entity and nothing else |
| AppEvents.AppEvent.SetContext | Event/AbstractAppEvent.php:100-103 | replaces the context and nothing else |
| AppEvents.AppEvent.GetContextItem | Event/AbstractAppEvent.php:109-121 | a non-string key is an invalid-format error; a string key succeeds iff the context exists and holds the key, with the stored value; otherwise a missing-key error |
| AppEvents.ContextNullIsFound | Event/AbstractAppEvent.php:117-118 | a key stored with value null is found (`array_key_exists`, not `isset`) and answers null |
| AppEvents.AppEvent.GetEventName | Event/AbstractAppEvent.php:124-127 | the event's name is its class's `NAME` constant |
| Exceptions.KindOfTagUuid | Exception/Handler/HandlerException.php:38-48 | each kind's UUID is read back as that kind from its first two characters |
| Exceptions.UuidInjective | Exception/Handler/HandlerException.php:38-48 | distinct `HandlerException` kinds have distinct UUID codes |
| Handler.InitialEventTable | Handler/AbstractHandler.php:62-82 | both event tables start with exactly the eight action keys, each unset |
| Handler.IsInt | Handler/AbstractHandler.php:251-270 | a value is an id iff it is an integer, or a numeric string without a decimal point |
| Handler.ContainsChar | Handler/AbstractHandler.php:256 | `strpos` finds a one-character needle iff the character occurs in the string |
| Handler.LookupEventName | Handler/AbstractHandler.php:462-489 | when an event is given, the answered name is always a string |
| Handler.ConfiguredNameWins | Handler/AbstractHandler.php:467-469 | a configured string name is answered as is and the table is unchanged |
| Handler.DerivedNameIsMemoized | Handler/AbstractHandler.php:472-488 | an unset name is taken from the event's `NAME` and stored under its key; a later lookup answers it without change |
| Handler.NoEventNoChange | Handler/AbstractHandler.php:472-488 | without an event the stored value is answered and nothing is stored |
| Handler.Handler.constructor | Handler/AbstractHandler.php:62-82 | a new handler has the default event tables, no container and an empty trace |
| Handler.Handler.SetContainer | Handler/AbstractHandler.php:137-140 | replaces the container |
| Handler.Handler.GetEventName | Handler/AbstractHandler.php:462-489 | answer and new table are the lookup on the old table, with the event class's `NAME` when an event is given |
| Handler.Handler.SetEventName | Handler/AbstractHandler.php:505-508 | writes one key of the name table, any key, any value |
| Handler.Handler.SetEventNames | Handler/AbstractHandler.php:513-518 | the name table becomes the old one overlaid with the updates in order: a later update of a key wins |
| Handler.Handler.GetEventClassName | Handler/AbstractHandler.php:526-536 | succeeds iff the key is in the class table, with its value; otherwise an invalid-key `HandlerException` |
| Handler.Handler.SetEventClassName | Handler/AbstractHandler.php:552-566 | a value naming an existing event class is stored; anything else raises invalid-type and leaves the table unchanged; the class table stays valid |
| Handler.Handler.SetEventClassNames | Handler/AbstractHandler.php:571-576 | updates are applied in order until the first one naming no event class; the table keeps the earlier ones, and the failure is invalid-type |
| Tables.OverlayLookup | Handler/AbstractHandler.php:513-518 | after the overlay a key is present iff it was before or some update names it, and its value is the last such update's, or the old one |
| Tables.ApplyUntilSpec | Handler/AbstractHandler.php:571-576 | with no rejection the result is the full overlay; with a rejection at i every earlier update was accepted and exactly those are applied |
| Handler.ResolveEventClass | Handler/AbstractHandler.php:584-606 | an event class is resolved iff the action's table entry names an existing class, and it is that class |
| Handler.Handler.GetEvent | Handler/AbstractHandler.php:584-606 | no event for an unresolved action; otherwise a fresh event of the resolved class holding the entity, the handler's container and the context |
| Handler.FireEffectSpec | Handler/AbstractHandler.php:401-409 | specifies `FireEffect` (what `fireEvent` does): at most one dispatch, exactly when the event class resolves; it carries the entity, container and context and is named by the configured name or else the class's `NAME`, which is then memoised |
| Handler.Handler.FireEvent | Handler/AbstractHandler.php:401-409 | lowers the event key, then appends the dispatch (if any) to the trace and updates the name table |
| Handler.Handler.PersistEntity | Handler/AbstractHandler.php:371-394 | records persist, then flush when asked; a store failure stops the calls and is raised; otherwise the entity is returned |
| Handler.StoreTraceSpec | Handler/AbstractHandler.php:371-394 | specifies `StoreTrace`: the write comes first; the flush follows exactly when asked for and the write did not fail; the thrown failure is exactly the failing call's own |
| Handler.WriteThenFireSpec | Handler/AbstractHandler.php:416-453 | the write comes first, and no dispatch precedes a store call; a store failure is raised and nothing is dispatched; a failing write stops before the flush |
| Handler.OperationSpec | Handler/AbstractHandler.php:416-453 | specifies `Operation` (one add, edit or remove): a failed write raises and leaves the names unchanged; otherwise write, flush and then one dispatch carrying the entity exactly when the lowered key resolves |
| Handler.Handler.Add | Handler/AbstractHandler.php:416-423 | persist, flush and fire the given key, or `add` when the key is not a string |
| Handler.Handler.Edit | Handler/AbstractHandler.php:430-437 | persist, flush and fire the given key, or `edit` when the key is not a string |
| Handler.Handler.Remove | Handler/AbstractHandler.php:444-453 | remove, flush and fire the given key, or `remove` when the key is not a string |
| Handler.Handler.Persisted | Handler/AbstractHandler.php:371-394 | persist and flush with nothing dispatched; a store failure is raised |
| Handler.NewRoleNamesSpec | Handler/AbstractHandler.php:338-349 | a name is listed iff some reachable role that is not already held (by identity) has it |
| Handler.Role.constructor | Handler/AbstractHandler.php:308-310 | a role object carries the given name |
| Handler.Handler.GetAssignedRoles | Handler/AbstractHandler.php:326-350 | without a container a missing-dependency failure; otherwise exactly the names of reachable roles not among the given roles (or the token's roles) |
| Handler.Unique | Handler/AbstractHandler.php:316 | `array_unique`: no duplicates, the same members as the input, listed in the order of their first occurrences |
| Handler.FirstIndex | Handler/AbstractHandler.php:316 | the position of the first occurrence of a member |
| Handler.Handler.GetCurrentUserRoles | Handler/AbstractHandler.php:302-319 | without a container a missing-dependency failure; otherwise a duplicate-free list of exactly the user's roles and the assignable reachable ones |
| RestHandler.InitialRoutes | Handler/AbstractRestHandler.php:97-103 | the route table starts with exactly the five HTTP verbs, each unset |
| RestHandler.RestHandler.constructor | Handler/AbstractRestHandler.php:97-103 | a new REST handler has the default routes, no prefix, variable name or form type, and is not user-aware |
| RestHandler.RestHandler.SetUserAware | Handler/AbstractRestHandler.php:130-133 | user-awareness is the boolean reading of the value |
| RestHandler.FilterFormTypeClass | Handler/AbstractRestHandler.php:162-169 | a form type is kept iff the value is a string, and it is that string trimmed; any other value clears the form type |
| RestHandler.FormTypeClassStable | Handler/AbstractRestHandler.php:162-169 | setting a form type read back from the handler changes nothing (trim is idempotent) |
| RestHandler.RestHandler.SetFormTypeClass | Handler/AbstractRestHandler.php:162-169 | the form type becomes the filtered value |
| RestHandler.RestHandler.GetFormTypeClass | Handler/AbstractRestHandler.php:179-186 | succeeds iff a form type is set; otherwise a missing-form-type `HandlerException` |
| RestHandler.GetOr404 | Handler/AbstractRestHandler.php:250-257 | succeeds iff the entity was found; otherwise not-found naming the id |
| Values.CastToArray | Handler/AbstractRestHandler.php:336 | `(array)` of null is empty, of an array is itself, of an object is its properties, of a scalar is the one-element list |
| RestHandler.RestHandler.All | Handler/AbstractRestHandler.php:334-343 | the query keeps the caller's order, limit and offset |
| RestHandler.AllRestrictsToCurrentUser | Handler/AbstractRestHandler.php:334-343 | a user-aware handler adds the current user's id under the user property and keeps every other criterion; otherwise the criteria are the cast ones |
| RestHandler.AllIgnoresCallerUserId | Handler/AbstractRestHandler.php:338-340 | a user-aware handler's query does not depend on any user id the caller supplied |
| RestHandler.HandleInvalidForm | Handler/AbstractRestHandler.php:456-466 | an invalid-form failure with the form's errors; its code is 409 iff the errors contain "already in use with", and none otherwise |
| RestHandler.ChooseAction | Handler/AbstractRestHandler.php:485-504 | on the lowered method: delete writes nothing; patch, or put with an integer id, edits; anything else adds |
| RestHandler.PatchSpellings | Handler/AbstractRestHandler.php:443-446 | about `ClearsMissing` and the dispatch: both spellings edit, but only the exact `PATCH` submits without clearing missing fields; a lower-case `patch` clears them |
| RestHandler.RestHandler.ProcessFormRequest | Handler/AbstractRestHandler.php:477-512 | no form type: missing-form-type, nothing written; invalid form: the invalid-form failure, nothing written; valid: the chosen action, and for add or edit the full write-then-fire with the HTTP method as event key |
| RestHandler.ReplaceRecursive | Handler/AbstractRestHandler.php:530-531 | `array_replace_recursive`: keys of both; a key only in the first keeps its value; the second wins except where both values are arrays, where the result is their recursive merge |
| RestHandler.ReplaceRecursiveSelf | Handler/AbstractRestHandler.php:530-531 | merging a map with itself gives it back |
| RestHandler.ReplaceRecursiveIdempotent | Handler/AbstractRestHandler.php:530-531 | merging the same files twice equals merging them once |
| RestHandler.ParseFormData | Handler/AbstractRestHandler.php:514-547 | parsed data never keeps `submit` or `_format`; a form named in neither parameters nor files parses to null |
| RestHandler.ParseFormDataMerge | Handler/AbstractRestHandler.php:524-546 | with both parts arrays, every non-stripped key of either is present; file values win unless both are arrays; parameter-only keys keep their value |
| RestHandler.ParseFormDataNoFiles | Handler/AbstractRestHandler.php:524-546 | with only parameters, the data is the parameters without `submit` and `_format` |
| RestHandler.RestHandler.GetParameters | Handler/AbstractRestHandler.php:584-597 | same keys as the parsed data; a boolean property is replaced by its boolean reading and every other value kept |
| RestHandler.RestHandler.SetEntityRoute | Handler/AbstractRestHandler.php:679-689 | a known verb is overwritten; an unknown one raises invalid-entity-route-key and changes nothing; the key set never changes |
| RestHandler.RouteLookupUnknownKey | Handler/AbstractRestHandler.php:697-714 | specifies `RouteLookup` on an unknown verb: it raises invalid-entity-route-key and changes nothing |
| RestHandler.RouteLookupCaches | Handler/AbstractRestHandler.php:697-714 | specifies `RouteLookup` on a known verb: a non-empty route, the configured one, or else prefix + verb + "_" + variable name, which is stored and no other entry changes; a second lookup answers the same and changes nothing |
| RestHandler.DerivedRouteNotEmpty | Handler/AbstractRestHandler.php:699-707 | a derived route is never empty, so it is never derived again |
| RestHandler.RestHandler.GetEntityRoute | Handler/AbstractRestHandler.php:697-714 | answer and new table are the route lookup on the old table with the handler's prefix and variable name |
| RestHandler.RestHandler.SetEntityRoutes | Handler/AbstractRestHandler.php:719-724 | updates are applied in order until the first unknown verb, which raises invalid-entity-route-key; the earlier ones stay; the table keeps the five verbs |
| RestHandler.RouteUpdatesKeepKeys | Handler/AbstractRestHandler.php:719-724 | however the updates end, the route table keeps exactly the five verbs |
| RestHandler.RestHandler.SetFormTemplateVarName | Handler/AbstractRestHandler.php:737-742 | a string replaces the variable name; any other value is ignored |
| RestHandler.RestHandler.SetRoutePrefix | Handler/AbstractRestHandler.php:755-760 | a string replaces the prefix; any other value is ignored |
| ViewController.RestViewController.constructor | Controller/RestApi/AbstractRestViewController.php:74-80 | a new controller has the default route table and no container, prefix or template name |
| ViewController.RoutePairs | Controller/RestApi/AbstractRestViewController.php:108-110 | one route per verb, in order: prefix + verb + "_" + template name |
| ViewController.ApplyRoutePairs | Controller/RestApi/AbstractRestViewController.php:108-113 | handing the derived routes to the handler raises nothing and leaves it with exactly those routes |
| ViewController.DerivedRoutesAreFinal | Controller/RestApi/AbstractRestViewController.php:108-113 | after wiring, the handler's route lookup answers the wired route for every verb and changes nothing |
| ViewController.RestViewController.SetContainer | Controller/RestApi/AbstractRestViewController.php:93-114 | stores the container and the lowered template name, keeps an existing prefix or else takes the parameter, derives every route, and gives the handler the same routes |
| ViewController.RestViewController.EntityView | Controller/RestApi/AbstractRestViewController.php:406-420 | an entity view carries the status, the entity under the template name, and the `get` route with the entity's id |
| ViewController.CgetOutcome | Controller/RestApi/AbstractRestViewController.php:201-240 | 200 with the listing iff it succeeded; 403 iff access was denied; 400 iff a bad request; any other failure 500; a failure's body is its message |
| ViewController.RestViewController.GetOutcome | Controller/RestApi/AbstractRestViewController.php:253-266 | 200 with the entity iff found, otherwise the not-found failure |
| ViewController.PostOutcomeSpec | Controller/RestApi/AbstractRestViewController.php:403-480 | specifies `PostOutcome`: 201 with the entity at its `get` route; not-null 400 and duplicate 409 with the rewritten messages; a `HandlerException` propagates; anything else is 500 with its message |
| ViewController.RestViewController.PostAction | Controller/RestApi/AbstractRestViewController.php:403-480 | the action's loop builds the not-null message exactly as the outcome function states |
| ViewController.NotNullColumn | Controller/RestApi/AbstractRestViewController.php:426-427 | a column is found iff the message has a not-null match; it is taken from the leftmost match and is the full non-empty `\w` run after the pattern's prefix, which the message carries between the pattern's two fixed parts |
| ViewController.FirstNotNullMatch | Controller/RestApi/AbstractRestViewController.php:426-427 | the leftmost position where the not-null pattern matches |
| ViewController.WordEnd | Controller/RestApi/AbstractRestViewController.php:426 | the greedy end of a `\w+` run |
| ViewController.NotNullColumnOf | Controller/RestApi/AbstractRestViewController.php:426-427 | a message made of text in which the pattern does not match before the prefix, then the pattern around a word column, yields that column |
| PropertyNames.CutAtIdSpec | Controller/RestApi/AbstractRestViewController.php:430-435 | specifies `CutAtId`: the cut column is a prefix of the column without `_id`; with an `_id` it is cut at the first occurrence; without one it is unchanged |
| PropertyNames.CutAtIdOf | Controller/RestApi/AbstractRestViewController.php:430-435 | a column ending in `_id`, with no `_id` before it, is cut back to exactly what precedes the `_id` |
| PropertyNames.PropertyName | Controller/RestApi/AbstractRestViewController.php:437-446 | the loop over the exploded segments builds the camel-cased property `Prettify` defines |
| PropertyNames.PrettifyNoUnderscore | Controller/RestApi/AbstractRestViewController.php:430-446 | the property never contains an underscore |
| PropertyNames.PrettifyIsCutWithoutUnderscores | Controller/RestApi/AbstractRestViewController.php:430-446 | specifies `Prettify`: ignoring case, the property is the cut column with its underscores removed |
| PropertyNames.PrettifyKeepsFirstSegment | Controller/RestApi/AbstractRestViewController.php:437-446 | the first segment is kept verbatim at the start of the property |
| PropertyNames.PrettifyExamples | Controller/RestApi/AbstractRestViewController.php:430-446 | `parent_company_id` becomes `parentCompany` and `company_id` becomes `company` |
| ViewController.NotNullMessageSpec | Controller/RestApi/AbstractRestViewController.php:421-452 | a message without a match is kept; otherwise it is the property + " can not be null.", underscore-free and equal, ignoring case, to the cut column without underscores |
| ViewController.NotNullMessageOf | Controller/RestApi/AbstractRestViewController.php:421-452 | a message made of text in which the pattern does not match before the prefix, then the pattern around a word column, becomes that column's property + " can not be null." |
| PropertyNames.NoIdWithoutI | Controller/RestApi/AbstractRestViewController.php:430-435 | a text without an `i` holds no `_id` |
| PropertyNames.CamelLower | Controller/RestApi/AbstractRestViewController.php:437-446 | ignoring case, the camel-cased segments are the segments concatenated |
| ViewController.UniqueMessageOf | Controller/RestApi/AbstractRestViewController.php:453-464 | specifies `UniqueMessage`: "Duplicate entry '", an entry on one line and its closing quote give the fixed sentence; a message without the prefix is kept |
| ViewController.DuplicateEntryMatches | Controller/RestApi/AbstractRestViewController.php:455-456 | the duplicate pattern matches iff "Duplicate entry '" is followed, on the same line, by another quote |
| ViewController.PutDelegate | Controller/RestApi/AbstractRestViewController.php:495-508 | an existing entity is handled as PUT answering 204; a missing one as POST answering 201 |
| ViewController.PutDelegateAction | Controller/RestApi/AbstractRestViewController.php:495-508 | put edits only when the entity exists and its id is an integer; otherwise it adds |
| ViewController.PutOutcomeSpec | Controller/RestApi/AbstractRestViewController.php:492-529 | specifies `PutOutcome`: 204 when replaced and 201 when created, with the entity at its `get` route; a failure propagates |
| ViewController.PatchOutcomeSpec | Controller/RestApi/AbstractRestViewController.php:541-565 | specifies `PatchOutcome`: not-found, or 204 with the entity at its `get` route; a failure propagates |
| ViewController.DeleteOutcomeSpec | Controller/RestApi/AbstractRestViewController.php:585-601 | specifies `DeleteOutcome`: not-found, or 204 with no body; a failure propagates |
| RestController.CatchBlocksDiffer | Controller/RestApi/AbstractRestController.php:194-274 | the post/put and patch/delete catch blocks differ exactly on an invalid form with the conflict code, which only the first renders as 409 |
| RestController.CatchConflict | Controller/RestApi/AbstractRestController.php:198-219 | the post/put catch: a view is rendered; an invalid form with the conflict code is a 409 view of its errors, any other invalid form returns the form; any other failure propagates |
| RestController.CatchForm | Controller/RestApi/AbstractRestController.php:268-273 | the patch/delete catch: a view is rendered; any invalid form returns the form; any other failure propagates |
| RestController.CgetResponse | Controller/RestApi/AbstractRestController.php:73-78 | the listing view is always rendered |
| RestController.GetResponseSpec | Controller/RestApi/AbstractRestController.php:91-96 | the entity with 200, or the not-found failure |
| RestController.PostResponseSpec | Controller/RestApi/AbstractRestController.php:194-219 | fails iff the handler raised a `HandlerException`; an invalid form is rendered as 409 or returned only when it is a `HandlerException`, and otherwise reaches the client as a 500 |
| RestController.PutResponseSpec | Controller/RestApi/AbstractRestController.php:231-252 | 204 or 201 with the entity; an invalid form is rendered as 409 with its errors when it carries the conflict code, and returned otherwise; any other failure propagates |
| RestController.PutRejectedForm | Controller/RestApi/AbstractRestController.php:231-252 | a rejected put answers 409 iff its errors contain "already in use with", and returns the form otherwise |
| RestController.PatchResponseSpec | Controller/RestApi/AbstractRestController.php:264-274 | not-found; 204 with the entity; any invalid form returned; any other failure propagates |
| RestController.DeleteResponseSpec | Controller/RestApi/AbstractRestController.php:294-304 | not-found; 204 with no body; an invalid form returned; any other failure propagates |
| RestController.PatchDeleteRenderNoContent | Controller/RestApi/AbstractRestController.php:264-304 | whatever patch or delete renders carries 204, never a conflict |
| Strings.ToLower | Handler/AbstractHandler.php:403 | `strtolower`: same length, each character lowered |
| Strings.ToLowerIdempotent | Handler/AbstractHandler.php:403 | lowering twice equals lowering once |
| Strings.UcFirst | Controller/RestApi/AbstractRestViewController.php:442 | `ucfirst`: same length, the first character raised, the rest kept |
| Strings.ToLowerUcFirst | Controller/RestApi/AbstractRestViewController.php:442 | lowering undoes `ucfirst` |
| Strings.Find | Controller/RestApi/AbstractRestViewController.php:430 | `strpos`: found iff the needle occurs; the answer is its leftmost occurrence |
| Strings.Split | Controller/RestApi/AbstractRestViewController.php:437 | `explode`: at least one part, none containing the delimiter |
| Strings.JoinSplit | Controller/RestApi/AbstractRestViewController.php:437 | joining the exploded parts gives the string back |
| Strings.SplitJoin | Controller/RestApi/AbstractRestViewController.php:437 | exploding joined delimiter-free parts gives the parts back |
| Strings.Trim | Handler/AbstractRestHandler.php:166 | `trim`: the input with its leading and trailing whitespace stripped, so no whitespace at either end, never longer |
| Strings.TrimIdempotent | Handler/AbstractRestHandler.php:166 | trimming twice equals trimming once |

## Left out

- Symfony forms are not modelled. `processFormRequest` builds the form twice
  (Handler/AbstractRestHandler.php:479, and :422 through `validateFormData`),
  and each build submits the parameters (:446) for every HTTP method,
  clearing missing fields unless the method is exactly "PATCH"
  (`ClearsMissing`). The model receives a single `FormVerdict` (valid, data,
  errors) as a parameter, so it takes both builds to agree. Form building,
  options, the submit button, templates, `new`/`edit`/`remove` form actions
  and `createRemoveForm` are left out.
- Doctrine's entity manager is not modelled. Each `persist`, `remove` and
  `flush` call is recorded in the handler's `trace`, and a `StoreFault`
  parameter says which call fails. Repository queries are a `FindByQuery`
  value, and finding an entity is an `Option<Entity>` parameter.
- Not modelled: entity reflection and creation (`setEntityClass`,
  `createEntity`, `validateId`), and `handleGetAllRequest` with its
  parameter fetcher.
- Not modelled: view formats (`_format`, `setFormat`), serialization
  context, logging, and the audit hooks.
- Symfony's event dispatcher is left out. A dispatch is a recorded value,
  and listeners are not run.
- `filter_var`, `is_numeric` and the role hierarchy are function
  parameters. Class existence is a `ClassWorld` parameter, and
  `is_subclass_of` is part of it.
- RestController.PostResponseSpec: the exception class `InvalidFormException`
  is not part of this model, and it is not known whether it is a
  `HandlerException`. The parameter `invalidFormIsHandlerException` covers
  both cases. When it is false, the view controller answers 500 and the
  controller's 409/form branch is unreachable.
- RestController.DeleteResponseSpec: the catch for an invalid form cannot
  happen on delete, because removal submits no form. The lemma states it
  anyway, as written in the source.
- Handler.Handler.GetCurrentUserRoles: the role objects built from the
  user's role names are a ghost out-parameter, because they stand for
  objects the role hierarchy receives.
- RestHandler.RestHandler.GetParameters: `in_array` on boolean properties
  is loose in PHP. The model compares key strings, which is the same for
  the string keys used here.
- Values.CastToArray: an object's properties are a map the model carries
  with the object; PHP's mangled names for private and protected properties
  are not modelled.
- Handler.Unique: `array_unique` keeps the original keys, leaving gaps in the
  indices; the model renumbers the kept elements and does not track those
  keys.
- ViewController.RestViewController.SetContainer: the source accepts a null
  container and a non-string route prefix parameter. The model takes a
  container and an optional string.
- Messages that PHP builds from non-string values (string conversion of
  numbers and objects) use the empty string in the model.
- `getCurrentUser` answering no user (no token) is not modelled. The current
  user's id is a parameter of `All`.
- Only the segments after the first are passed through `ucfirst`, so the
  column `company_id` gives "company can not be null." (PrettifyExamples).
- Add and edit perform the same calls. ProcessFormRequest reports which of
  the two the HTTP method chose, together with the shared effect.
