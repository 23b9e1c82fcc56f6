/**
 * AbstractRestController: the controller layer over AbstractRestViewController.
 * It renders the views its parent answers and, on the writing actions,
 * catches an InvalidFormException: postAction and putAction answer a 409 view
 * with the form's errors when the exception carries the conflict code and
 * return the form itself otherwise; patchAction and deleteAction always return
 * the form. Every other failure propagates.
 */
module RestController {
  import opened Values
  import opened Strings
  import opened Exceptions
  import opened RestHandler
  import opened ViewController

  /** What an action hands to the framework: a view to render, or the invalid form (shown with its errors). */
  datatype Response =
    | Rendered(view: View)
    | FormReturned(errors: string)

  /** The catch block of postAction and putAction. */
  function CatchConflict(outcome: Result<View, Failure>): (r: Result<Response, Failure>)
    ensures outcome.Ok? ==> r == Ok(Rendered(outcome.value))
    ensures outcome.Err? && !outcome.error.InvalidForm? ==> r == Err(outcome.error)
    ensures outcome.Err? && outcome.error.InvalidForm? && outcome.error.code == Some(HttpConflict) ==>
              r == Ok(Rendered(View(HttpConflict, ErrorBody(outcome.error.formErrors), None)))
    ensures outcome.Err? && outcome.error.InvalidForm? && outcome.error.code != Some(HttpConflict) ==>
              r == Ok(FormReturned(outcome.error.formErrors))
  {
    match outcome
    case Ok(v) => Ok(Rendered(v))
    case Err(f) =>
      if !f.InvalidForm? then Err(f)
      else if f.code != Some(HttpConflict) then Ok(FormReturned(f.formErrors))
      else Ok(Rendered(View(HttpConflict, ErrorBody(f.formErrors), None)))
  }

  /** The catch block of patchAction and deleteAction. */
  function CatchForm(outcome: Result<View, Failure>): (r: Result<Response, Failure>)
    ensures outcome.Ok? ==> r == Ok(Rendered(outcome.value))
    ensures outcome.Err? && !outcome.error.InvalidForm? ==> r == Err(outcome.error)
    ensures outcome.Err? && outcome.error.InvalidForm? ==> r == Ok(FormReturned(outcome.error.formErrors))
  {
    match outcome
    case Ok(v) => Ok(Rendered(v))
    case Err(f) => if f.InvalidForm? then Ok(FormReturned(f.formErrors)) else Err(f)
  }

  /**
   * The two catch blocks agree except on an InvalidFormException with the
   * conflict code, which only postAction and putAction turn into a 409 view.
   */
  lemma CatchBlocksDiffer(outcome: Result<View, Failure>)
    ensures CatchConflict(outcome) != CatchForm(outcome) <==>
            outcome.Err? && outcome.error.InvalidForm? && outcome.error.code == Some(HttpConflict)
    ensures CatchConflict(outcome) != CatchForm(outcome) ==>
            CatchConflict(outcome) == Ok(Rendered(View(HttpConflict, ErrorBody(outcome.error.formErrors), None)))
            && CatchForm(outcome) == Ok(FormReturned(outcome.error.formErrors))
  {
  }

  /** cgetAction: the parent's view, rendered; it never fails. */
  function CgetResponse(listing: Result<Value, Failure>): (r: Response)
    ensures r.Rendered? && r.view == CgetOutcome(listing)
  {
    Rendered(CgetOutcome(listing))
  }

  /** getAction: the parent's view, rendered; a missing entity propagates as not-found. */
  function GetResponse(c: RestViewController, found: Option<Entity>, id: string): (r: Result<Response, Failure>)
    reads c
  {
    match c.GetOutcome(found, id)
    case Ok(v) => Ok(Rendered(v))
    case Err(f) => Err(f)
  }

  function PostResponse(c: RestViewController, result: Result<Entity, Failure>, invalidFormIsHandlerException: bool)
    : (r: Result<Response, Failure>)
    reads c
    requires c.HasRoutes()
  {
    CatchConflict(c.PostOutcome(result, invalidFormIsHandlerException))
  }

  function PutResponse(c: RestViewController, found: bool, handled: Result<Entity, Failure>): (r: Result<Response, Failure>)
    reads c
    requires c.HasRoutes()
  {
    CatchConflict(c.PutOutcome(found, handled))
  }

  function PatchResponse(c: RestViewController, found: Option<Entity>, id: string, handled: Result<Entity, Failure>)
    : (r: Result<Response, Failure>)
    reads c
    requires c.HasRoutes()
  {
    CatchForm(c.PatchOutcome(found, id, handled))
  }

  function DeleteResponse(c: RestViewController, found: Option<Entity>, id: string, removed: Option<Failure>)
    : (r: Result<Response, Failure>)
    reads c
  {
    CatchForm(c.DeleteOutcome(found, id, removed))
  }

  /** getAction answers the entity with 200, or the not-found failure naming the id. */
  lemma GetResponseSpec(c: RestViewController, found: Option<Entity>, id: string)
    ensures found.Some? ==> GetResponse(c, found, id) == Ok(Rendered(View(HttpOk, EntityBody(c.ViewVar(), found.value), None)))
    ensures found.None? ==> GetResponse(c, found, id) == Err(NotFound("The resource '" + id + "' was not found."))
  {
  }

  /**
   * postAction end to end. A new entity is rendered with 201 at the get
   * route; a not-null violation with 400 and a unique violation with 409,
   * both with the readable message; a HandlerException propagates. An
   * InvalidFormException reaches this catch block only when its class is a
   * HandlerException: then a conflict is rendered with 409 and the form's
   * errors, and any other code returns the form. Otherwise the parent has
   * already answered it with 500 and the exception's message, and the
   * form is never returned.
   */
  lemma PostResponseSpec(c: RestViewController, result: Result<Entity, Failure>, flag: bool)
    requires c.HasRoutes()
    ensures result.Ok? ==> PostResponse(c, result, flag) == Ok(Rendered(c.EntityView(HttpCreated, result.value)))
    ensures PostResponse(c, result, flag).Err? <==> result.Err? && result.error.HandlerFailure?
    ensures result.Err? && result.error.HandlerFailure? ==> PostResponse(c, result, flag) == Err(result.error)
    ensures result.Err? && result.error.NotNullViolation? ==>
              PostResponse(c, result, flag) == Ok(Rendered(View(HttpBadRequest, ErrorBody(NotNullMessage(result.error.message)), None)))
    ensures result.Err? && result.error.UniqueViolation? ==>
              PostResponse(c, result, flag) == Ok(Rendered(View(HttpConflict, ErrorBody(UniqueMessage(result.error.message)), None)))
    ensures result.Err? && result.error.InvalidForm? && flag ==>
              PostResponse(c, result, flag) ==
                if result.error.code == Some(HttpConflict)
                then Ok(Rendered(View(HttpConflict, ErrorBody(result.error.formErrors), None)))
                else Ok(FormReturned(result.error.formErrors))
    ensures result.Err? && result.error.InvalidForm? && !flag ==>
              PostResponse(c, result, flag) == Ok(Rendered(View(HttpInternalServerError, ErrorBody(InvalidFormMessage), None)))
  {
    PostOutcomeSpec(c, result, flag);
  }

  /**
   * putAction end to end: the entity rendered with 204 when it replaced an
   * existing one and 201 when it was created; an InvalidFormException with
   * the conflict code rendered with 409 and the form's errors, with any
   * other code the form; every other failure propagates.
   */
  lemma PutResponseSpec(c: RestViewController, found: bool, handled: Result<Entity, Failure>)
    requires c.HasRoutes()
    ensures handled.Ok? ==>
              PutResponse(c, found, handled) == Ok(Rendered(c.EntityView(if found then HttpNoContent else HttpCreated, handled.value)))
    ensures handled.Err? && handled.error.InvalidForm? ==>
              PutResponse(c, found, handled) ==
                if handled.error.code == Some(HttpConflict)
                then Ok(Rendered(View(HttpConflict, ErrorBody(handled.error.formErrors), None)))
                else Ok(FormReturned(handled.error.formErrors))
    ensures handled.Err? && !handled.error.InvalidForm? ==> PutResponse(c, found, handled) == Err(handled.error)
  {
  }

  /**
   * A form the handler rejects on put is answered with 409 exactly when its
   * errors report a value "already in use with" another entity; otherwise
   * the form is returned.
   */
  lemma PutRejectedForm(c: RestViewController, found: bool, errors: string)
    requires c.HasRoutes()
    ensures PutResponse(c, found, Err(HandleInvalidForm(errors))) ==
            if Contains(errors, "already in use with")
            then Ok(Rendered(View(HttpConflict, ErrorBody(errors), None)))
            else Ok(FormReturned(errors))
  {
    PutResponseSpec(c, found, Err(HandleInvalidForm(errors)));
  }

  /**
   * patchAction end to end: a missing entity is not-found; otherwise the
   * patched entity is rendered with 204, a rejected form is returned
   * whatever its code, and every other failure propagates.
   */
  lemma PatchResponseSpec(c: RestViewController, found: Option<Entity>, id: string, handled: Result<Entity, Failure>)
    requires c.HasRoutes()
    ensures found.None? ==> PatchResponse(c, found, id, handled) == Err(NotFound("The resource '" + id + "' was not found."))
    ensures found.Some? && handled.Ok? ==> PatchResponse(c, found, id, handled) == Ok(Rendered(c.EntityView(HttpNoContent, handled.value)))
    ensures found.Some? && handled.Err? && handled.error.InvalidForm? ==>
              PatchResponse(c, found, id, handled) == Ok(FormReturned(handled.error.formErrors))
    ensures found.Some? && handled.Err? && !handled.error.InvalidForm? ==> PatchResponse(c, found, id, handled) == Err(handled.error)
  {
  }

  /**
   * deleteAction end to end: a missing entity is not-found; otherwise 204
   * with no body, a rejected form returned, any other failure propagated.
   */
  lemma DeleteResponseSpec(c: RestViewController, found: Option<Entity>, id: string, removed: Option<Failure>)
    ensures found.None? ==> DeleteResponse(c, found, id, removed) == Err(NotFound("The resource '" + id + "' was not found."))
    ensures found.Some? && removed.None? ==> DeleteResponse(c, found, id, removed) == Ok(Rendered(View(HttpNoContent, NoBody, None)))
    ensures found.Some? && removed.Some? && removed.value.InvalidForm? ==>
              DeleteResponse(c, found, id, removed) == Ok(FormReturned(removed.value.formErrors))
    ensures found.Some? && removed.Some? && !removed.value.InvalidForm? ==> DeleteResponse(c, found, id, removed) == Err(removed.value)
  {
  }

  /** Patch and delete never answer a conflict: whatever they render carries 204. */
  lemma PatchDeleteRenderNoContent(c: RestViewController, found: Option<Entity>, id: string,
                                   handled: Result<Entity, Failure>, removed: Option<Failure>)
    requires c.HasRoutes()
    ensures var r := PatchResponse(c, found, id, handled); r.Ok? && r.value.Rendered? ==> r.value.view.status == HttpNoContent
    ensures var r := DeleteResponse(c, found, id, removed); r.Ok? && r.value.Rendered? ==> r.value.view.status == HttpNoContent
  {
  }
}
