/**
 The request and response shapes the views exchange with the framework.
 Authentication is whatever the session resolved: `user` is `None` for an
 anonymous request.
 */
module Web {
  import opened Wrappers
  import opened Store

  /**
   `verb` is the HTTP method; `post` holds the last value of every POST key (what `request.POST[k]`
   returns); `selected` is `request.POST.getlist("_selected_action")`.
   */
  datatype Request = Request(
    user: Option<User>, verb: string, post: map<string, string>, selected: seq<string>, path: string)

  datatype Response =
    | Render(template: string)
    | Redirect(target: string)
    | NotFound
    | Forbidden
    | BadRequest
    | NotAllowed(permitted: seq<string>)
    | LoginRedirect
    | ServerError(exception: string)

  /** The fixed page `access_not_permitted` renders (with status 200). */
  const AccessNotPermitted: Response := Render("pinax/submissions/access_not_permitted.html")

  /** `request.user.has_perm(perm)`; the anonymous user holds no permission. */
  predicate HasPerm(req: Request, perm: string) {
    req.user.Some? && perm in req.user.value.perms
  }

  predicate IsStaff(req: Request) {
    req.user.Some? && req.user.value.isStaff
  }

  /** `request.POST.get(key, default)`. */
  function PostGet(req: Request, key: string, default: string): string {
    if key in req.post then req.post[key] else default
  }
}
