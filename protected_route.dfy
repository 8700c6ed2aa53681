/** The route guard. Once the session has loaded, a page that requires a
    signed-in user sends a visitor to "/login", and a page for guests sends a
    signed-in user away; the guarded page is drawn only when neither applies.
    The guard has two halves: an effect that navigates and a render that
    decides what is drawn. Here `signedIn` is the truthiness of the session's
    `user`. */
module ProtectedRoute {
  import opened Common

  /** The props as passed: the flags may be left out. */
  datatype Props = Props(requireAuth: Option<bool>, requireGuest: Option<bool>, redirectTo: Option<string>)

  /** What the guard draws. */
  datatype View = Spinner | Nothing | Children

  /** Where the effect navigates, if anywhere, and what is drawn. */
  datatype Decision = Decision(redirect: Option<string>, view: View)

  const LoginPath: string := "/login"
  const HomePath: string := "/"

  /** A flag left out defaults to false. */
  function Flag(b: Option<bool>): bool {
    b.Some? && b.value
  }

  /** The effect: nothing while loading; otherwise the `requireAuth` test, then
      the `requireGuest` test. */
  function Navigation(loading: bool, signedIn: bool, props: Props): Option<string> {
    if loading then None
    else if Flag(props.requireAuth) && !signedIn then Some(LoginPath)
    else if Flag(props.requireGuest) && signedIn then Some(GuestTarget(props))
    else None
  }

  /** `redirectTo || '/'` */
  function GuestTarget(props: Props): string {
    if Truthy(props.redirectTo) then props.redirectTo.value else HomePath
  }

  /** The render: the spinner while loading, nothing when a guard applies,
      the page otherwise. */
  function Render(loading: bool, signedIn: bool, props: Props): View {
    if loading then Spinner
    else if Flag(props.requireAuth) && !signedIn then Nothing
    else if Flag(props.requireGuest) && signedIn then Nothing
    else Children
  }

  /** The guard's outcome. The effect and the render agree: it navigates
      exactly when it draws nothing. */
  function Decide(loading: bool, signedIn: bool, props: Props): (d: Decision)
    ensures d.redirect.Some? <==> d.view == Nothing
    ensures d.view == Spinner <==> loading
  {
    Decision(Navigation(loading, signedIn, props), Render(loading, signedIn, props))
  }

  /** While the session loads: the spinner and no navigation. */
  lemma WhileLoading(signedIn: bool, props: Props)
    ensures Decide(true, signedIn, props) == Decision(None, Spinner)
  {
  }

  /** A page for signed-in users, visited by a guest: to "/login", nothing drawn. */
  lemma GuestSentToLogin(props: Props)
    requires Flag(props.requireAuth)
    ensures Decide(false, false, props) == Decision(Some(LoginPath), Nothing)
  {
  }

  /** A page for guests, visited by a signed-in user: to `redirectTo`, or "/"
      when it is not given or empty; nothing drawn. */
  lemma SignedInSentAway(props: Props)
    requires Flag(props.requireGuest)
    ensures Decide(false, true, props).view == Nothing
    ensures Truthy(props.redirectTo) ==> Decide(false, true, props).redirect == props.redirectTo
    ensures !Truthy(props.redirectTo) ==> Decide(false, true, props).redirect == Some(HomePath)
  {
  }

  /** At most one navigation, to one of two targets: a guest is only ever sent
      to "/login" (by `requireAuth`) and a signed-in user only to the guest
      target (by `requireGuest`), so with both flags set each visitor meets
      exactly one of the guards. */
  lemma RedirectTargets(loading: bool, signedIn: bool, props: Props)
    ensures var r := Decide(loading, signedIn, props).redirect;
            && (r.Some? && !signedIn ==> r.value == LoginPath && Flag(props.requireAuth))
            && (r.Some? && signedIn ==> r.value == GuestTarget(props) && Flag(props.requireGuest))
    ensures !loading && Flag(props.requireAuth) && Flag(props.requireGuest) ==>
              Decide(loading, signedIn, props).redirect.Some?
  {
  }

  /** The page is drawn exactly when the session has loaded and neither guard
      applies; it is then drawn in place, with no navigation. */
  lemma ChildrenIffNoGuardApplies(loading: bool, signedIn: bool, props: Props)
    ensures Decide(loading, signedIn, props).view == Children <==>
              !loading && !(Flag(props.requireAuth) && !signedIn) && !(Flag(props.requireGuest) && signedIn)
    ensures Decide(loading, signedIn, props).view == Children ==> Decide(loading, signedIn, props).redirect.None?
  {
  }

  /** With both flags left out, the page is always drawn once loaded. */
  lemma DefaultsAlwaysRender(signedIn: bool, redirectTo: Option<string>)
    ensures Decide(false, signedIn, Props(None, None, redirectTo)) == Decision(None, Children)
  {
  }
}
