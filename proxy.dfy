/**
 * The request gate (`proxy` in `proxy.ts`): signed-out visitors of study and dashboard pages are
 * sent to the sign-in page with the page they wanted, signed-in visitors of auth pages are sent
 * to the studies list, and everything else passes. Path tests are plain prefix tests. When the
 * auth client cannot be set up, every request passes.
 */
module Proxy {
  import opened Wrappers
  import opened Text
  import opened Types

  /**
   * What the gate does with a request; a redirect keeps the query and may add to it. The query
   * is a map from names to values: the order of `URLSearchParams` and its repeated names are
   * not kept, so the way `set` drops the other entries of a repeated name is not visible here.
   */
  datatype Decision = PassThrough | Redirect(pathname: string, query: map<string, string>)

  const SIGN_IN: string := "/auth/signin"
  const STUDIES: string := "/studies"
  const REDIRECTED_FROM: string := "redirectedFrom"

  /** `pathname.startsWith('/studies') || pathname.startsWith('/dashboard')`. */
  predicate IsProtected(pathname: string) {
    StartsWith(pathname, "/studies") || StartsWith(pathname, "/dashboard")
  }

  /** `pathname.startsWith('/auth')`. */
  predicate IsAuthPage(pathname: string) {
    StartsWith(pathname, "/auth")
  }

  /**
   * `proxy`. `user` is the session's user, if any; `clientFailed` says that setting up the auth
   * client or reading the user threw, in which case the request passes unchecked.
   */
  function Decide(pathname: string, query: map<string, string>, user: Option<Id>, clientFailed: bool): (d: Decision)
    ensures d.Redirect? <==> !clientFailed && ((IsProtected(pathname) && user.None?) || (IsAuthPage(pathname) && user.Some?))
    ensures d.Redirect? && user.None? ==> d == Redirect(SIGN_IN, query[REDIRECTED_FROM := pathname])
    ensures d.Redirect? && user.Some? ==> d == Redirect(STUDIES, query)
  {
    if clientFailed then PassThrough
    else if IsProtected(pathname) && user.None? then Redirect(SIGN_IN, query[REDIRECTED_FROM := pathname])
    else if IsAuthPage(pathname) && user.Some? then Redirect(STUDIES, query)
    else PassThrough
  }

  /** A protected page and an auth page are never the same page, so at most one rule applies. */
  lemma RulesDisjoint(pathname: string)
    ensures !(IsProtected(pathname) && IsAuthPage(pathname))
  {
    if IsAuthPage(pathname) {
      assert pathname[1] == 'a';
    }
  }

  /** A redirect never leads to another redirect for the same visitor. */
  lemma NoRedirectLoop(pathname: string, query: map<string, string>, user: Option<Id>)
    ensures var d := Decide(pathname, query, user, false);
      d.Redirect? ==> Decide(d.pathname, d.query, user, false) == PassThrough
  {
    var signIn, studies := SIGN_IN, STUDIES;
    assert signIn[1] == 'a' && signIn[..5] == "/auth";
    assert studies[..8] == "/studies" && studies[1] == 's';
  }

  /** The tests are prefix tests: any path that merely begins with `/studies` is gated too. */
  lemma PrefixGatesLongerPaths(suffix: string, query: map<string, string>)
    ensures Decide("/studies" + suffix, query, None, false) == Redirect(SIGN_IN, query[REDIRECTED_FROM := "/studies" + suffix])
  {
    assert ("/studies" + suffix)[..8] == "/studies";
  }
}
