/**
 * The access gate run in front of every page (middleware.ts). The request is
 * reduced to its pathname, its `key` search parameter (`None` for the
 * `null` that `searchParams.get` returns), its `access_key` cookie and the
 * configured `ACCESS_KEY` (both `None` for `undefined`).
 */
module Middleware {
  import opened Wrappers
  import opened Text

  datatype CookieOptions = CookieOptions(path: string, maxAge: int)

  /** What the middleware answers: `NextResponse.next()`, the same with a
      cookie set on it, or a redirect. */
  datatype Decision =
    | Pass
    | PassSettingCookie(name: string, value: string, options: CookieOptions)
    | RedirectTo(path: string)

  const AccessCookieName: string := "access_key"
  /** One day, in seconds. */
  const CookieMaxAge: int := 60 * 60 * 24
  const LockedPath: string := "/locked"

  /** No line terminator stands at index `i` or later. */
  predicate NoLineTerminatorFrom(s: string, i: int) {
    forall j :: 0 <= i <= j < |s| ==> !IsLineTerminator(s[j])
  }

  /** `PUBLIC_FILE.test(pathname)` for `PUBLIC_FILE = /\.(.*)$/`: some '.' is
      followed by characters other than line terminators up to the end. */
  predicate IsPublicFile(pathname: string) {
    exists i :: 0 <= i < |pathname| && pathname[i] == '.' && NoLineTerminatorFrom(pathname, i + 1)
  }

  /** Paths the gate lets through unconditionally: public files, the API and
      the framework's own assets. */
  predicate Bypassed(pathname: string) {
    IsPublicFile(pathname) || StartsWith(pathname, "/api") || StartsWith(pathname, "/_next")
  }

  /** `key === validKey`: a `null` parameter never equals a string or `undefined`. */
  predicate KeyMatches(key: Option<string>, accessKey: Option<string>) {
    key.Some? && accessKey.Some? && key.value == accessKey.value
  }

  /** `middleware`. */
  function Middleware(pathname: string, key: Option<string>, cookie: Option<string>,
                      accessKey: Option<string>): (d: Decision)
    ensures d.PassSettingCookie? ==> key.Some? && d.value == key.value && accessKey == Some(d.value)
    ensures d.RedirectTo? ==> d.path == LockedPath
  {
    if Bypassed(pathname) then Pass
    else if cookie == accessKey then Pass
    else if KeyMatches(key, accessKey) then
      PassSettingCookie(AccessCookieName, key.value, CookieOptions("/", CookieMaxAge))
    else RedirectTo(LockedPath)
  }

  /** Bypassed paths pass whatever the key and cookie. */
  lemma BypassAlwaysPasses(pathname: string, key: Option<string>, cookie: Option<string>, accessKey: Option<string>)
    requires Bypassed(pathname)
    ensures Middleware(pathname, key, cookie, accessKey) == Pass
  {
  }

  /** A path with a '.' in its last line (a file name) is bypassed. */
  lemma DottedPathIsBypassed(pathname: string, i: int)
    requires 0 <= i < |pathname| && pathname[i] == '.' && NoLineTerminatorFrom(pathname, i + 1)
    ensures Bypassed(pathname)
  {
  }

  /** A matching cookie passes without setting anything, whatever the URL key:
      the cookie is checked before the key. */
  lemma CookieTakesPrecedence(pathname: string, key: Option<string>, cookie: Option<string>, accessKey: Option<string>)
    requires cookie == accessKey
    ensures Middleware(pathname, key, cookie, accessKey) == Pass
  {
  }

  /** A matching URL key (without a matching cookie) passes and sets the
      cookie to the key, for path "/" and one day. */
  lemma KeySetsCookie(pathname: string, key: string, cookie: Option<string>, accessKey: Option<string>)
    requires !Bypassed(pathname) && cookie != accessKey && accessKey == Some(key)
    ensures Middleware(pathname, Some(key), cookie, accessKey)
         == PassSettingCookie("access_key", key, CookieOptions("/", 86400))
  {
  }

  /** A protected request is redirected to the lock screen exactly when
      neither the cookie nor the URL key matches. */
  lemma RedirectIff(pathname: string, key: Option<string>, cookie: Option<string>, accessKey: Option<string>)
    ensures Middleware(pathname, key, cookie, accessKey).RedirectTo? <==>
      !Bypassed(pathname) && cookie != accessKey && !KeyMatches(key, accessKey)
  {
  }

  /** With no `ACCESS_KEY` configured, a request without the cookie passes:
      `undefined === undefined`. */
  lemma UnsetKeyWithoutCookiePasses(pathname: string, key: Option<string>)
    ensures Middleware(pathname, key, None, None) == Pass
  {
  }

  /** With no `ACCESS_KEY` configured, a URL key never sets the cookie. */
  lemma UnsetKeyNeverSetsCookie(pathname: string, key: Option<string>, cookie: Option<string>)
    ensures !Middleware(pathname, key, cookie, None).PassSettingCookie?
  {
  }
}
