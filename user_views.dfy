/** Model of backend/users/views.py: the JWT views that move the access and
    refresh tokens between the response body and HTTP-only cookies, and the
    logout view that expires both cookies. What the simplejwt views do in
    `super().post` is taken as given: its response is a parameter. */
module UserViews {
  import opened Text

  const StatusOk := 200
  const StatusNoContent := 204

  /** The `AUTH_COOKIE_*` settings. */
  datatype AuthSettings = AuthSettings(
    accessKey: string, refreshKey: string,
    accessMaxAge: int, refreshMaxAge: int,
    path: string, secure: bool, httpOnly: bool, sameSite: string)

  /** A cookie the response sets, or one it deletes (`delete_cookie` sends an
      expired cookie). */
  datatype Cookie =
    | Cookie(value: string, maxAge: int, path: string, secure: bool, httpOnly: bool, sameSite: string)
    | Expired

  /** A DRF response: status, body (the token fields) and the cookies it sets. */
  class Response {
    var status: int
    var data: map<string, string>
    var cookies: map<string, Cookie>

    constructor (status: int, data: map<string, string>)
      ensures this.status == status && this.data == data && cookies == map[]
    {
      this.status := status;
      this.data := data;
      cookies := map[];
    }

    /** `response.set_cookie(...)` */
    method SetCookie(key: string, cookie: Cookie)
      modifies this
      ensures cookies == old(cookies)[key := cookie]
      ensures status == old(status) && data == old(data)
    {
      cookies := cookies[key := cookie];
    }

    /** `response.delete_cookie(key)` */
    method DeleteCookie(key: string)
      modifies this
      ensures cookies == old(cookies)[key := Expired]
      ensures status == old(status) && data == old(data)
    {
      cookies := cookies[key := Expired];
    }
  }

  /** A request: its body and the cookies the browser sent. */
  class Request {
    var data: map<string, string>
    var cookies: map<string, string>

    constructor (data: map<string, string>, cookies: map<string, string>)
      ensures this.data == data && this.cookies == cookies
    {
      this.data := data;
      this.cookies := cookies;
    }
  }

  /** The value under a key of a request's data or cookies, if present. */
  function Get(d: map<string, string>, k: string): Option<string> {
    if k in d then Some(d[k]) else None
  }

  /** The cookie jar after the token named `field` of `data` is stored under
      `key`: unchanged when the token is missing or empty. */
  function WithToken(cookies: map<string, Cookie>, data: map<string, string>, settings: AuthSettings,
                     key: string, field: string, maxAge: int): (jar: map<string, Cookie>)
    ensures jar.Keys == if Truthy(Get(data, field)) then cookies.Keys + {key} else cookies.Keys
    ensures forall k :: k in cookies && k != key ==> jar[k] == cookies[k]
    ensures Truthy(Get(data, field)) ==>
      jar[key] == Cookie(data[field], maxAge, settings.path, settings.secure, settings.httpOnly, settings.sameSite)
    ensures !Truthy(Get(data, field)) ==> jar == cookies
  {
    var token := Get(data, field);
    if Truthy(token) then
      cookies[key := Cookie(token.value, maxAge, settings.path, settings.secure, settings.httpOnly, settings.sameSite)]
    else cookies
  }

  datatype CookieOutcome = Returned(response: Response?) | TokenError(message: string)

  /** `set_cookie_internal(response, key)`: no response gives no response; the
      access key stores `data['access']` with the access max-age, the refresh
      key `data['refresh']` with the refresh max-age (the access key is tried
      first); any other key raises. */
  method SetCookieInternal(response: Response?, key: string, settings: AuthSettings)
    returns (outcome: CookieOutcome)
    modifies response
    ensures response == null ==> outcome == Returned(null)
    ensures response != null && key != settings.accessKey && key != settings.refreshKey ==>
      outcome == TokenError("Unknown type of token") && response.cookies == old(response.cookies)
    ensures response != null && key == settings.accessKey ==>
      outcome == Returned(response)
      && response.cookies == WithToken(old(response.cookies), response.data, settings, key, "access", settings.accessMaxAge)
    ensures response != null && key != settings.accessKey && key == settings.refreshKey ==>
      outcome == Returned(response)
      && response.cookies == WithToken(old(response.cookies), response.data, settings, key, "refresh", settings.refreshMaxAge)
    ensures response != null ==> response.status == old(response.status) && response.data == old(response.data)
  {
    if response == null {
      return Returned(null);
    }
    var maxAge: int;
    var token: Option<string>;
    if key == settings.accessKey {
      maxAge := settings.accessMaxAge;
      token := Get(response.data, "access");
    } else if key == settings.refreshKey {
      maxAge := settings.refreshMaxAge;
      token := Get(response.data, "refresh");
    } else {
      return TokenError("Unknown type of token");
    }
    if Truthy(token) {
      response.SetCookie(key, Cookie(token.value, maxAge, settings.path, settings.secure, settings.httpOnly, settings.sameSite));
    }
    return Returned(response);
  }

  /** `CustomTokenObtainPairView.post`: `issued` is the response of the
      simplejwt view. On 200 both tokens become cookies; any other status
      passes through untouched. Were both settings the same key, the second
      call would match the access case again. */
  method ObtainPost(settings: AuthSettings, issued: Response) returns (response: Response)
    modifies issued
    ensures response == issued
    ensures response.status == old(issued.status) && response.data == old(issued.data)
    ensures old(issued.status) == StatusOk && settings.accessKey == settings.refreshKey ==>
      response.cookies == WithToken(old(issued.cookies), issued.data, settings, settings.accessKey, "access", settings.accessMaxAge)
    ensures old(issued.status) == StatusOk && settings.accessKey != settings.refreshKey ==>
      response.cookies ==
        WithToken(WithToken(old(issued.cookies), issued.data, settings, settings.accessKey, "access", settings.accessMaxAge),
                  issued.data, settings, settings.refreshKey, "refresh", settings.refreshMaxAge)
    ensures old(issued.status) != StatusOk ==> response.cookies == old(issued.cookies)
  {
    response := issued;
    if response.status == StatusOk {
      var first := SetCookieInternal(response, settings.accessKey, settings);
      var second := SetCookieInternal(response, settings.refreshKey, settings);
    }
  }

  /** `CustomTokenRefreshView.post`: a non-empty refresh cookie is copied into
      the body as `refresh` before the simplejwt view runs; `issued` is what
      that view answers. On 200 only the access cookie is set. */
  method RefreshPost(settings: AuthSettings, request: Request, issued: Response) returns (response: Response)
    modifies request, issued
    ensures request.cookies == old(request.cookies)
    ensures request.data ==
      if Truthy(Get(old(request.cookies), settings.refreshKey))
      then old(request.data)["refresh" := old(request.cookies)[settings.refreshKey]]
      else old(request.data)
    ensures response == issued
    ensures response.status == old(issued.status) && response.data == old(issued.data)
    ensures old(issued.status) == StatusOk ==>
      response.cookies == WithToken(old(issued.cookies), issued.data, settings, settings.accessKey, "access", settings.accessMaxAge)
    ensures old(issued.status) != StatusOk ==> response.cookies == old(issued.cookies)
  {
    var refresh := Get(request.cookies, settings.refreshKey);
    if Truthy(refresh) {
      request.data := request.data["refresh" := refresh.value];
    }
    response := issued;
    if response.status == StatusOk {
      var outcome := SetCookieInternal(response, settings.accessKey, settings);
    }
  }

  /** `CustomTokenVerifyView.post`: the refresh cookie, not the access cookie,
      is copied into the body as `token` when it is non-empty; the simplejwt
      view's answer is returned as it is. */
  method VerifyPost(settings: AuthSettings, request: Request, issued: Response) returns (response: Response)
    modifies request
    ensures request.cookies == old(request.cookies)
    ensures request.data ==
      if Truthy(Get(old(request.cookies), settings.refreshKey))
      then old(request.data)["token" := old(request.cookies)[settings.refreshKey]]
      else old(request.data)
    ensures response == issued
  {
    var token := Get(request.cookies, settings.refreshKey);
    if Truthy(token) {
      request.data := request.data["token" := token.value];
    }
    response := issued;
  }

  /** `LogoutView.post`: always 204, with both auth cookies expired. */
  method LogoutPost(settings: AuthSettings) returns (response: Response)
    ensures fresh(response)
    ensures response.status == StatusNoContent && response.data == map[]
    ensures response.cookies == map[settings.accessKey := Expired, settings.refreshKey := Expired]
  {
    response := new Response(StatusNoContent, map[]);
    response.DeleteCookie(settings.accessKey);
    response.DeleteCookie(settings.refreshKey);
  }
}
