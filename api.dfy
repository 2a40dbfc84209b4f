/** The axios instance's request interceptor: the bearer token from the stored session. */
module Api {
  import opened Wrappers
  import opened Js

  /** An outgoing request's configuration; only its headers matter here. */
  class RequestConfig {
    var headers: map<string, string>

    constructor (headers: map<string, string>)
      ensures this.headers == headers
    {
      this.headers := headers;
    }
  }

  /** user.token || user.accessToken */
  function Token(user: JsObject): (t: JsValue)
    ensures Truthy(Get(user, "token")) ==> t == Get(user, "token")
    ensures !Truthy(Get(user, "token")) ==> t == Get(user, "accessToken")
  {
    Or(Get(user, "token"), Get(user, "accessToken"))
  }

  /**
   * The Authorization header the interceptor attaches for what is stored under
   * "user": none without a session or without a truthy token field.
   */
  function Authorization(stored: Option<JsObject>): (r: Option<string>)
    ensures stored.None? ==> r.None?
    ensures stored.Some? && Truthy(Get(stored.value, "token")) ==>
              r == Some("Bearer " + ToJsString(Get(stored.value, "token")))
    ensures stored.Some? && !Truthy(Get(stored.value, "token")) && Truthy(Get(stored.value, "accessToken")) ==>
              r == Some("Bearer " + ToJsString(Get(stored.value, "accessToken")))
    ensures stored.Some? && !Truthy(Get(stored.value, "token")) && !Truthy(Get(stored.value, "accessToken")) ==>
              r.None?
  {
    if stored.None? then None
    else
      var token := Token(stored.value);
      if Truthy(token) then Some("Bearer " + ToJsString(token)) else None
  }

  /**
   * The interceptor: sets the Authorization header when a token is found, leaves
   * every other header alone, and hands back the same config object.
   */
  method Intercept(storage: LocalStorage, config: RequestConfig) returns (r: RequestConfig)
    modifies config
    ensures r == config
    ensures Authorization(storage.GetItem("user")).None? ==> config.headers == old(config.headers)
    ensures Authorization(storage.GetItem("user")).Some? ==>
              config.headers == old(config.headers)["Authorization" := Authorization(storage.GetItem("user")).value]
  {
    var data := storage.GetItem("user");
    if data.Some? {
      var user := data.value;
      var token := Or(Get(user, "token"), Get(user, "accessToken"));
      if Truthy(token) {
        config.headers := config.headers["Authorization" := "Bearer " + ToJsString(token)];
      }
    }
    r := config;
  }
}
