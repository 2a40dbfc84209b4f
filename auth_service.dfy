/** auth.service.js: the client session, kept in localStorage under "user". */
module AuthService {
  import opened Wrappers
  import opened Js
  import Api

  const USER_KEY := "user"

  /**
   * login, once the server has answered with `response`: the data is stored
   * only when it carries a truthy token, and it is returned either way.
   */
  method Login(storage: LocalStorage, response: JsObject) returns (data: JsObject)
    modifies storage
    ensures data == response
    ensures Truthy(Get(response, "token")) ==> storage.items == old(storage.items)[USER_KEY := response]
    ensures !Truthy(Get(response, "token")) ==> storage.items == old(storage.items)
  {
    if Truthy(Get(response, "token")) {
      storage.SetItem(USER_KEY, response);
    }
    data := response;
  }

  /** logout: the session entry is gone, and without one nothing changes. */
  method Logout(storage: LocalStorage)
    modifies storage
    ensures storage.items == old(storage.items) - {USER_KEY}
    ensures USER_KEY !in storage.items
    ensures USER_KEY !in old(storage.items) ==> storage.items == old(storage.items)
  {
    storage.RemoveItem(USER_KEY);
  }

  /** getCurrentUser: the stored session, or null when there is none. */
  method GetCurrentUser(storage: LocalStorage) returns (user: Option<JsObject>)
    ensures user.None? <==> USER_KEY !in storage.items
    ensures user.Some? ==> user.value == storage.items[USER_KEY]
  {
    var data := storage.GetItem(USER_KEY);
    if data.Some? {
      user := data;
    } else {
      user := None;
    }
  }

  /** After a login that stored its data, getCurrentUser returns that data. */
  method LoginThenCurrentUser(storage: LocalStorage, response: JsObject) returns (user: Option<JsObject>)
    requires Truthy(Get(response, "token"))
    modifies storage
    ensures user == Some(response)
  {
    var _ := Login(storage, response);
    user := GetCurrentUser(storage);
  }

  /** After logout, getCurrentUser returns null. */
  method LogoutThenCurrentUser(storage: LocalStorage) returns (user: Option<JsObject>)
    modifies storage
    ensures user.None?
  {
    Logout(storage);
    user := GetCurrentUser(storage);
  }

  /** A request sent after a login that stored a string token carries "Bearer <token>". */
  method LoginThenRequest(storage: LocalStorage, response: JsObject, config: Api.RequestConfig)
    requires Get(response, "token").Str? && Get(response, "token").s != ""
    modifies storage, config
    ensures config.headers == old(config.headers)["Authorization" := "Bearer " + Get(response, "token").s]
  {
    var _ := Login(storage, response);
    var _ := Api.Intercept(storage, config);
  }
}
