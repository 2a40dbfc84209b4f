/** The request bodies of the authentication endpoints. */
module Dto {
  import opened Wrappers

  /** RegisterRequest; username and role may be absent (null) in the JSON body. */
  datatype RegisterRequest = RegisterRequest(username: Option<string>, email: string, password: string, role: Option<string>)

  /** LoginRequest; the identifier holds a username or an email. */
  datatype LoginRequest = LoginRequest(identifier: string, password: string)

  /** AuthResponse: the body of a successful login. */
  datatype AuthResponse = AuthResponse(token: string)
}
