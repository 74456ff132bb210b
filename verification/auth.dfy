/** `adminGuard` (server.js:48-52). */
module Auth {

  /** The admin credentials a request carries: the `X-Admin-Token` header and the `admin_token`
      query parameter; "" stands for an absent or empty value, both of which JavaScript treats
      as false. */
  datatype Credentials = Credentials(header: string, query: string)

  /** `ADMIN_TOKEN` (server.js:14): the environment's value, or "changeme" when it is unset or empty. */
  function AdminToken(env: string): (token: string)
    ensures token != []
    ensures env != [] ==> token == env
    ensures env == [] ==> token == "changeme"
  {
    if env == [] then "changeme" else env
  }

  /** The token the guard checks is the header's when there is one, else the query's; the
      request passes only when that token is non-empty and equals the admin token exactly. */
  function AdminGuard(auth: Credentials, adminToken: string): (pass: bool)
    ensures pass ==> auth.header == adminToken || auth.query == adminToken
    ensures pass <==> (auth.header != [] && auth.header == adminToken) ||
                      (auth.header == [] && auth.query != [] && auth.query == adminToken)
  {
    var token := if auth.header != [] then auth.header else auth.query;
    token != [] && token == adminToken
  }

  /** A header that is present but wrong wins over a right query token. */
  lemma HeaderShadowsQuery(header: string, adminToken: string)
    requires header != [] && header != adminToken
    ensures !AdminGuard(Credentials(header, adminToken), adminToken)
  {
  }
}
