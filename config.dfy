/**
 * The constants of src/config/config.ts that the login routes use. The
 * frontend's base URL comes from the environment (FRONTEND_ENDPOINT) and may
 * be missing, so the routes take it as an `Option<Text>` parameter.
 */
module Config {
  import opened JsString

  /** `config.frontend.loginRoute`. */
  const LOGIN_ROUTE: Text := Lit("login")

  /** `config.frontend.samlRoute`. */
  const SAML_ROUTE: Text := Lit("login")
}
