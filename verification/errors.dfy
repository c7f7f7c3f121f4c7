/** The exceptions the client raises, as values. */
module Errors {

  datatype Error =
      /** `ValueError`: a key, a secret or the base URL is empty. */
    | MissingCredentials
      /** `IndexError`: the path starts with an environment prefix but has no
          second `/` after its first character. */
    | MalformedEnvironmentPath(path: string)
      /** `ValueError`: the upper-cased method is neither `GET` nor `POST`. */
    | UnsupportedMethod(name: string)
      /** `RuntimeError`: the server answered with a status outside 200-299. */
    | UpstreamHttpError(status: int, body: string)
}
