/** The exporter's configuration: what the process reads from its environment
    at start-up, passed in as one immutable value. */
module Settings {
  import opened Base

  /** `DOCKERHUB_USERNAME`, `DOCKERHUB_PASSWORD` (absent when the variable is
      unset) and `DOCKERHUB_LIMIT_EXPORTER_NAME`. */
  datatype Config = Config(username: Option<string>, password: Option<string>, exporterName: string)

  /** Python truthiness of an optional string: set and not empty. */
  predicate Truthy(s: Option<string>) {
    s.Some? && s.value != []
  }

  /** `DOCKERHUB_USERNAME and DOCKERHUB_PASSWORD`: LOGIN mode, as opposed to
      ANONYMOUS mode. */
  predicate Authenticated(cfg: Config) {
    Truthy(cfg.username) && Truthy(cfg.password)
  }
}
