/**
 * `initialize_models`: build the embedding model and the language model,
 * read the vector store's credentials from the environment, refuse to go
 * on without them, and connect. The constructors are library calls; the
 * model records which of them run, in order, and with what arguments.
 */
module Config {
  import opened Wrappers

  const EmbedModelName: string := "thenlper/gte-large"
  const LlmModelName: string := "deepseek-r1-distill-llama-70b"
  const UrlVariable: string := "QDRANT_URL"
  const ApiKeyVariable: string := "QDRANT_API_KEY"
  const MissingCredentials: string := "QDRANT_URL and QDRANT_API_KEY must be set in .env file"

  /** A client object the function constructs, with the arguments it passes. */
  datatype Component =
    | EmbedModel(modelName: string)
    | Llm(model: string)
    | QdrantClient(url: string, apiKey: string, preferGrpc: bool)

  datatype ConfigError = ValueError(message: string)

  /** The `(embed_model, llm, client)` triple returned on success. */
  datatype Models = Models(embedModel: Component, llm: Component, client: Component)

  /** The constructors called, in order, and what the call returns or raises. */
  datatype Init = Init(constructed: seq<Component>, outcome: Result<Models, ConfigError>)

  /** `os.getenv(name)`: the variable's value, or `None` when it is not set. */
  function Getenv(env: map<string, string>, name: string): Option<string> {
    if name in env then Some(env[name]) else None
  }

  /** Python truthiness of a `str | None`: set and not empty. */
  predicate Truthy(o: Option<string>) {
    o.Some? && o.value != ""
  }

  /** The guard `not qdrant_url or not qdrant_api_key` does not fire. */
  predicate CredentialsOk(url: Option<string>, apiKey: Option<string>) {
    Truthy(url) && Truthy(apiKey)
  }

  function InitializeModels(env: map<string, string>): (r: Init)
    ensures |r.constructed| >= 2
    ensures r.constructed[0] == EmbedModel(EmbedModelName) && r.constructed[1] == Llm(LlmModelName)
    ensures r.outcome.Failure? <==>
      || UrlVariable !in env || env[UrlVariable] == ""
      || ApiKeyVariable !in env || env[ApiKeyVariable] == ""
    ensures r.outcome.Failure? ==> r.outcome.error == ValueError(MissingCredentials)
    ensures r.outcome.Failure? ==> forall c :: c in r.constructed ==> !c.QdrantClient?
    ensures r.outcome.Success? ==>
      && r.constructed == [EmbedModel(EmbedModelName), Llm(LlmModelName), QdrantClient(env[UrlVariable], env[ApiKeyVariable], true)]
      && r.outcome.value == Models(r.constructed[0], r.constructed[1], r.constructed[2])
  {
    var embedModel := EmbedModel(EmbedModelName);
    var llm := Llm(LlmModelName);
    var url := Getenv(env, UrlVariable);
    var apiKey := Getenv(env, ApiKeyVariable);
    if !CredentialsOk(url, apiKey) then
      Init([embedModel, llm], Failure(ValueError(MissingCredentials)))
    else
      var client := QdrantClient(url.value, apiKey.value, true);
      Init([embedModel, llm, client], Success(Models(embedModel, llm, client)))
  }

  /** A vector store client is built only from two non-empty credentials, exactly those the environment holds. */
  lemma ClientOnlyWithCredentials(env: map<string, string>, c: Component)
    requires c in InitializeModels(env).constructed && c.QdrantClient?
    ensures CredentialsOk(Getenv(env, UrlVariable), Getenv(env, ApiKeyVariable))
    ensures c == QdrantClient(env[UrlVariable], env[ApiKeyVariable], true)
  {
  }
}
