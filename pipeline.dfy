/**
 * The retrieve-augment-generate pipeline of the chat application. The
 * embedding model, the vector store's `query_points`, the prompt template
 * and the language model are remote or library calls; they enter as
 * function parameters that either return a value or raise, so the model
 * states what the pipeline does with their results and exceptions and
 * nothing about the results themselves.
 */
module Retrieval {
  import opened Wrappers
  import opened PyStr

  /** The vector store collection searched, and the number of points asked for (`k=5`). */
  const CollectionName: string := "bhagavad-gita"
  const SearchLimit: nat := 5

  /** The payload field that holds a verse's text. */
  const ContextKey: string := "context"

  /** A payload value: a string, or any other JSON value. */
  datatype Value = Text(text: string) | Other

  /** A point returned by the vector store, reduced to its payload. */
  datatype Point = Point(payload: map<string, Value>)

  /**
   * What the pipeline can raise: a missing payload field, a non-string item
   * in `join`, or an exception from one of the remote or library calls,
   * carried as its message.
   */
  datatype PipelineError = KeyError(key: string) | TypeError | Raised(exception: string)

  /**
   * The list comprehension `[doc.payload['context'] for doc in points]`:
   * the field of every point, in the order the store returned them, or the
   * `KeyError` of the first point that lacks it.
   */
  function ContextValues(points: seq<Point>): (r: Result<seq<Value>, PipelineError>)
    ensures r.Success? <==> forall i :: 0 <= i < |points| ==> ContextKey in points[i].payload
    ensures r.Success? ==> |r.value| == |points|
    ensures r.Success? ==> forall i :: 0 <= i < |points| ==> r.value[i] == points[i].payload[ContextKey]
    ensures r.Failure? ==> r.error == KeyError(ContextKey)
  {
    if points == [] then Success([])
    else if ContextKey !in points[0].payload then Failure(KeyError(ContextKey))
    else
      var rest := ContextValues(points[1..]);
      if rest.Failure? then
        assert forall i :: 1 <= i < |points| ==> points[i] == points[1..][i - 1];
        rest
      else Success([points[0].payload[ContextKey]] + rest.value)
  }

  /** The strings held by `values`, all of which are strings. */
  function Texts(values: seq<Value>): (r: seq<string>)
    requires forall i :: 0 <= i < |values| ==> values[i].Text?
    ensures |r| == |values|
    ensures forall i :: 0 <= i < |values| ==> values[i] == Text(r[i])
  {
    if values == [] then [] else [values[0].text] + Texts(values[1..])
  }

  /** `"\n".join(values)`: the joined text, or `TypeError` when some item is not a string. */
  function JoinValues(values: seq<Value>): (r: Result<string, PipelineError>)
    ensures r.Success? <==> forall i :: 0 <= i < |values| ==> values[i].Text?
    ensures r.Failure? ==> r.error == TypeError
  {
    if forall i :: 0 <= i < |values| ==> values[i].Text? then Success(JoinNl(Texts(values)))
    else Failure(TypeError)
  }

  /** The context string of `pipeline`: the comprehension, then the join. */
  function BuildContext(points: seq<Point>): (r: Result<string, PipelineError>)
    ensures r == Failure(KeyError(ContextKey)) <==> exists i :: 0 <= i < |points| && ContextKey !in points[i].payload
    ensures r == Failure(TypeError) <==>
      && (forall i :: 0 <= i < |points| ==> ContextKey in points[i].payload)
      && (exists i :: 0 <= i < |points| && !points[i].payload[ContextKey].Text?)
  {
    var values := ContextValues(points);
    if values.Failure? then Failure(values.error) else JoinValues(values.value)
  }

  /**
   * `search(query, client, embed_model, k)`: embed the query, then ask the
   * `bhagavad-gita` collection for the `k` nearest points; an exception from
   * either call propagates.
   */
  function Search<E>(
    query: string,
    embed: string -> Result<E, string>,
    queryPoints: (string, E, nat) -> Result<seq<Point>, string>,
    k: nat
  ): (r: Result<seq<Point>, PipelineError>)
    ensures embed(query).Failure? ==> r == Failure(Raised(embed(query).error))
    ensures embed(query).Success? ==>
      var found := queryPoints(CollectionName, embed(query).value, k);
      && (found.Failure? ==> r == Failure(Raised(found.error)))
      && (found.Success? ==> r == Success(found.value))
  {
    var embedding := embed(query);
    if embedding.Failure? then Failure(Raised(embedding.error))
    else
      var found := queryPoints(CollectionName, embedding.value, k);
      if found.Failure? then Failure(Raised(found.error)) else Success(found.value)
  }

  /**
   * The augment and generate steps: fill the template with the context and
   * the query, then complete the prompt; an exception from either call
   * propagates, and the template is filled before the model is called.
   */
  function Generate<R>(
    context: string,
    query: string,
    format: (string, string) -> Result<string, string>,
    complete: string -> Result<R, string>
  ): (r: Result<R, PipelineError>)
    ensures format(context, query).Failure? ==> r == Failure(Raised(format(context, query).error))
    ensures format(context, query).Success? ==>
      var answer := complete(format(context, query).value);
      && (answer.Failure? ==> r == Failure(Raised(answer.error)))
      && (answer.Success? ==> r == Success(answer.value))
  {
    var prompt := format(context, query);
    if prompt.Failure? then Failure(Raised(prompt.error))
    else
      var answer := complete(prompt.value);
      if answer.Failure? then Failure(Raised(answer.error)) else Success(answer.value)
  }

  /**
   * `pipeline(query, ...)`: retrieve five points, join their texts into the
   * context, fill the prompt template with the context and the query, and
   * return the language model's completion of it. The first step that
   * raises decides the error, and nothing after it runs.
   */
  function Pipeline<E, R>(
    query: string,
    embed: string -> Result<E, string>,
    queryPoints: (string, E, nat) -> Result<seq<Point>, string>,
    format: (string, string) -> Result<string, string>,
    complete: string -> Result<R, string>
  ): (r: Result<R, PipelineError>)
    ensures var found := Search(query, embed, queryPoints, SearchLimit);
      && (found.Failure? ==> r == Failure(found.error))
      && (found.Success? && BuildContext(found.value).Failure? ==> r == Failure(BuildContext(found.value).error))
      && (found.Success? && BuildContext(found.value).Success? ==>
            r == Generate(BuildContext(found.value).value, query, format, complete))
    ensures r.Success? <==>
      && Search(query, embed, queryPoints, SearchLimit).Success?
      && BuildContext(Search(query, embed, queryPoints, SearchLimit).value).Success?
      && Generate(BuildContext(Search(query, embed, queryPoints, SearchLimit).value).value, query, format, complete).Success?
  {
    var found := Search(query, embed, queryPoints, SearchLimit);
    if found.Failure? then Failure(found.error)
    else
      var ctx := BuildContext(found.value);
      if ctx.Failure? then Failure(ctx.error) else Generate(ctx.value, query, format, complete)
  }

  /**
   * When the remote calls all return, the pipeline fails exactly when the
   * context cannot be built, and otherwise returns the completion of the
   * prompt built from the context.
   */
  lemma PipelineWhenCallsReturn<E, R>(
    query: string,
    embed: string -> Result<E, string>,
    queryPoints: (string, E, nat) -> Result<seq<Point>, string>,
    format: (string, string) -> Result<string, string>,
    complete: string -> Result<R, string>
  )
    requires embed(query).Success? && queryPoints(CollectionName, embed(query).value, SearchLimit).Success?
    requires forall c, q :: format(c, q).Success? && complete(format(c, q).value).Success?
    ensures var ctx := BuildContext(queryPoints(CollectionName, embed(query).value, SearchLimit).value);
      && (Pipeline(query, embed, queryPoints, format, complete).Success? <==> ctx.Success?)
      && (ctx.Failure? ==> Pipeline(query, embed, queryPoints, format, complete) == Failure(ctx.error))
      && (ctx.Success? ==>
            Pipeline(query, embed, queryPoints, format, complete) == Success(complete(format(ctx.value, query).value).value))
  {
  }

  /** When every point carries a string under `'context'`, the context is those strings joined with newlines, in the store's order. */
  lemma ContextIsJoin(points: seq<Point>, fields: seq<string>)
    requires |fields| == |points|
    requires forall i :: 0 <= i < |points| ==> ContextKey in points[i].payload && points[i].payload[ContextKey] == Text(fields[i])
    ensures BuildContext(points) == Success(JoinNl(fields))
  {
    var values := ContextValues(points).value;
    assert Texts(values) == fields;
  }

  /** No points give the empty context, and the model is still asked, with a prompt built from it. */
  lemma NoPointsEmptyContext<E, R>(
    query: string,
    embed: string -> Result<E, string>,
    queryPoints: (string, E, nat) -> Result<seq<Point>, string>,
    format: (string, string) -> Result<string, string>,
    complete: string -> Result<R, string>
  )
    requires embed(query).Success? && queryPoints(CollectionName, embed(query).value, SearchLimit) == Success([])
    ensures BuildContext([]) == Success("")
    ensures Pipeline(query, embed, queryPoints, format, complete) == Generate("", query, format, complete)
  {
    ContextIsJoin([], []);
  }

  /**
   * With n >= 1 points whose texts hold no newline, the context holds exactly
   * n - 1 newlines, and splitting it at them gives back the texts in order.
   */
  lemma ContextSeparators(points: seq<Point>, fields: seq<string>)
    requires |fields| == |points| >= 1
    requires forall i :: 0 <= i < |points| ==> ContextKey in points[i].payload && points[i].payload[ContextKey] == Text(fields[i])
    requires forall i :: 0 <= i < |fields| ==> '\n' !in fields[i]
    ensures BuildContext(points).Success?
    ensures CountChar(BuildContext(points).value, '\n') == |points| - 1
    ensures SplitNl(BuildContext(points).value) == fields
  {
    ContextIsJoin(points, fields);
    JoinNlSeparators(fields);
    SplitJoinNl(fields);
  }
}
