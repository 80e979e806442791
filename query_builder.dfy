/**
 * The part of `buildQuery` that routes/tasks.js and routes/users.js share
 * (lines 5-15 of each): start from `model.find()` and apply the `where`,
 * `sort` and `select` query parameters, each only when present and only
 * when it parses. JSON parsing is a parameter: `parse(text)` is `None`
 * exactly when `JSON.parse(text)` throws.
 */
module QueryBuilder {
  import opened Wrappers
  import opened Js

  /** The raw query-string parameters the listing endpoints look at. */
  datatype QueryParams = QueryParams(
    where: Option<string>,
    sort: Option<string>,
    select: Option<string>,
    skip: Option<string>,
    limit: Option<string>)

  /** A configured read: each modifier is `None` when it was not applied. */
  datatype Query<J> = Query(
    filter: Option<J>,
    order: Option<J>,
    projection: Option<J>,
    skip: Option<int>,
    limit: Option<int>)

  /** The value a JSON-valued parameter contributes: nothing when absent, empty or malformed. */
  function JsonParam<J>(v: Option<string>, parse: string -> Option<J>): (r: Option<J>)
    ensures !Truthy(v) ==> r.None?
    ensures Truthy(v) ==> r == parse(v.value)
  {
    if Truthy(v) then parse(v.value) else None
  }

  /** `model.find()` followed by the `where`, `sort` and `select` steps. */
  method ApplyDocumentParams<J>(params: QueryParams, parse: string -> Option<J>) returns (query: Query<J>)
    ensures query.skip.None? && query.limit.None?
    ensures query.filter == JsonParam(params.where, parse)
    ensures query.order == JsonParam(params.sort, parse)
    ensures query.projection == JsonParam(params.select, parse)
  {
    query := Query(None, None, None, None, None);
    if Truthy(params.where) {
      var parsed := parse(params.where.value);
      if parsed.Some? { query := query.(filter := parsed); }
    }
    if Truthy(params.sort) {
      var parsed := parse(params.sort.value);
      if parsed.Some? { query := query.(order := parsed); }
    }
    if Truthy(params.select) {
      var parsed := parse(params.select.value);
      if parsed.Some? { query := query.(projection := parsed); }
    }
  }
}
