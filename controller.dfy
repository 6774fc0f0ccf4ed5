/**
 * The request-handling decisions of the base REST resource controller: the
 * guards of the single-item path (`select`), the list path (`collect`), the
 * id-list path (`showMutliple`), the scope-name resolution (`getScope`) and
 * the default id policy (`validateId`), together with the four entry points
 * that wire them (`show`, `index`, `showScope`, `indexScope`).
 *
 * The framework's request object becomes the `Request` value, the model
 * class and its query methods become the functions held by `Resource`, and
 * the rendered response becomes `Response`: a single item or a collection,
 * each with the `fields` selector handed to the transformer, or an error.
 */
module Controller {
  import opened Wrappers
  import opened PhpStrings
  import opened PhpNumeric

  /**
   * The base class's ceiling on both the page size and the number of ids in
   * one request. The source reads it as `static::LIMIT_MAX`, so a subclass
   * may redeclare it; the ceiling in force is `Resource.limitMax`.
   */
  const LIMIT_MAX: int := 1000

  /** Page size used when the request gives none. */
  const DEFAULT_LIMIT: int := 12

  /** The exceptions the controller raises. */
  datatype Error =
    | MethodNotAllowed
    | InvalidSyntax
    | ItemNotFound
    | BigLimit
    | TooManyIds
      /** The configuration error: the model has no scope method for `scope`. */
    | ScopeMissing(scope: string)

  /** What an operation produces: a rendered item, a rendered collection, or an error. */
  datatype Response<T> =
    | RenderItem(item: T, fields: Option<string>)
    | RenderCollection(records: seq<T>, fields: Option<string>)
    | Fail(error: Error)

  /** The parts of an HTTP request the controller reads. */
  datatype Request = Request(
    verb: string,              // the HTTP method
    routeId: Option<string>,   // the route parameter `id`
    segments: seq<string>,     // the path segments
    ids: Option<string>,       // the query parameter `ids`
    limit: Option<int>,        // the query parameter `limit`, read as an integer
    fields: Option<string>)    // the query parameter `fields`

  /**
   * What a concrete controller supplies: its id policy, its ceiling
   * (`LIMIT_MAX` unless redeclared), the model's lookups and the names of the
   * methods the model class declares. An empty lookup (PHP `null`) is `None`.
   */
  datatype Resource<T> = Resource(
    validId: string -> bool,
    limitMax: int,
    find: string -> Option<T>,
    findMany: seq<string> -> seq<T>,
    paginate: int -> seq<T>,
    methods: set<string>,
    scopedFind: (string, string) -> Option<T>,
    scopedPaginate: (string, int) -> seq<T>)

  /**
   * The default id policy: a numeric string whose integer value is positive.
   * An accepted id is numeric, not empty, and does not start with '-'.
   */
  predicate DefaultValidateId(id: string)
    ensures DefaultValidateId(id) ==> IsNumeric(id) && |id| > 0 && id[0] != '-'
  {
    match Parse(id)
    case None => false
    case Some(n) =>
      RenderFirstChar(n);
      IntValue(n) > 0
  }

  /** A route id is usable when it is present and the policy accepts it (PHP `null` never is). */
  predicate IdAccepted(validId: string -> bool, routeId: Option<string>)
  {
    routeId.Some? && validId(routeId.value)
  }

  /** PHP truthiness of an optional string: absent, "" and "0" are false. */
  predicate Truthy(s: Option<string>)
  {
    s.Some? && s.value != "" && s.value != "0"
  }

  /** `$limit ?: 12`: the requested page size, or the default when it is absent or zero. */
  function EffectiveLimit(limit: Option<int>): (r: int)
    ensures r != 0
    ensures limit.Some? && limit.value != 0 ==> r == limit.value
    ensures r == DEFAULT_LIMIT || (limit.Some? && r == limit.value)
  {
    if limit.None? || limit.value == 0 then DEFAULT_LIMIT else limit.value
  }

  /**
   * The position of the first id the policy rejects, scanning left to right;
   * `None` when every id is accepted.
   */
  function FirstInvalid(ids: seq<string>, validId: string -> bool): (r: Option<nat>)
    ensures r.Some? ==> r.value < |ids| && !validId(ids[r.value])
    ensures r.Some? ==> forall j :: 0 <= j < r.value ==> validId(ids[j])
    ensures r.None? <==> forall j :: 0 <= j < |ids| ==> validId(ids[j])
  {
    if ids == [] then None
    else if !validId(ids[0]) then Some(0)
    else match FirstInvalid(ids[1..], validId)
      case None => None
      case Some(k) => Some(k + 1)
  }

  /** `showMutliple`: render every record named by a comma-separated id list. */
  function ShowMultiple<T>(res: Resource<T>, ids: string, fields: Option<string>): (r: Response<T>)
    ensures !r.RenderItem?
    ensures r.Fail? ==> r.error in {TooManyIds, InvalidSyntax}
    ensures r.RenderCollection? ==> r.fields == fields
  {
    var list := Explode(ids, ',');
    if |list| > res.limitMax then Fail(TooManyIds)
    else if FirstInvalid(list, res.validId).Some? then Fail(InvalidSyntax)
    else RenderCollection(res.findMany(list), fields)
  }

  /** `select`: the single-item path, with `lookup` standing for the callback. */
  function Select<T>(res: Resource<T>, req: Request, lookup: string -> Option<T>): (r: Response<T>)
    ensures !r.RenderCollection?
    ensures r.Fail? ==> r.error in {MethodNotAllowed, InvalidSyntax, ItemNotFound}
    ensures r.RenderItem? <==>
      req.verb == "GET" && IdAccepted(res.validId, req.routeId) && lookup(req.routeId.value).Some?
    ensures r.RenderItem? ==> lookup(req.routeId.value) == Some(r.item) && r.fields == req.fields
  {
    if req.verb != "GET" then Fail(MethodNotAllowed)
    else if !IdAccepted(res.validId, req.routeId) then Fail(InvalidSyntax)
    else match lookup(req.routeId.value)
      case None => Fail(ItemNotFound)
      case Some(item) => RenderItem(item, req.fields)
  }

  /** `collect`: the list path, with `list` standing for the callback given the limit and route id. */
  function Collect<T>(res: Resource<T>, req: Request, list: (int, Option<string>) -> seq<T>): (r: Response<T>)
    ensures !r.RenderItem?
    ensures r.Fail? ==> r.error in {MethodNotAllowed, TooManyIds, InvalidSyntax, BigLimit}
    ensures r.RenderCollection? ==> r.fields == req.fields
  {
    if req.verb != "GET" then Fail(MethodNotAllowed)
    else if Truthy(req.ids) then ShowMultiple(res, req.ids.value, req.fields)
    else
      var limit := EffectiveLimit(req.limit);
      if limit > res.limitMax then Fail(BigLimit)
      else RenderCollection(list(limit, req.routeId), req.fields)
  }

  /**
   * `array_slice($segments, $offset, 1)[0]`: a non-negative offset counts
   * from the start, a negative one from the end, clamped to the first
   * segment; `None` when the slice is empty.
   */
  function SegmentAt(segments: seq<string>, offset: int): (r: Option<string>)
    ensures 0 <= offset < |segments| ==> r == Some(segments[offset])
    ensures -|segments| <= offset < 0 ==> r == Some(segments[|segments| + offset])
    ensures offset < -|segments| && |segments| > 0 ==> r == Some(segments[0])
    ensures |segments| == 0 || offset >= |segments| ==> r == None
  {
    var start := if offset >= 0 then offset else if |segments| + offset >= 0 then |segments| + offset else 0;
    if start < |segments| then Some(segments[start]) else None
  }

  /** A missing segment reads as PHP `null`, which the string functions treat as "". */
  function SegmentText(segment: Option<string>): string
  {
    match segment
    case None => ""
    case Some(s) => s
  }

  /** The scope name of a path segment: hyphens become word breaks, words are capitalised and joined, first letter lowered. */
  function ScopeName(segment: string): string
  {
    LcFirst(RemoveChar(UcWords(ReplaceChar(segment, '-', ' ')), ' '))
  }

  /** `method_exists`: method names compare case-insensitively. */
  predicate HasMethod(methods: set<string>, name: string)
  {
    exists m :: m in methods && LowerAll(m) == LowerAll(name)
  }

  /** `getScope`: the scope named by the segment at `offset`, provided the model declares it. */
  function GetScope(methods: set<string>, segments: seq<string>, offset: int): (r: Result<string, Error>)
    ensures r.Success? ==> HasMethod(methods, "scope" + r.value)
    ensures r.Failure? ==> r.error.ScopeMissing? && !HasMethod(methods, "scope" + r.error.scope)
    ensures r.Success? ==> r.value == ScopeName(SegmentText(SegmentAt(segments, offset)))
    ensures r.Failure? ==> r.error.scope == ScopeName(SegmentText(SegmentAt(segments, offset)))
  {
    var scope := ScopeName(SegmentText(SegmentAt(segments, offset)));
    if HasMethod(methods, "scope" + scope) then Success(scope) else Failure(ScopeMissing(scope))
  }

  /** `show`: the single-item path over the model's `find`. */
  function Show<T>(res: Resource<T>, req: Request): (r: Response<T>)
    ensures !r.RenderCollection?
    ensures r.Fail? ==> r.error in {MethodNotAllowed, InvalidSyntax, ItemNotFound}
    ensures r.RenderItem? ==> req.routeId.Some? && res.find(req.routeId.value) == Some(r.item)
  {
    Select(res, req, res.find)
  }

  /** `index`: the list path over the model's `paginate`; the route id is not used. */
  function Index<T>(res: Resource<T>, req: Request): (r: Response<T>)
    ensures !r.RenderItem?
    ensures r.Fail? ==> r.error in {MethodNotAllowed, TooManyIds, InvalidSyntax, BigLimit}
    ensures r.RenderCollection? && !Truthy(req.ids) ==> r.records == res.paginate(EffectiveLimit(req.limit))
  {
    Collect(res, req, (limit: int, id: Option<string>) => res.paginate(limit))
  }

  /** `showScope`: the scope named by the second-to-last segment, then the single-item path through it. */
  function ShowScope<T>(res: Resource<T>, req: Request): (r: Response<T>)
    ensures !r.RenderCollection?
    ensures r.Fail? ==> r.error.ScopeMissing? || r.error in {MethodNotAllowed, InvalidSyntax, ItemNotFound}
    ensures r.Fail? && r.error.ScopeMissing? <==> GetScope(res.methods, req.segments, -2).Failure?
    ensures r.RenderItem? ==>
      GetScope(res.methods, req.segments, -2).Success? && req.routeId.Some?
      && res.scopedFind(GetScope(res.methods, req.segments, -2).value, req.routeId.value) == Some(r.item)
  {
    match GetScope(res.methods, req.segments, -2)
    case Failure(e) => Fail(e)
    case Success(scope) => Select(res, req, (id: string) => res.scopedFind(scope, id))
  }

  /** `indexScope`: the scope named by the last segment, then the list path through it. */
  function IndexScope<T>(res: Resource<T>, req: Request): (r: Response<T>)
    ensures !r.RenderItem?
    ensures r.Fail? ==> r.error.ScopeMissing? || r.error in {MethodNotAllowed, TooManyIds, InvalidSyntax, BigLimit}
    ensures r.Fail? && r.error.ScopeMissing? <==> GetScope(res.methods, req.segments, -1).Failure?
    ensures r.RenderCollection? ==> GetScope(res.methods, req.segments, -1).Success?
  {
    match GetScope(res.methods, req.segments, -1)
    case Failure(e) => Fail(e)
    case Success(scope) => Collect(res, req, (limit: int, id: Option<string>) => res.scopedPaginate(scope, limit))
  }
}
