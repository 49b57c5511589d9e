/** Generated signatures against generated calls: one registry operation yields both, and they must agree
    position by position. */
module Signatures {
  datatype PathParam = PathParam(name: string, uuid: bool)

  datatype Query = Query(name: string, required: bool, integer: bool)

  datatype Body = NoBody | SchemaBody(schema: string) | UntypedBody

  datatype Operation = Operation(path: seq<PathParam>, query: seq<Query>, body: Body, paginated: bool)

  /** Namespaces whose `tenant_id` comes from the client, and operations sent a hand-written test body. */
  datatype Registry = Registry(implicitTenant: set<string>, prechecked: set<(string, string)>)

  // ---- Shared decisions -----------------------------------------------------------------------------------------

  method ImplicitParams(reg: Registry, namespace: string, op: Operation) returns (implicit: set<string>)
    ensures implicit == Implicit(reg, namespace, op)
  {
    var names := set i | 0 <= i < |op.path| :: op.path[i].name;
    implicit := {};
    if "org_id" in names { implicit := implicit + {"org_id"}; }
    if "tenant_id" in names && namespace in reg.implicitTenant { implicit := implicit + {"tenant_id"}; }
  }

  function Implicit(reg: Registry, namespace: string, op: Operation): set<string> {
    var names := set i | 0 <= i < |op.path| :: op.path[i].name;
    names * ({"org_id"} + if namespace in reg.implicitTenant then {"tenant_id"} else {})
  }

  predicate Owned(op: Operation, name: string) {
    name == "offset" || name == "limit" || (op.paginated && name == "search")
  }

  function Filter(qs: seq<Query>, op: Operation, required: bool): seq<Query> {
    if qs == [] then []
    else
      Filter(qs[..|qs| - 1], op, required) +
      if !Owned(op, qs[|qs| - 1].name) && qs[|qs| - 1].required == required then [qs[|qs| - 1]] else []
  }

  function RequiredQuery(op: Operation): seq<Query> { Filter(op.query, op, true) }

  function OptionalQuery(op: Operation): seq<Query> { Filter(op.query, op, false) }

  /** More than two optional filters are gathered into one object. */
  predicate HasFilterObject(op: Operation) { |OptionalQuery(op)| > 2 }

  // ---- The signature ----------------------------------------------------------------------------------------------

  datatype Annotation =
    | PathText | QueryText | QueryInt | Model(schema: string) | Anything
    | FilterObject | MaybeText | MaybeInt | MaybePage

  datatype Parameter = Parameter(annotation: Annotation, defaulted: bool)

  method OperationSignature(reg: Registry, namespace: string, op: Operation) returns (args: seq<Parameter>)
    ensures args == Signature(reg, namespace, op)
  {
    var implicit := ImplicitParams(reg, namespace, op);
    args := [];
    for i := 0 to |op.path|
      invariant args == PathParameters(implicit, op.path[..i])
    {
      assert op.path[..i + 1][..i] == op.path[..i];
      if op.path[i].name !in implicit { args := args + [Parameter(PathText, false)]; }
    }
    assert op.path[..|op.path|] == op.path;
    var required, optional := RequiredQuery(op), OptionalQuery(op);
    for i := 0 to |required|
      invariant args == PathParameters(implicit, op.path) + RequiredParameters(required[..i])
    {
      assert required[..i + 1][..i] == required[..i];
      args := args + [Parameter(if required[i].integer then QueryInt else QueryText, false)];
    }
    assert required[..|required|] == required;
    args := args + BodyParameters(op.body);
    if HasFilterObject(op) {
      args := args + [Parameter(FilterObject, true)];
    } else {
      ghost var before := args;
      for i := 0 to |optional|
        invariant args == before + OptionalParameters(optional[..i])
      {
        assert optional[..i + 1][..i] == optional[..i];
        args := args + [Parameter(if optional[i].integer then MaybeInt else MaybeText, true)];
      }
      assert optional[..|optional|] == optional;
    }
    if op.paginated { args := args + [Parameter(MaybePage, true)]; }
  }

  function PathParameters(implicit: set<string>, path: seq<PathParam>): seq<Parameter> {
    if path == [] then []
    else
      PathParameters(implicit, path[..|path| - 1]) +
      if path[|path| - 1].name in implicit then [] else [Parameter(PathText, false)]
  }

  function RequiredParameters(qs: seq<Query>): seq<Parameter> {
    if qs == [] then []
    else RequiredParameters(qs[..|qs| - 1]) + [Parameter(if qs[|qs| - 1].integer then QueryInt else QueryText, false)]
  }

  function OptionalParameters(qs: seq<Query>): seq<Parameter> {
    if qs == [] then []
    else OptionalParameters(qs[..|qs| - 1]) + [Parameter(if qs[|qs| - 1].integer then MaybeInt else MaybeText, true)]
  }

  function BodyParameters(body: Body): seq<Parameter> {
    match body
    case NoBody => []
    case SchemaBody(schema) => [Parameter(Model(schema), false)]
    case UntypedBody => [Parameter(Anything, false)]
  }

  function TailParameters(op: Operation): seq<Parameter> {
    if HasFilterObject(op) then [Parameter(FilterObject, true)] else OptionalParameters(OptionalQuery(op))
  }

  function PageParameters(op: Operation): seq<Parameter> { if op.paginated then [Parameter(MaybePage, true)] else [] }

  function Signature(reg: Registry, namespace: string, op: Operation): seq<Parameter> {
    PathParameters(Implicit(reg, namespace, op), op.path) +
    RequiredParameters(RequiredQuery(op)) +
    BodyParameters(op.body) +
    TailParameters(op) + PageParameters(op)
  }

  // ---- The call -----------------------------------------------------------------------------------------

  datatype Argument =
    | ExampleId | ExampleText | Seven | Literal(schema: string) | HandWritten | EmptyObject | Nothing | PageRequest

  method CallArguments(reg: Registry, namespace: string, name: string, op: Operation) returns (args: seq<Argument>)
    ensures args == Call(reg, namespace, name, op)
  {
    var implicit := ImplicitParams(reg, namespace, op);
    args := [];
    for i := 0 to |op.path|
      invariant args == PathArguments(implicit, op.path[..i])
    {
      assert op.path[..i + 1][..i] == op.path[..i];
      if op.path[i].name in implicit { continue; }
      args := args + [if op.path[i].uuid then ExampleId else ExampleText];
    }
    assert op.path[..|op.path|] == op.path;
    args := args + RequiredArguments(RequiredQuery(op));
    if (namespace, name) in reg.prechecked {
      args := args + [HandWritten];
    } else if op.body.SchemaBody? {
      args := args + [Literal(op.body.schema)];
    } else if op.body.UntypedBody? {
      args := args + [EmptyObject];
    }
    if HasFilterObject(op) {
      args := args + [Nothing];
    } else {
      args := args + Nothings(|OptionalQuery(op)|);
    }
    if op.paginated { args := args + [PageRequest]; }
  }

  function PathArguments(implicit: set<string>, path: seq<PathParam>): seq<Argument> {
    if path == [] then []
    else
      var last := path[|path| - 1];
      PathArguments(implicit, path[..|path| - 1]) +
      if last.name in implicit then [] else [if last.uuid then ExampleId else ExampleText]
  }

  function RequiredArguments(qs: seq<Query>): seq<Argument> {
    if qs == [] then [] else RequiredArguments(qs[..|qs| - 1]) + [if qs[|qs| - 1].integer then Seven else ExampleText]
  }

  function Nothings(n: nat): seq<Argument> { if n == 0 then [] else Nothings(n - 1) + [Nothing] }

  function BodyArguments(body: Body, prechecked: bool): seq<Argument> {
    if prechecked then [HandWritten]
    else
      match body
      case NoBody => []
      case SchemaBody(schema) => [Literal(schema)]
      case UntypedBody => [EmptyObject]
  }

  function TailArguments(op: Operation): seq<Argument> {
    if HasFilterObject(op) then [Nothing] else Nothings(|OptionalQuery(op)|)
  }

  function PageArguments(op: Operation): seq<Argument> { if op.paginated then [PageRequest] else [] }

  function Call(reg: Registry, namespace: string, name: string, op: Operation): seq<Argument> {
    PathArguments(Implicit(reg, namespace, op), op.path) +
    RequiredArguments(RequiredQuery(op)) +
    BodyArguments(op.body, (namespace, name) in reg.prechecked) +
    TailArguments(op) + PageArguments(op)
  }

  // ---- Agreement ----------------------------------------------------------------------------------------

  /** The argument may be passed where the annotation stands. */
  predicate Accepts(a: Annotation, x: Argument) {
    match a
    case PathText => x == ExampleId || x == ExampleText
    case QueryText => x == ExampleText
    case QueryInt => x == Seven
    case Model(schema) => x == Literal(schema) || x == HandWritten
    case Anything => x == EmptyObject || x == HandWritten
    case FilterObject => x == Nothing
    case MaybeText => x == Nothing
    case MaybeInt => x == Nothing
    case MaybePage => x == PageRequest || x == Nothing
  }

  /** As many arguments as parameters, each acceptable in its place. */
  ghost predicate Matches(ps: seq<Parameter>, xs: seq<Argument>) {
    |ps| == |xs| && forall i | 0 <= i < |ps| :: Accepts(ps[i].annotation, xs[i])
  }

  lemma MatchesConcat(ps: seq<Parameter>, xs: seq<Argument>, qs: seq<Parameter>, ys: seq<Argument>)
    requires Matches(ps, xs) && Matches(qs, ys)
    ensures Matches(ps + qs, xs + ys)
  {}

  lemma {:induction false} PathMatches(implicit: set<string>, path: seq<PathParam>)
    ensures Matches(PathParameters(implicit, path), PathArguments(implicit, path))
  {
    if path == [] {
    } else {
      PathMatches(implicit, path[..|path| - 1]);
    }
  }

  lemma {:induction false} RequiredMatches(qs: seq<Query>)
    ensures Matches(RequiredParameters(qs), RequiredArguments(qs))
  {
    if qs == [] {
    } else {
      RequiredMatches(qs[..|qs| - 1]);
    }
  }

  lemma {:induction false} OptionalMatches(qs: seq<Query>)
    ensures Matches(OptionalParameters(qs), Nothings(|qs|))
  {
    if qs == [] {
    } else {
      OptionalMatches(qs[..|qs| - 1]);
    }
  }

  ghost predicate PrecheckHasBody(reg: Registry, namespace: string, name: string, op: Operation) {
    (namespace, name) in reg.prechecked ==> !op.body.NoBody?
  }

  lemma BodyMatches(body: Body, prechecked: bool)
    ensures Matches(BodyParameters(body), BodyArguments(body, prechecked)) <==> (prechecked ==> !body.NoBody?)
    ensures |BodyArguments(body, prechecked)| == |BodyParameters(body)| + if prechecked && body.NoBody? then 1 else 0
  {}

  lemma TailMatches(op: Operation)
    ensures Matches(TailParameters(op), TailArguments(op)) && Matches(PageParameters(op), PageArguments(op))
  {
    OptionalMatches(OptionalQuery(op));
  }

  /** Five parts, of which all but the third match: the whole matches when the third does, and cannot when the third is
      of another length. */
  lemma FiveMatch(
      p1: seq<Parameter>, x1: seq<Argument>, p2: seq<Parameter>, x2: seq<Argument>, p3: seq<Parameter>,
      x3: seq<Argument>, p4: seq<Parameter>, x4: seq<Argument>, p5: seq<Parameter>, x5: seq<Argument>)
    requires Matches(p1, x1) && Matches(p2, x2) && Matches(p4, x4) && Matches(p5, x5)
    ensures Matches(p3, x3) ==> Matches(p1 + p2 + p3 + p4 + p5, x1 + x2 + x3 + x4 + x5)
    ensures |p3| != |x3| ==> !Matches(p1 + p2 + p3 + p4 + p5, x1 + x2 + x3 + x4 + x5)
  {
    if Matches(p3, x3) {
      MatchesConcat(p1, x1, p2, x2);
      MatchesConcat(p1 + p2, x1 + x2, p3, x3);
      MatchesConcat(p1 + p2 + p3, x1 + x2 + x3, p4, x4);
      MatchesConcat(p1 + p2 + p3 + p4, x1 + x2 + x3 + x4, p5, x5);
    }
  }

  /** The generated call fits the generated signature exactly when an operation with a hand-written test body
      declares a body at all. */
  lemma CallFitsSignature(reg: Registry, namespace: string, name: string, op: Operation)
    ensures Matches(Signature(reg, namespace, op), Call(reg, namespace, name, op)) <==>
            PrecheckHasBody(reg, namespace, name, op)
  {
    var implicit, prechecked := Implicit(reg, namespace, op), (namespace, name) in reg.prechecked;
    PathMatches(implicit, op.path);
    RequiredMatches(RequiredQuery(op));
    BodyMatches(op.body, prechecked);
    TailMatches(op);
    FiveMatch(PathParameters(implicit, op.path), PathArguments(implicit, op.path),
              RequiredParameters(RequiredQuery(op)), RequiredArguments(RequiredQuery(op)),
              BodyParameters(op.body), BodyArguments(op.body, prechecked),
              TailParameters(op), TailArguments(op), PageParameters(op), PageArguments(op));
  }

  // ---- Defaults last ------------------------------------------------------------------------------------

  ghost predicate AllDefaulted(ps: seq<Parameter>, defaulted: bool) {
    forall i | 0 <= i < |ps| :: ps[i].defaulted == defaulted
  }

  lemma {:induction false} PathUndefaulted(implicit: set<string>, path: seq<PathParam>)
    ensures AllDefaulted(PathParameters(implicit, path), false)
  {
    if path == [] {
    } else {
      PathUndefaulted(implicit, path[..|path| - 1]);
    }
  }

  lemma {:induction false} RequiredUndefaulted(qs: seq<Query>)
    ensures AllDefaulted(RequiredParameters(qs), false)
  {
    if qs == [] {
    } else {
      RequiredUndefaulted(qs[..|qs| - 1]);
    }
  }

  lemma {:induction false} OptionalDefaulted(qs: seq<Query>)
    ensures AllDefaulted(OptionalParameters(qs), true)
  {
    if qs == [] {
    } else {
      OptionalDefaulted(qs[..|qs| - 1]);
    }
  }

  lemma DefaultedConcat(ps: seq<Parameter>, qs: seq<Parameter>, defaulted: bool)
    requires AllDefaulted(ps, defaulted) && AllDefaulted(qs, defaulted)
    ensures AllDefaulted(ps + qs, defaulted)
  {}

  lemma FrontUndefaulted(implicit: set<string>, op: Operation)
    ensures var front := PathParameters(implicit, op.path) + RequiredParameters(RequiredQuery(op));
            AllDefaulted(front + BodyParameters(op.body), false)
  {
    PathUndefaulted(implicit, op.path);
    RequiredUndefaulted(RequiredQuery(op));
    DefaultedConcat(PathParameters(implicit, op.path), RequiredParameters(RequiredQuery(op)), false);
    DefaultedConcat(PathParameters(implicit, op.path) + RequiredParameters(RequiredQuery(op)),
                    BodyParameters(op.body), false);
  }

  lemma BackDefaulted(op: Operation)
    ensures AllDefaulted(TailParameters(op), true) && AllDefaulted(PageParameters(op), true)
  {
    OptionalDefaulted(OptionalQuery(op));
  }

  lemma UndefaultedThenDefaulted(front: seq<Parameter>, tail: seq<Parameter>, page: seq<Parameter>, i: nat, j: nat)
    requires AllDefaulted(front, false) && AllDefaulted(tail, true) && AllDefaulted(page, true)
    requires i < j < |front + tail + page| && (front + tail + page)[i].defaulted
    ensures (front + tail + page)[j].defaulted
  {
    if j < |front| + |tail| { assert (front + tail + page)[j] == tail[j - |front|]; }
  }

  /** No parameter with a default precedes one without, so the generated signature is legal. */
  lemma DefaultsComeLast(reg: Registry, namespace: string, op: Operation, i: nat, j: nat)
    requires i < j < |Signature(reg, namespace, op)| && Signature(reg, namespace, op)[i].defaulted
    ensures Signature(reg, namespace, op)[j].defaulted
  {
    var implicit := Implicit(reg, namespace, op);
    FrontUndefaulted(implicit, op);
    BackDefaulted(op);
    var front := PathParameters(implicit, op.path) + RequiredParameters(RequiredQuery(op)) + BodyParameters(op.body);
    UndefaultedThenDefaulted(front, TailParameters(op), PageParameters(op), i, j);
  }
}
