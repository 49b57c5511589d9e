/** The generator's worklist over a possibly cyclic schema graph. */
module SchemaClosures {
  import opened Wrappers

  /** A JSON document; the members of an object keep their order. */
  datatype Node = List(items: seq<Node>) | Dict(members: seq<Member>) | Word(text: string) | Scalar

  datatype Member = Member(key: string, value: Node)

  /** An operation's request and response schema names, as the registry spells them. */
  datatype Operation = Operation(requestSchema: Option<string>, responseSchema: Option<string>)

  type Schemas = map<string, Node>

  // ---- References -----------------------------------------------------------------------------------------------

  /** What follows the last slash. */
  function LastSegment(s: string): string {
    if s == "" || s[|s| - 1] == '/' then "" else LastSegment(s[..|s| - 1]) + [s[|s| - 1]]
  }

  function OwnRef(member: Member): set<string> {
    if member.key == "$ref" && member.value.Word? then {LastSegment(member.value.text)} else {}
  }

  /** Every reference target anywhere under a node. */
  function RefsOf(node: Node): set<string>
    decreases node, 1
  {
    match node
    case List(items) => RefsOfItems(items)
    case Dict(members) => RefsOfMembers(members)
    case _ => {}
  }

  function RefsOfItems(items: seq<Node>): set<string>
    decreases items, 0
  {
    if items == [] then {} else RefsOfItems(items[..|items| - 1]) + RefsOf(items[|items| - 1])
  }

  function RefsOfMembers(members: seq<Member>): set<string>
    decreases members, 0
  {
    if members == [] then {}
    else
      var last := members[|members| - 1];
      RefsOfMembers(members[..|members| - 1]) + OwnRef(last) + RefsOf(last.value)
  }

  method RefsIn(node: Node, before: set<string>) returns (found: set<string>)
    ensures found == before + RefsOf(node)
    decreases node
  {
    found := before;
    match node
    case List(items) =>
      for i := 0 to |items|
        invariant found == before + RefsOfItems(items[..i])
      {
        assert items[..i + 1][..i] == items[..i];
        found := RefsIn(items[i], found);
      }
      assert items[..|items|] == items;
    case Dict(members) =>
      for i := 0 to |members|
        invariant found == before + RefsOfMembers(members[..i])
      {
        assert members[..i + 1][..i] == members[..i];
        found := found + OwnRef(members[i]);
        found := RefsIn(members[i].value, found);
      }
      assert members[..|members|] == members;
    case _ =>
  }

  // ---- Reachability -----------------------------------------------------------------------------------------------

  function LstripBrackets(s: string): string {
    if s != "" && (s[0] == '[' || s[0] == ']') then LstripBrackets(s[1..]) else s
  }

  function SeedOf(name: Option<string>): set<string> {
    if name.None? || name.value == "" then {} else {LstripBrackets(name.value)}
  }

  function Seeds(ops: seq<Operation>): set<string> {
    if ops == [] then {}
    else
      var last := ops[|ops| - 1];
      Seeds(ops[..|ops| - 1]) + SeedOf(last.requestSchema) + SeedOf(last.responseSchema)
  }

  /** A walk along references from a seed, through defined schemas only. */
  ghost predicate IsWalk(seeds: set<string>, schemas: Schemas, walk: seq<string>) {
    walk != [] && walk[0] in seeds &&
    (forall i | 0 <= i < |walk| :: walk[i] in schemas) &&
    (forall i | 0 <= i < |walk| - 1 :: walk[i + 1] in RefsOf(schemas[walk[i]]))
  }

  ghost predicate Reachable(seeds: set<string>, schemas: Schemas, name: string) {
    exists walk :: IsWalk(seeds, schemas, walk) && walk[|walk| - 1] == name
  }

  lemma SeedIsReachable(seeds: set<string>, schemas: Schemas, name: string)
    requires name in seeds && name in schemas
    ensures Reachable(seeds, schemas, name)
  {
    assert IsWalk(seeds, schemas, [name]) && [name][|[name]| - 1] == name;
  }

  lemma RefIsReachable(seeds: set<string>, schemas: Schemas, name: string, ref: string)
    requires Reachable(seeds, schemas, name) && name in schemas && ref in RefsOf(schemas[name]) && ref in schemas
    ensures Reachable(seeds, schemas, ref)
  {
    var walk :| IsWalk(seeds, schemas, walk) && walk[|walk| - 1] == name;
    var longer := walk + [ref];
    assert IsWalk(seeds, schemas, longer) && longer[|longer| - 1] == ref;
  }

  /** A set with every defined seed in it, closed under references to defined schemas, holds all that is reachable. */
  lemma {:induction false} ClosedHoldsWalk(seeds: set<string>, schemas: Schemas, seen: set<string>, walk: seq<string>)
    requires forall s | s in seeds && s in schemas :: s in seen
    requires forall s, r | s in seen && s in schemas && r in RefsOf(schemas[s]) && r in schemas :: r in seen
    requires IsWalk(seeds, schemas, walk)
    ensures walk[|walk| - 1] in seen
    decreases |walk|
  {
    if |walk| > 1 {
      var init := walk[..|walk| - 1];
      ClosedHoldsWalk(seeds, schemas, seen, init);
      assert walk[|walk| - 2 + 1] in RefsOf(schemas[init[|init| - 1]]);
    }
  }

  // ---- Sorting ------------------------------------------------------------------------------------------------------

  /** Code-point order. */
  predicate Less(a: string, b: string) {
    if b == "" then false
    else if a == "" then true
    else a[0] < b[0] || (a[0] == b[0] && Less(a[1..], b[1..]))
  }

  lemma {:induction false} LessIsTotal(a: string, b: string)
    ensures Less(a, b) || Less(b, a) || a == b
    ensures !(Less(a, b) && Less(b, a)) && (a == b ==> !Less(a, b))
  {
    if a != "" && b != "" && a[0] == b[0] {
      LessIsTotal(a[1..], b[1..]);
      assert a == [a[0]] + a[1..] && b == [b[0]] + b[1..];
    }
  }

  lemma {:induction false} LessIsTransitive(a: string, b: string, c: string)
    requires Less(a, b) && Less(b, c)
    ensures Less(a, c)
  {
    if a != "" && a[0] == b[0] == c[0] { LessIsTransitive(a[1..], b[1..], c[1..]); }
  }

  ghost predicate Ascending(names: seq<string>) { forall i, j | 0 <= i < j < |names| :: Less(names[i], names[j]) }

  function Insert(names: seq<string>, x: string): seq<string> {
    if names == [] || Less(x, names[0]) then [x] + names else [names[0]] + Insert(names[1..], x)
  }

  lemma {:induction false} InsertAscending(names: seq<string>, x: string)
    requires Ascending(names) && x !in names
    ensures Ascending(Insert(names, x)) && forall y :: y in Insert(names, x) <==> y == x || y in names
  {
    if names == [] {
    } else if Less(x, names[0]) {
      forall j | 0 < j < |names| ensures Less(x, names[j]) { LessIsTransitive(x, names[0], names[j]); }
    } else {
      var rest := names[1..];
      assert names == [names[0]] + rest;
      InsertAscending(rest, x);
      LessIsTotal(x, names[0]);
      forall y | y in Insert(rest, x) ensures Less(names[0], y) {
        if y != x { var i :| 0 <= i < |rest| && rest[i] == y; assert names[i + 1] == y; }
      }
    }
  }

  /** `sorted` of a set. */
  method Sorted(names: set<string>) returns (r: seq<string>)
    ensures Ascending(r) && forall x :: x in r <==> x in names
  {
    r := [];
    var rest := names;
    while rest != {}
      invariant Ascending(r) && rest <= names && forall x :: x in r <==> x in names - rest
      decreases |rest|
    {
      var x :| x in rest;
      InsertAscending(r, x);
      r := Insert(r, x);
      rest := rest - {x};
    }
  }

  /** A set listed in no particular order. */
  method Listed(names: set<string>) returns (r: seq<string>)
    ensures forall x :: x in r <==> x in names
  {
    r := [];
    var rest := names;
    while rest != {}
      invariant rest <= names && forall x :: x in r <==> x in names - rest
      decreases |rest|
    {
      var x :| x in rest;
      r := r + [x];
      rest := rest - {x};
    }
  }

  // ---- The worklist -------------------------------------------------------------------------------------

  /** Everything seen is reachable, everything waiting was seeded or referenced by something seen, and every defined
      seed and reference of something seen is seen or waiting. */
  ghost predicate WorklistOk(seeds: set<string>, schemas: Schemas, seen: set<string>, frontier: seq<string>) {
    (forall s | s in seen :: s in schemas && Reachable(seeds, schemas, s)) &&
    (forall f | f in frontier :: f in schemas ==> Reachable(seeds, schemas, f)) &&
    (forall s | s in seeds && s in schemas :: s in seen || s in frontier) &&
    (forall s, r | s in seen && s in schemas && r in RefsOf(schemas[s]) && r in schemas :: r in seen || r in frontier)
  }

  lemma SkipKeepsOk(seeds: set<string>, schemas: Schemas, seen: set<string>, frontier: seq<string>, name: string)
    requires WorklistOk(seeds, schemas, seen, frontier + [name])
    requires name in seen || name !in schemas
    ensures WorklistOk(seeds, schemas, seen, frontier)
  {
    assert forall x :: x in frontier + [name] <==> x in frontier || x == name;
  }

  lemma ExpandKeepsOk(seeds: set<string>, schemas: Schemas, seen: set<string>, frontier: seq<string>, name: string,
      more: seq<string>)
    requires WorklistOk(seeds, schemas, seen, frontier + [name])
    requires name in schemas && forall f :: f in more <==> f in RefsOf(schemas[name]) && f !in seen + {name}
    ensures WorklistOk(seeds, schemas, seen + {name}, frontier + more)
  {
    assert forall x :: x in frontier + [name] <==> x in frontier || x == name;
    assert forall x :: x in frontier + more <==> x in frontier || x in more;
    forall f | f in more && f in schemas ensures Reachable(seeds, schemas, f) {
      RefIsReachable(seeds, schemas, name, f);
    }
  }

  lemma DoneMeansReachable(seeds: set<string>, schemas: Schemas, seen: set<string>)
    requires WorklistOk(seeds, schemas, seen, [])
    ensures forall x :: x in seen <==> Reachable(seeds, schemas, x)
  {
    forall x | Reachable(seeds, schemas, x) ensures x in seen {
      var walk :| IsWalk(seeds, schemas, walk) && walk[|walk| - 1] == x;
      ClosedHoldsWalk(seeds, schemas, seen, walk);
    }
  }

  lemma Unpop(frontier: seq<string>)
    requires frontier != []
    ensures frontier == frontier[..|frontier| - 1] + [frontier[|frontier| - 1]]
  {}

  lemma StartIsOk(seeds: set<string>, schemas: Schemas, frontier: seq<string>)
    requires forall f :: f in frontier <==> f in seeds
    ensures WorklistOk(seeds, schemas, {}, frontier)
  {
    forall f | f in frontier && f in schemas ensures Reachable(seeds, schemas, f) {
      SeedIsReachable(seeds, schemas, f);
    }
  }

  /** The schemas the operations name. */
  method CollectSeeds(ops: seq<Operation>) returns (seeds: set<string>)
    ensures seeds == Seeds(ops)
  {
    seeds := {};
    for i := 0 to |ops|
      invariant seeds == Seeds(ops[..i])
    {
      assert ops[..i + 1][..i] == ops[..i];
      seeds := seeds + SeedOf(ops[i].requestSchema);
      seeds := seeds + SeedOf(ops[i].responseSchema);
    }
    assert ops[..|ops|] == ops;
  }

  /** The references of one schema that have not been seen. */
  method Unseen(schemas: Schemas, seen: set<string>, name: string) returns (more: seq<string>)
    requires name in schemas
    ensures forall f :: f in more <==> f in RefsOf(schemas[name]) && f !in seen
  {
    var found := RefsIn(schemas[name], {});
    more := Listed(set f | f in found && f !in seen);
  }

  /** Terminates on every graph, cycles included, and returns the reachable defined schemas, sorted, each once. */
  method SchemaClosure(ops: seq<Operation>, schemas: Schemas) returns (names: seq<string>)
    ensures Ascending(names)
    ensures forall x :: x in names <==> Reachable(Seeds(ops), schemas, x)
  {
    var seeds := CollectSeeds(ops);
    var seen: set<string> := {};
    var frontier := Listed(seeds);
    StartIsOk(seeds, schemas, frontier);
    while frontier != []
      invariant WorklistOk(seeds, schemas, seen, frontier)
      decreases schemas.Keys - seen, |frontier|
    {
      var name := frontier[|frontier| - 1];
      Unpop(frontier);
      frontier := frontier[..|frontier| - 1];
      if name in seen || name !in schemas {
        SkipKeepsOk(seeds, schemas, seen, frontier, name);
      } else {
        var more := Unseen(schemas, seen + {name}, name);
        ExpandKeepsOk(seeds, schemas, seen, frontier, name, more);
        seen := seen + {name};
        frontier := frontier + more;
      }
    }
    DoneMeansReachable(seeds, schemas, seen);
    names := Sorted(seen);
  }
}
