/** The set-up chain of an endpoint: every id it needs is followed back to the call that
    gives it, depth first, and a call is listed when the ids it needs have been. */
module DepChain {
  import opened Wrappers

  const MAX_DEPTH := 4

  datatype Op = Op(verb: string, path: string, needs: seq<string>, gives: set<string>)
  datatype Helper = Helper(name: string, verb: string, path: string)

  /** A step of the chain: a call, or a helper that makes its calls itself. */
  datatype Key = Call(verb: string, path: string) | Bare(helper: string)

  /** What the specification and the flow guide say. `same` compares two paths, `lower` is
      the lower case of a name and `braces` the path parameters written in a path. */
  datatype World = World(
    ops: seq<Op>, helpers: seq<Helper>, guide: map<string, seq<string>>,
    same: (string, string) -> bool, lower: string -> string, braces: string -> seq<string>)

  /** Each operation is listed once, and a path is the same as itself. */
  ghost predicate Proper(w: World) {
    && (forall i, j :: 0 <= i < j < |w.ops| ==>
         !(w.ops[i].verb == w.ops[j].verb && w.ops[i].path == w.ops[j].path))
    && forall p :: w.same(p, p)
  }

  // ---- who gives a name --------------------------------------------------

  function FirstHelper(hs: seq<Helper>, name: string): (h: Option<Helper>)
    ensures h.Some? ==> h.value in hs && h.value.name == name
  {
    if hs == [] then None else if hs[0].name == name then Some(hs[0]) else FirstHelper(hs[1..], name)
  }

  function FirstOp(w: World, ops: seq<Op>, verb: string, path: string): (o: Option<Op>)
    ensures o.Some? ==> o.value in ops
    ensures o.None? ==> forall p :: p in ops ==> !(p.verb == verb && w.same(p.path, path))
  {
    if ops == [] then None
    else if ops[0].verb == verb && w.same(ops[0].path, path) then Some(ops[0])
    else FirstOp(w, ops[1..], verb, path)
  }

  predicate HasHelper(w: World, o: Op) {
    exists h :: h in w.helpers && h.verb == o.verb && w.same(h.path, o.path)
  }

  function VerbRank(verb: string): nat {
    if verb == "POST" then 0 else if verb == "PUT" then 1 else if verb == "GET" then 2 else 3
  }

  /** The order producers are tried in: a project helper's first, POST before GET, shorter paths first. */
  predicate Before(w: World, a: Op, b: Op) {
    var x, y := HasHelper(w, a), HasHelper(w, b);
    if x != y then x
    else if VerbRank(a.verb) != VerbRank(b.verb) then VerbRank(a.verb) < VerbRank(b.verb)
    else |a.path| < |b.path|
  }

  predicate Gives(w: World, o: Op, name: string) {
    exists g :: g in o.gives && w.lower(g) == w.lower(name)
  }

  /** The first of the best operations that give `name`, other than `exclude`. */
  function Producer(w: World, ops: seq<Op>, name: string, exclude: Key): (o: Option<Op>)
    ensures o.Some? ==> o.value in ops && Gives(w, o.value, name) && Call(o.value.verb, o.value.path) != exclude
  {
    if ops == [] then None
    else
      var o := ops[0];
      var rest := Producer(w, ops[1..], name, exclude);
      if !Gives(w, o, name) || Call(o.verb, o.path) == exclude then rest
      else if rest.Some? && Before(w, rest.value, o) then rest
      else Some(o)
  }

  datatype Source = Nobody | Guide(helper: string) | From(op: Op)

  /** Who gives `name`, asked for by `forWhat`: the flow guide's helper, else an operation. */
  function SourceOf(w: World, name: string, forWhat: Key): Source {
    var low := w.lower(name);
    var names := if low in w.guide then w.guide[low] else [];
    if names != [] then
      match FirstHelper(w.helpers, names[0])
      case None => Guide(names[0])
      case Some(h) =>
        match FirstOp(w, w.ops, h.verb, h.path)
        case Some(o) => From(o)
        case None => From(Op(h.verb, h.path, w.braces(h.path), {}))
    else
      match Producer(w, w.ops, name, forWhat)
      case Some(o) => From(o)
      case None => Nobody
  }

  /** What a call needs: what its operation does, or the parameters of its path. */
  function NeedsOf(w: World, key: Key): seq<string> {
    if key.Bare? then []
    else
      match OpAt(w.ops, key)
      case Some(o) => o.needs
      case None => w.braces(key.path)
  }

  function OpAt(ops: seq<Op>, key: Key): (o: Option<Op>)
    ensures o.None? ==> forall p :: p in ops ==> Call(p.verb, p.path) != key
    ensures o.Some? ==> o.value in ops && Call(o.value.verb, o.value.path) == key
  {
    if ops == [] then None else if Call(ops[0].verb, ops[0].path) == key then Some(ops[0]) else OpAt(ops[1..], key)
  }

  lemma SourceNeeds(w: World, name: string, forWhat: Key)
    requires Proper(w) && SourceOf(w, name, forWhat).From?
    ensures var o := SourceOf(w, name, forWhat).op;
            o.needs == NeedsOf(w, Call(o.verb, o.path))
  {
    var o := SourceOf(w, name, forWhat).op;
    var at := OpAt(w.ops, Call(o.verb, o.path));
    if at.Some? {
      assert w.same(o.path, o.path);
      assert o in w.ops;
    }
  }

  // ---- the walk ----------------------------------------------------------

  /** The calls in order, the ids each gives, the names nobody gives, and all names asked for. */
  datatype Chain = Chain(order: seq<Key>, ids: map<Key, seq<string>>, unresolved: seq<string>, seen: set<string>)

  const NoChain := Chain([], map[], [], {})

  function Place(s: Chain, key: Key, name: string): Chain {
    if key in s.ids then s.(ids := s.ids[key := s.ids[key] + [name]])
    else s.(order := s.order + [key], ids := s.ids[key := [name]])
  }

  function Need(w: World, s: Chain, name: string, depth: nat, forWhat: Key): Chain
    requires depth <= MAX_DEPTH
    decreases MAX_DEPTH - depth, 0
  {
    if name in s.seen then s
    else
      var t := s.(seen := s.seen + {name});
      match SourceOf(w, name, forWhat)
      case Guide(helper) => Place(t, Bare(helper), name)
      case Nobody => t.(unresolved := t.unresolved + [name])
      case From(o) =>
        var key := Call(o.verb, o.path);
        Place(if depth < MAX_DEPTH then NeedAll(w, t, o.needs, depth + 1, key) else t, key, name)
  }

  function NeedAll(w: World, s: Chain, names: seq<string>, depth: nat, forWhat: Key): Chain
    requires depth <= MAX_DEPTH
    decreases MAX_DEPTH - depth, |names| + 1
  {
    if names == [] then s
    else NeedAll(w, Need(w, s, names[0], depth, forWhat), names[1..], depth, forWhat)
  }

  /** The walk as it is written: nested calls that add to shared lists. */
  class Builder {
    const w: World
    var order: seq<Key>
    var calls: map<Key, seq<string>>
    var unresolved: seq<string>
    var seen: set<string>

    constructor (w: World)
      ensures this.w == w && Now() == NoChain
    {
      this.w := w;
      order, calls, unresolved, seen := [], map[], [], {};
    }

    function Now(): Chain
      reads this
    {
      Chain(order, calls, unresolved, seen)
    }

    method NeedOne(name: string, depth: nat, forWhat: Key)
      requires depth <= MAX_DEPTH
      modifies this
      ensures Now() == Need(w, old(Now()), name, depth, forWhat)
      decreases MAX_DEPTH - depth
    {
      if name in seen {
        return;
      }
      seen := seen + {name};
      match SourceOf(w, name, forWhat) {
        case Guide(helper) =>
          Add(Bare(helper), name);
        case Nobody =>
          unresolved := unresolved + [name];
        case From(o) =>
          var key := Call(o.verb, o.path);
          if depth < MAX_DEPTH {
            ghost var start := Now();
            for i := 0 to |o.needs|
              invariant NeedAll(w, start, o.needs, depth + 1, key) == NeedAll(w, Now(), o.needs[i..], depth + 1, key)
            {
              NeedOne(o.needs[i], depth + 1, key);
            }
          }
          Add(key, name);
      }
    }

    method Add(key: Key, name: string)
      modifies this
      ensures Now() == Place(old(Now()), key, name)
    {
      if key !in calls {
        calls := calls[key := []];
        order := order + [key];
      }
      calls := calls[key := calls[key] + [name]];
      assert [] + [name] == [name];
    }
  }

  method ChainFor(w: World, names: seq<string>, target: Key) returns (steps: seq<Key>, ids: map<Key, seq<string>>, unresolved: seq<string>)
    ensures var s := NeedAll(w, NoChain, names, 1, target);
            steps == s.order && ids == s.ids && unresolved == s.unresolved
  {
    var b := new Builder(w);
    for i := 0 to |names|
      invariant fresh(b) && b.w == w
      invariant NeedAll(w, NoChain, names, 1, target) == NeedAll(w, b.Now(), names[i..], 1, target)
    {
      b.NeedOne(names[i], 1, target);
    }
    steps, ids, unresolved := b.order, b.calls, b.unresolved;
  }
}
