/** The include-directives tree and the merge of include paths into it
    (`IncludeDirectives#get_related` and `#parse_include`). */
module IncludeTree {
  import opened IncludePaths

  datatype Option<T> = None | Some(value: T)

  /** A resource class, known here only by its `_type`. */
  datatype Resource = Resource(typeName: string)

  /** What `_relationships[fragment]` yields: the related resource class and
      the relationship's `eager_load_on_include` setting. */
  datatype Relationship = Relationship(resource: Resource, eagerLoadOnInclude: bool)

  /** The schema registry (`resource_klass._relationships`) and the
      `force_eager_load:` option of the constructor. */
  datatype Settings = Settings(relationships: (Resource, string) -> Option<Relationship>, forceEagerLoad: bool)

  /** One entry `fragment => { include:, include_related:, include_in_join:, volatile: }`
      of an `include_related` hash; `volatile == false` stands for an absent key.
      A `seq` keeps the insertion order of the Ruby hash. */
  datatype Directive = Directive(name: string, included: bool, inJoin: bool, volatile: bool, related: seq<Directive>)

  // ---------------------------------------------------------------------------
  // Resolving fragments against the schema (lines 83-90)

  /** `current_relationship`: the schema's answer while there is a class
      context, and absent once the context is nil (the variable is local to
      each iteration of the loop). */
  function RelationshipOf(cfg: Settings, klass: Option<Resource>, fragment: string): (r: Option<Relationship>)
    ensures klass.None? ==> r.None?
    ensures klass.Some? ==> r == cfg.relationships(klass.value, fragment)
  {
    if klass.Some? then cfg.relationships(klass.value, fragment) else None
  }

  /** The class context after `fragment`: the related class when the
      relationship resolves, nil otherwise; a nil context stays nil. */
  function Step(cfg: Settings, klass: Option<Resource>, fragment: string): (r: Option<Resource>)
    ensures r.Some? <==> RelationshipOf(cfg, klass, fragment).Some?
    ensures r.Some? ==> r.value == RelationshipOf(cfg, klass, fragment).value.resource
    ensures klass.None? ==> r.None?
  {
    var r := RelationshipOf(cfg, klass, fragment);
    if r.Some? then Some(r.value.resource) else None
  }

  /** `include_in_join` for a node created for `fragment` in context `klass`:
      always when eager loading is forced or the fragment does not resolve,
      otherwise as the relationship's eager-load-on-include setting says. */
  function JoinFlag(cfg: Settings, klass: Option<Resource>, fragment: string): (r: bool)
    ensures cfg.forceEagerLoad ==> r
    ensures RelationshipOf(cfg, klass, fragment).None? ==> r
    ensures klass.None? ==> r
    ensures !cfg.forceEagerLoad && RelationshipOf(cfg, klass, fragment).Some? ==>
              (r <==> RelationshipOf(cfg, klass, fragment).value.eagerLoadOnInclude)
  {
    var r := RelationshipOf(cfg, klass, fragment);
    cfg.forceEagerLoad || r.None? || r.value.eagerLoadOnInclude
  }

  /** The class context after walking `addr` from `klass`. */
  function KlassAt(cfg: Settings, klass: Option<Resource>, addr: seq<string>): Option<Resource>
    decreases |addr|
  {
    if addr == [] then klass else KlassAt(cfg, Step(cfg, klass, addr[0]), addr[1..])
  }

  /** The `include_in_join` a node at address `addr` gets when it is created. */
  function JoinAt(cfg: Settings, root: Resource, addr: seq<string>): bool
    requires addr != []
  {
    JoinFlag(cfg, KlassAt(cfg, Some(root), addr[..|addr| - 1]), addr[|addr| - 1])
  }

  /** The context of the parent of `addr`, seen from the first entry of `addr`. */
  lemma KlassAtParent(cfg: Settings, klass: Option<Resource>, addr: seq<string>)
    requires |addr| > 1
    ensures KlassAt(cfg, klass, addr[..|addr| - 1]) == KlassAt(cfg, Step(cfg, klass, addr[0]), addr[1..][..|addr| - 2])
  {
    assert addr[..|addr| - 1][0] == addr[0];
    assert addr[..|addr| - 1][1..] == addr[1..][..|addr| - 2];
  }

  lemma {:induction false} KlassAtNil(cfg: Settings, addr: seq<string>)
    ensures KlassAt(cfg, None, addr) == None
    decreases |addr|
  {
    if addr != [] {
      KlassAtNil(cfg, addr[1..]);
    }
  }

  lemma {:induction false} KlassAtAppend(cfg: Settings, klass: Option<Resource>, a: seq<string>, b: seq<string>)
    ensures KlassAt(cfg, klass, a + b) == KlassAt(cfg, KlassAt(cfg, klass, a), b)
    decreases |a|
  {
    if a != [] {
      assert (a + b)[0] == a[0] && (a + b)[1..] == a[1..] + b;
      KlassAtAppend(cfg, Step(cfg, klass, a[0]), a[1..], b);
      assert KlassAt(cfg, klass, a + b) == KlassAt(cfg, Step(cfg, klass, a[0]), a[1..] + b);
    } else {
      assert a + b == b;
    }
  }

  /** Once a fragment of an address fails to resolve, every deeper node of that
      address is joinable, whatever the eager-load settings say. */
  lemma UnresolvedIsJoinable(cfg: Settings, root: Resource, addr: seq<string>, m: nat)
    requires m < |addr|
    requires KlassAt(cfg, Some(root), addr[..m]) == None
    ensures JoinAt(cfg, root, addr)
  {
    var p := addr[..|addr| - 1];
    assert p == addr[..m] + p[m..];
    KlassAtAppend(cfg, Some(root), addr[..m], p[m..]);
    KlassAtNil(cfg, p[m..]);
  }

  /** With `force_eager_load` every entry is created joinable, at any address. */
  lemma ForcedIsJoinable(cfg: Settings, root: Resource, addr: seq<string>)
    requires cfg.forceEagerLoad && addr != []
    ensures JoinAt(cfg, root, addr)
  {
  }

  /** An entry is created outside the join only when eager loading is not
      forced, every fragment of its address resolves from the primary
      resource, and its own relationship is not eager-loaded on include. */
  lemma NotJoinedResolved(cfg: Settings, root: Resource, addr: seq<string>)
    requires addr != [] && !JoinAt(cfg, root, addr)
    ensures !cfg.forceEagerLoad
    ensures forall k :: 0 <= k <= |addr| ==> KlassAt(cfg, Some(root), addr[..k]).Some?
    ensures var parent := KlassAt(cfg, Some(root), addr[..|addr| - 1]);
            var rel := RelationshipOf(cfg, parent, addr[|addr| - 1]);
            rel.Some? && !rel.value.eagerLoadOnInclude
  {
    var p := addr[..|addr| - 1];
    var last := addr[|addr| - 1];
    var parent := KlassAt(cfg, Some(root), p);
    assert parent.Some?;
    forall k | 0 <= k <= |addr|
      ensures KlassAt(cfg, Some(root), addr[..k]).Some?
    {
      if k == |addr| {
        assert addr[..k] == p + [last];
        KlassAtAppend(cfg, Some(root), p, [last]);
        assert [last][1..] == [];
      } else {
        assert p == addr[..k] + p[k..];
        KlassAtAppend(cfg, Some(root), addr[..k], p[k..]);
        KlassAtNil(cfg, p[k..]);
      }
    }
  }

  // ---------------------------------------------------------------------------
  // Looking up entries of an `include_related` hash

  /** Position of the entry named `name`, or -1. */
  function IndexOf(rel: seq<Directive>, name: string): (i: int)
    ensures -1 <= i < |rel|
    ensures 0 <= i ==> rel[i].name == name
    ensures forall j :: 0 <= j < |rel| && (i < 0 || j < i) ==> rel[j].name != name
  {
    if |rel| == 0 then -1
    else if rel[0].name == name then 0
    else
      var i := IndexOf(rel[1..], name);
      if i < 0 then -1 else i + 1
  }

  lemma IndexOfSameNames(a: seq<Directive>, b: seq<Directive>, name: string)
    requires |a| == |b|
    requires forall j :: 0 <= j < |a| ==> a[j].name == b[j].name
    ensures IndexOf(a, name) == IndexOf(b, name)
  {
  }

  /** The or-assign that creates a missing entry: a fresh entry, not yet
      included and without children, is appended unless the name is present. */
  function FindOrAdd(rel: seq<Directive>, name: string, inJoin: bool): (r: seq<Directive>)
    ensures |rel| <= |r| <= |rel| + 1 && r[..|rel|] == rel
    ensures 0 <= IndexOf(r, name)
    ensures IndexOf(rel, name) < 0 ==> r[IndexOf(r, name)] == Directive(name, false, inJoin, false, [])
    ensures 0 <= IndexOf(rel, name) ==> r == rel
    ensures forall g :: g != name ==> IndexOf(r, g) == IndexOf(rel, g)
  {
    if 0 <= IndexOf(rel, name) then rel
    else
      var r := rel + [Directive(name, false, inJoin, false, [])];
      assert r[|rel|].name == name;
      assert forall j :: 0 <= j < |rel| ==> r[j] == rel[j];
      assert IndexOf(r, name) == |rel|;
      assert forall g :: g != name ==> IndexOf(r, g) == IndexOf(rel, g) by {
        forall g | g != name ensures IndexOf(r, g) == IndexOf(rel, g) {
          var i := IndexOf(rel, g);
          if 0 <= i {
            assert r[i].name == g;
          }
        }
      }
      r
  }

  /** The entry reached by following the names of `addr` from the root hash. */
  function NodeAt(rel: seq<Directive>, addr: seq<string>): (r: Option<Directive>)
    ensures r.Some? ==> addr != [] && r.value.name == addr[|addr| - 1]
    decreases |addr|
  {
    if addr == [] then None
    else
      var i := IndexOf(rel, addr[0]);
      if i < 0 then None
      else if |addr| == 1 then Some(rel[i])
      else NodeAt(rel[i].related, addr[1..])
  }

  lemma IndexOfCons(d: Directive, rest: seq<Directive>, name: string)
    ensures IndexOf([d] + rest, name) ==
              if d.name == name then 0
              else if IndexOf(rest, name) < 0 then -1
              else IndexOf(rest, name) + 1
  {
    assert ([d] + rest)[1..] == rest;
  }

  /** Looking an address up in a hash whose first entry is `d`. */
  lemma NodeAtCons(d: Directive, rest: seq<Directive>, addr: seq<string>)
    requires addr != []
    ensures NodeAt([d] + rest, addr) ==
              if addr[0] != d.name then NodeAt(rest, addr)
              else if |addr| == 1 then Some(d)
              else NodeAt(d.related, addr[1..])
  {
    assert ([d] + rest)[1..] == rest;
  }

  /** `addr` names the root hash or an existing entry. */
  predicate Reaches(rel: seq<Directive>, addr: seq<string>) {
    addr == [] || NodeAt(rel, addr).Some?
  }

  /** The `include_related` hash of the entry at `addr` (the root hash for `[]`). */
  function SubAt(rel: seq<Directive>, addr: seq<string>): seq<Directive>
    decreases |addr|
  {
    if addr == [] then rel
    else
      var i := IndexOf(rel, addr[0]);
      if i < 0 then [] else SubAt(rel[i].related, addr[1..])
  }

  /** `rel` with the `include_related` hash at `addr` replaced by `sub`. */
  function ReplaceAt(rel: seq<Directive>, addr: seq<string>, sub: seq<Directive>): seq<Directive>
    decreases |addr|
  {
    if addr == [] then sub
    else
      var i := IndexOf(rel, addr[0]);
      if i < 0 then rel
      else rel[i := rel[i].(related := ReplaceAt(rel[i].related, addr[1..], sub))]
  }

  lemma {:induction false} ReplaceSubAt(rel: seq<Directive>, addr: seq<string>)
    ensures ReplaceAt(rel, addr, SubAt(rel, addr)) == rel
    decreases |addr|
  {
    if addr != [] {
      var i := IndexOf(rel, addr[0]);
      if 0 <= i {
        ReplaceSubAt(rel[i].related, addr[1..]);
      }
    }
  }

  // ---------------------------------------------------------------------------
  // The reference definitions of get_related and parse_include

  /** What `get_related(path)` does to the tree: create every missing entry
      along `frags`, each with the join flag of its own context. */
  function Insert(cfg: Settings, rel: seq<Directive>, klass: Option<Resource>, frags: seq<string>): seq<Directive>
    decreases |frags|
  {
    if frags == [] then rel
    else
      var f := frags[0];
      var added := FindOrAdd(rel, f, JoinFlag(cfg, klass, f));
      var i := IndexOf(added, f);
      added[i := added[i].(related := Insert(cfg, added[i].related, Step(cfg, klass, f), frags[1..]))]
  }

  /** `related[:include] = true` on the entry at `addr`; each level keeps
      its length and its names. */
  function MarkAt(rel: seq<Directive>, addr: seq<string>): (r: seq<Directive>)
    ensures |r| == |rel|
    ensures forall j :: 0 <= j < |r| ==> r[j].name == rel[j].name
    decreases |addr|
  {
    if addr == [] then rel
    else
      var i := IndexOf(rel, addr[0]);
      if i < 0 then rel
      else if |addr| == 1 then rel[i := rel[i].(included := true)]
      else rel[i := rel[i].(related := MarkAt(rel[i].related, addr[1..]))]
  }

  /** What `parse_include` does to the tree for the segments `frags`: every
      entry along the path exists afterwards and is marked included. */
  function Merge(cfg: Settings, rel: seq<Directive>, klass: Option<Resource>, frags: seq<string>): seq<Directive>
    decreases |frags|
  {
    if frags == [] then rel
    else
      var f := frags[0];
      var added := FindOrAdd(rel, f, JoinFlag(cfg, klass, f));
      var i := IndexOf(added, f);
      added[i := added[i].(included := true, related := Merge(cfg, added[i].related, Step(cfg, klass, f), frags[1..]))]
  }

  /** The `include_related` hash at `addr` after `current[:include_related][fragment] ||= …`. */
  function Touch(rel: seq<Directive>, addr: seq<string>, fragment: string, inJoin: bool): seq<Directive> {
    ReplaceAt(rel, addr, FindOrAdd(SubAt(rel, addr), fragment, inJoin))
  }

  /** The tree once the fragments `rest` are inserted below `addr`, starting
      in class context `klass`: the work the loop of `get_related` has left. */
  function Pending(cfg: Settings, rel: seq<Directive>, addr: seq<string>, klass: Option<Resource>, rest: seq<string>): seq<Directive> {
    ReplaceAt(rel, addr, Insert(cfg, SubAt(rel, addr), klass, rest))
  }

  /** The first iteration of the fragment loop of `get_related`, at the root hash. */
  lemma InsertStepRoot(cfg: Settings, rel: seq<Directive>, klass: Option<Resource>, rest: seq<string>)
    requires rest != []
    ensures Reaches(Touch(rel, [], rest[0], JoinFlag(cfg, klass, rest[0])), [rest[0]])
    ensures Pending(cfg, Touch(rel, [], rest[0], JoinFlag(cfg, klass, rest[0])), [rest[0]], Step(cfg, klass, rest[0]), rest[1..])
              == Insert(cfg, rel, klass, rest)
  {
    var f := rest[0];
    var t := FindOrAdd(rel, f, JoinFlag(cfg, klass, f));
    var j := IndexOf(t, f);
    var x := Insert(cfg, t[j].related, Step(cfg, klass, f), rest[1..]);
    assert SubAt(t, [f]) == t[j].related;
    assert ReplaceAt(t, [f], x) == t[j := t[j].(related := x)];
  }

  /** One iteration of the fragment loop of `get_related`: creating the entry
      for `rest[0]` under `addr` and stepping into it leaves the same work
      as inserting `rest` under `addr`. */
  lemma {:induction false} InsertStep(cfg: Settings, rel: seq<Directive>, addr: seq<string>, klass: Option<Resource>, rest: seq<string>)
    requires Reaches(rel, addr) && rest != []
    ensures Reaches(Touch(rel, addr, rest[0], JoinFlag(cfg, klass, rest[0])), addr + [rest[0]])
    ensures Pending(cfg, Touch(rel, addr, rest[0], JoinFlag(cfg, klass, rest[0])), addr + [rest[0]], Step(cfg, klass, rest[0]), rest[1..])
              == Pending(cfg, rel, addr, klass, rest)
    decreases |addr|
  {
    var f := rest[0];
    if addr == [] {
      assert [] + [f] == [f];
      InsertStepRoot(cfg, rel, klass, rest);
    } else {
      var i := IndexOf(rel, addr[0]);
      var r := rel[i].related;
      assert Reaches(r, addr[1..]);
      InsertStep(cfg, r, addr[1..], klass, rest);
      var r' := ReplaceAt(r, addr[1..], FindOrAdd(SubAt(r, addr[1..]), f, JoinFlag(cfg, klass, f)));
      var rel' := rel[i := rel[i].(related := r')];
      IndexOfSameNames(rel, rel', addr[0]);
      var a := addr + [f];
      assert a[0] == addr[0] && a[1..] == addr[1..] + [f];
    }
  }

  /** Nothing is left to insert. */
  lemma PendingDone(cfg: Settings, rel: seq<Directive>, addr: seq<string>, klass: Option<Resource>)
    ensures Pending(cfg, rel, addr, klass, []) == rel
  {
    ReplaceSubAt(rel, addr);
  }

  lemma {:induction false} UpdateKeepsIndex(rel: seq<Directive>, i: nat, d: Directive, g: string)
    requires i < |rel| && d.name == rel[i].name
    ensures IndexOf(rel[i := d], g) == IndexOf(rel, g)
  {
    IndexOfSameNames(rel, rel[i := d], g);
  }

  /** The one-segment base case of `MergeStep`: inserting a single fragment
      and marking it is merging it. */
  lemma MergeStepFirst(cfg: Settings, rel: seq<Directive>, klass: Option<Resource>, f: string)
    ensures MarkAt(Insert(cfg, rel, klass, [f]), [f]) == Merge(cfg, rel, klass, [f])
  {
    var added := FindOrAdd(rel, f, JoinFlag(cfg, klass, f));
    var i := IndexOf(added, f);
    assert Insert(cfg, added[i].related, Step(cfg, klass, f), []) == added[i].related;
    assert Merge(cfg, added[i].related, Step(cfg, klass, f), []) == added[i].related;
    assert added[i := added[i].(related := added[i].related)] == added;
  }

  /** `get_related` walking through an entry that already exists. */
  lemma InsertThrough(cfg: Settings, t: seq<Directive>, klass: Option<Resource>, g: string, rest: seq<string>)
    requires 0 <= IndexOf(t, g)
    ensures var i := IndexOf(t, g);
            Insert(cfg, t, klass, [g] + rest) == t[i := t[i].(related := Insert(cfg, t[i].related, Step(cfg, klass, g), rest))]
  {
    assert ([g] + rest)[0] == g && ([g] + rest)[1..] == rest;
  }

  lemma MarkThrough(x: seq<Directive>, g: string, rest: seq<string>)
    requires 0 <= IndexOf(x, g) && rest != []
    ensures var i := IndexOf(x, g);
            MarkAt(x, [g] + rest) == x[i := x[i].(related := MarkAt(x[i].related, rest))]
  {
    assert ([g] + rest)[0] == g && ([g] + rest)[1..] == rest;
  }

  lemma MergeThrough(cfg: Settings, rel: seq<Directive>, klass: Option<Resource>, g: string, rest: seq<string>)
    ensures var added := FindOrAdd(rel, g, JoinFlag(cfg, klass, g));
            var i := IndexOf(added, g);
            Merge(cfg, rel, klass, [g] + rest)
              == added[i := added[i].(included := true, related := Merge(cfg, added[i].related, Step(cfg, klass, g), rest))]
  {
    assert ([g] + rest)[0] == g && ([g] + rest)[1..] == rest;
  }

  lemma UpdateTwice(s: seq<Directive>, i: nat, a: Directive, b: Directive)
    requires i < |s|
    ensures s[i := a][i := b] == s[i := b]
  {
  }

  /** The step of `MergeStep` below the first segment `g`, given the step one level down. */
  lemma {:induction false} MergeStepCons(cfg: Settings, rel: seq<Directive>, klass: Option<Resource>, g: string, rest: seq<string>, f: string)
    ensures MarkAt(Insert(cfg, Merge(cfg, rel, klass, [g] + rest), klass, [g] + (rest + [f])), [g] + (rest + [f]))
              == Merge(cfg, rel, klass, [g] + (rest + [f]))
    decreases |rest| + 1, 0
  {
    var q := rest + [f];
    var added := FindOrAdd(rel, g, JoinFlag(cfg, klass, g));
    var i := IndexOf(added, g);
    var k := Step(cfg, klass, g);
    var sub := Merge(cfg, added[i].related, k, rest);
    var t := added[i := added[i].(included := true, related := sub)];
    MergeThrough(cfg, rel, klass, g, rest);
    UpdateKeepsIndex(added, i, t[i], g);
    InsertThrough(cfg, t, klass, g, q);
    var x := t[i := t[i].(related := Insert(cfg, sub, k, q))];
    UpdateKeepsIndex(t, i, x[i], g);
    MarkThrough(x, g, q);
    var y := MarkAt(Insert(cfg, sub, k, q), q);
    MergeStep(cfg, added[i].related, k, rest, f);
    MergeThrough(cfg, rel, klass, g, q);
    calc {
      MarkAt(Insert(cfg, Merge(cfg, rel, klass, [g] + rest), klass, [g] + q), [g] + q);
      MarkAt(x, [g] + q);
      x[i := x[i].(related := y)];
      { UpdateTwice(t, i, x[i], x[i].(related := y)); }
      t[i := x[i].(related := y)];
      { UpdateTwice(added, i, t[i], x[i].(related := y)); }
      added[i := x[i].(related := y)];
      added[i := added[i].(included := true, related := y)];
      Merge(cfg, rel, klass, [g] + q);
    }
  }

  /** One iteration of the segment loop of `parse_include`: inserting the next
      prefix and marking it extends the merge by one segment. */
  lemma {:induction false} MergeStep(cfg: Settings, rel: seq<Directive>, klass: Option<Resource>, p: seq<string>, f: string)
    ensures MarkAt(Insert(cfg, Merge(cfg, rel, klass, p), klass, p + [f]), p + [f]) == Merge(cfg, rel, klass, p + [f])
    decreases |p|, 1
  {
    if p == [] {
      assert p + [f] == [f];
      MergeStepFirst(cfg, rel, klass, f);
    } else {
      var g, rest := p[0], p[1..];
      assert p == [g] + rest;
      assert p + [f] == [g] + (rest + [f]);
      MergeStepCons(cfg, rel, klass, g, rest, f);
    }
  }

  // ---------------------------------------------------------------------------
  // Properties of the merge

  /** A merged tree: sibling names are distinct, every entry is included and
      not (yet) volatile, and every `include_in_join` is the one computed for
      its own context at creation. */
  predicate Merged(cfg: Settings, rel: seq<Directive>, klass: Option<Resource>)
    decreases rel, 1
  {
    && (forall i, j :: 0 <= i < j < |rel| ==> rel[i].name != rel[j].name)
    && (forall i :: 0 <= i < |rel| ==> MergedEntry(cfg, rel[i], klass))
  }

  /** One entry of a merged tree, seen from the context `klass` it hangs in. */
  predicate MergedEntry(cfg: Settings, d: Directive, klass: Option<Resource>)
    decreases d, 0
  {
    && d.included
    && !d.volatile
    && d.inJoin == JoinFlag(cfg, klass, d.name)
    && Merged(cfg, d.related, Step(cfg, klass, d.name))
  }

  /** No two siblings share a name, at any depth. */
  predicate Distinct(rel: seq<Directive>) {
    rel == [] || (IndexOf(rel[1..], rel[0].name) < 0 && Distinct(rel[0].related) && Distinct(rel[1..]))
  }

  lemma {:induction false} MergedDistinct(cfg: Settings, rel: seq<Directive>, klass: Option<Resource>)
    requires Merged(cfg, rel, klass)
    ensures Distinct(rel)
    decreases rel
  {
    if rel != [] {
      MergedDistinct(cfg, rel[0].related, Step(cfg, klass, rel[0].name));
      assert Merged(cfg, rel[1..], klass) by {
        assert forall j :: 0 <= j < |rel| - 1 ==> rel[1..][j] == rel[j + 1];
      }
      MergedDistinct(cfg, rel[1..], klass);
    }
  }

  /** Putting an entry named `f` where `f` is found or added keeps sibling names distinct. */
  lemma {:induction false} PlaceDistinct(rel: seq<Directive>, f: string, inJoin: bool, x: Directive)
    requires forall j, k :: 0 <= j < k < |rel| ==> rel[j].name != rel[k].name
    requires x.name == f
    ensures var added := FindOrAdd(rel, f, inJoin);
            var r := added[IndexOf(added, f) := x];
            forall j, k :: 0 <= j < k < |r| ==> r[j].name != r[k].name
  {
    var added := FindOrAdd(rel, f, inJoin);
    var i := IndexOf(added, f);
    var r := added[i := x];
    forall j, k | 0 <= j < k < |r|
      ensures r[j].name != r[k].name
    {
      if k == i && IndexOf(rel, f) < 0 {
        assert r[j] == rel[j];
        assert rel[j].name != f;
      }
    }
  }

  /** Putting a merged entry named `f` where `f` is found or added keeps a tree merged. */
  lemma {:induction false} MergedPlace(cfg: Settings, rel: seq<Directive>, klass: Option<Resource>, f: string, x: Directive)
    requires Merged(cfg, rel, klass)
    requires x.name == f && MergedEntry(cfg, x, klass)
    ensures var added := FindOrAdd(rel, f, JoinFlag(cfg, klass, f));
            Merged(cfg, added[IndexOf(added, f) := x], klass)
  {
    var added := FindOrAdd(rel, f, JoinFlag(cfg, klass, f));
    var i := IndexOf(added, f);
    var r := added[i := x];
    PlaceDistinct(rel, f, JoinFlag(cfg, klass, f), x);
    assert forall j :: 0 <= j < |r| && j != i ==> r[j] == rel[j];
  }

  /** Merging a path keeps a tree merged; in particular no duplicate sibling is ever created. */
  lemma {:induction false} MergePreservesMerged(cfg: Settings, rel: seq<Directive>, klass: Option<Resource>, frags: seq<string>)
    requires Merged(cfg, rel, klass)
    ensures Merged(cfg, Merge(cfg, rel, klass, frags), klass)
    decreases |frags|
  {
    if frags != [] {
      var f := frags[0];
      var added := FindOrAdd(rel, f, JoinFlag(cfg, klass, f));
      var i := IndexOf(added, f);
      assert added[i].inJoin == JoinFlag(cfg, klass, f) && !added[i].volatile;
      assert Merged(cfg, added[i].related, Step(cfg, klass, f));
      MergePreservesMerged(cfg, added[i].related, Step(cfg, klass, f), frags[1..]);
      MergedPlace(cfg, rel, klass, f, added[i].(included := true, related := Merge(cfg, added[i].related, Step(cfg, klass, f), frags[1..])));
    }
  }

  /** The entries of a merged tree are described by their address alone. */
  lemma {:induction false} MergedNode(cfg: Settings, rel: seq<Directive>, klass: Option<Resource>, addr: seq<string>)
    requires Merged(cfg, rel, klass)
    requires NodeAt(rel, addr).Some?
    ensures var n := NodeAt(rel, addr).value;
            n.included && !n.volatile &&
            n.inJoin == JoinFlag(cfg, KlassAt(cfg, klass, addr[..|addr| - 1]), addr[|addr| - 1])
    decreases |addr|
  {
    var i := IndexOf(rel, addr[0]);
    if |addr| > 1 {
      MergedNode(cfg, rel[i].related, Step(cfg, klass, addr[0]), addr[1..]);
      assert addr[..|addr| - 1][0] == addr[0];
      assert addr[..|addr| - 1][1..] == addr[1..][..|addr[1..]| - 1];
    }
  }

  /** Looking an address up after the entry at index `i` is replaced by one of the same name. */
  lemma NodeAtUpdate(rel: seq<Directive>, i: nat, d: Directive, addr: seq<string>)
    requires i < |rel| && IndexOf(rel, rel[i].name) == i && d.name == rel[i].name && addr != []
    ensures NodeAt(rel[i := d], addr) ==
              if addr[0] != d.name then NodeAt(rel, addr)
              else if |addr| == 1 then Some(d)
              else NodeAt(d.related, addr[1..])
  {
    UpdateKeepsIndex(rel, i, d, addr[0]);
  }

  /** Marking touches one flag: every entry stays where it was with its join
      and volatility flags, and becomes included exactly when it is the
      marked entry. */
  lemma {:induction false} MarkAtNodes(rel: seq<Directive>, addr: seq<string>, a: seq<string>)
    requires a != []
    ensures var n := NodeAt(rel, a);
            var m := NodeAt(MarkAt(rel, addr), a);
            && (m.Some? <==> n.Some?)
            && (n.Some? ==>
                  && m.value.inJoin == n.value.inJoin
                  && m.value.volatile == n.value.volatile
                  && m.value.included == (n.value.included || a == addr))
    decreases |addr|
  {
    if addr != [] {
      var i := IndexOf(rel, addr[0]);
      if 0 <= i {
        var d := if |addr| == 1 then rel[i].(included := true)
                 else rel[i].(related := MarkAt(rel[i].related, addr[1..]));
        assert MarkAt(rel, addr) == rel[i := d];
        NodeAtUpdate(rel, i, d, a);
        if a[0] == addr[0] && |a| > 1 && |addr| > 1 {
          MarkAtNodes(rel[i].related, addr[1..], a[1..]);
          assert a == addr <==> a[1..] == addr[1..] by {
            assert a == [a[0]] + a[1..] && addr == [addr[0]] + addr[1..];
          }
        }
      }
    }
  }

  /** Looking an address up after `||=` on the root hash: a new entry has no children. */
  lemma NodeAtFindOrAdd(rel: seq<Directive>, f: string, inJoin: bool, addr: seq<string>)
    requires addr != []
    ensures var a := FindOrAdd(rel, f, inJoin);
            NodeAt(a, addr) ==
              if addr[0] != f || 0 <= IndexOf(rel, f) then NodeAt(rel, addr)
              else if |addr| == 1 then Some(Directive(f, false, inJoin, false, []))
              else None
  {
    var a := FindOrAdd(rel, f, inJoin);
    if addr[0] != f {
      var j := IndexOf(rel, addr[0]);
      if 0 <= j {
        assert a[j] == rel[j];
      }
    }
  }

  /** What merging `frags` in context `klass` does to the entry at `addr`,
      given that entry before (`n`) and after (`r`) the merge: the entry
      exists afterwards exactly when it existed before or `addr` is a prefix
      of `frags`; an old entry keeps its join flag and volatility and becomes
      included when `addr` is a prefix; a new entry is included, not volatile,
      and carries the join flag of its context. */
  predicate MergeEffect(cfg: Settings, klass: Option<Resource>, frags: seq<string>, addr: seq<string>,
                        n: Option<Directive>, r: Option<Directive>)
    requires addr != []
  {
    && (r.Some? <==> n.Some? || addr <= frags)
    && (n.Some? ==> r.value.inJoin == n.value.inJoin && r.value.volatile == n.value.volatile
                      && r.value.included == (n.value.included || addr <= frags))
    && (n.None? && addr <= frags ==>
          r.value.inJoin == JoinFlag(cfg, KlassAt(cfg, klass, addr[..|addr| - 1]), addr[|addr| - 1])
          && r.value.included && !r.value.volatile)
  }

  /** The effect on a deeper entry, seen from one level up. */
  lemma MergeEffectCons(cfg: Settings, klass: Option<Resource>, frags: seq<string>, addr: seq<string>,
                        n: Option<Directive>, r: Option<Directive>)
    requires |addr| > 1 && frags != [] && addr[0] == frags[0]
    requires MergeEffect(cfg, Step(cfg, klass, addr[0]), frags[1..], addr[1..], n, r)
    ensures MergeEffect(cfg, klass, frags, addr, n, r)
  {
    assert addr <= frags <==> addr[1..] <= frags[1..];
    KlassAtParent(cfg, klass, addr);
  }

  /** Which entries exist after a merge, and what the merge does to each:
      it creates exactly the missing prefixes of `frags`, gives each new entry
      the join flag of its context, marks every prefix included, and never
      changes the name, join flag or volatility of an entry that already existed. */
  lemma {:induction false} MergeNodes(cfg: Settings, rel: seq<Directive>, klass: Option<Resource>, frags: seq<string>, addr: seq<string>)
    requires addr != []
    ensures MergeEffect(cfg, klass, frags, addr, NodeAt(rel, addr), NodeAt(Merge(cfg, rel, klass, frags), addr))
    decreases |frags|
  {
    if frags != [] {
      var f := frags[0];
      var added := FindOrAdd(rel, f, JoinFlag(cfg, klass, f));
      var i := IndexOf(added, f);
      var sub := Merge(cfg, added[i].related, Step(cfg, klass, f), frags[1..]);
      var d := added[i].(included := true, related := sub);
      assert Merge(cfg, rel, klass, frags) == added[i := d];
      NodeAtUpdate(added, i, d, addr);
      NodeAtFindOrAdd(rel, f, JoinFlag(cfg, klass, f), addr);
      if addr[0] != f {
        assert !(addr <= frags);
      } else if |addr| == 1 {
        assert addr <= frags;
      } else {
        MergeNodes(cfg, added[i].related, Step(cfg, klass, f), frags[1..], addr[1..]);
        if 0 <= IndexOf(rel, f) {
          assert NodeAt(rel, addr) == NodeAt(added[i].related, addr[1..]);
        }
        MergeEffectCons(cfg, klass, frags, addr, NodeAt(rel, addr), NodeAt(sub, addr[1..]));
      }
    }
  }

  /** What inserting `frags` does to the entry at `addr` (`n` before, `r`
      after): the entry exists afterwards iff it existed before or `addr` is
      a prefix of `frags`; an old entry keeps all three flags; a new entry is
      not included, not volatile, and carries the join flag of its context. */
  predicate InsertEffect(cfg: Settings, klass: Option<Resource>, frags: seq<string>, addr: seq<string>,
                         n: Option<Directive>, r: Option<Directive>)
    requires addr != []
  {
    && (r.Some? <==> n.Some? || addr <= frags)
    && (n.Some? ==> r.value.inJoin == n.value.inJoin && r.value.volatile == n.value.volatile
                      && r.value.included == n.value.included)
    && (n.None? && addr <= frags ==>
          r.value.inJoin == JoinFlag(cfg, KlassAt(cfg, klass, addr[..|addr| - 1]), addr[|addr| - 1])
          && !r.value.included && !r.value.volatile)
  }

  /** The effect of an insertion on a deeper entry, seen from one level up. */
  lemma InsertEffectCons(cfg: Settings, klass: Option<Resource>, frags: seq<string>, addr: seq<string>,
                         n: Option<Directive>, r: Option<Directive>)
    requires |addr| > 1 && frags != [] && addr[0] == frags[0]
    requires InsertEffect(cfg, Step(cfg, klass, addr[0]), frags[1..], addr[1..], n, r)
    ensures InsertEffect(cfg, klass, frags, addr, n, r)
  {
    assert addr <= frags <==> addr[1..] <= frags[1..];
    KlassAtParent(cfg, klass, addr);
  }

  /** Which entries exist after `get_related`, and what it does to each: it
      creates exactly the missing prefixes of `frags`, each with
      `include: false` and the join flag of its context, and never changes
      an entry that already existed. */
  lemma {:induction false} InsertNodes(cfg: Settings, rel: seq<Directive>, klass: Option<Resource>, frags: seq<string>, addr: seq<string>)
    requires addr != []
    ensures InsertEffect(cfg, klass, frags, addr, NodeAt(rel, addr), NodeAt(Insert(cfg, rel, klass, frags), addr))
    decreases |frags|
  {
    if frags != [] {
      var f := frags[0];
      var added := FindOrAdd(rel, f, JoinFlag(cfg, klass, f));
      var i := IndexOf(added, f);
      var sub := Insert(cfg, added[i].related, Step(cfg, klass, f), frags[1..]);
      var d := added[i].(related := sub);
      assert Insert(cfg, rel, klass, frags) == added[i := d];
      NodeAtUpdate(added, i, d, addr);
      NodeAtFindOrAdd(rel, f, JoinFlag(cfg, klass, f), addr);
      if addr[0] != f {
        assert !(addr <= frags);
      } else if |addr| == 1 {
        assert addr <= frags;
      } else {
        InsertNodes(cfg, added[i].related, Step(cfg, klass, f), frags[1..], addr[1..]);
        if 0 <= IndexOf(rel, f) {
          assert NodeAt(rel, addr) == NodeAt(added[i].related, addr[1..]);
        }
        InsertEffectCons(cfg, klass, frags, addr, NodeAt(rel, addr), NodeAt(sub, addr[1..]));
      }
    }
  }

  /** Merging a path whose entries all exist already changes nothing. */
  lemma {:induction false} MergeIdempotent(cfg: Settings, rel: seq<Directive>, klass: Option<Resource>, frags: seq<string>)
    requires Merged(cfg, rel, klass)
    requires frags == [] || NodeAt(rel, frags).Some?
    ensures Merge(cfg, rel, klass, frags) == rel
    decreases |frags|
  {
    if frags != [] {
      var f := frags[0];
      var i := IndexOf(rel, f);
      MergeIdempotent(cfg, rel[i].related, Step(cfg, klass, f), frags[1..]);
      assert rel[i].(included := true, related := rel[i].related) == rel[i];
    }
  }

  // ---------------------------------------------------------------------------
  // The tree built from a whole includes array (`initialize`, lines 35-38)

  /** `includes_array.each { |include| parse_include(include) }` from an empty root hash. */
  function BuildTree(cfg: Settings, root: Resource, includes: seq<string>): seq<Directive>
    decreases |includes|
  {
    if includes == [] then []
    else Merge(cfg, BuildTree(cfg, root, includes[..|includes| - 1]), Some(root), Split(includes[|includes| - 1]))
  }

  /** `addr` is a prefix of the segments of some include string. */
  predicate Covered(includes: seq<string>, addr: seq<string>) {
    exists i :: 0 <= i < |includes| && addr <= Split(includes[i])
  }

  /** Every prefix of a covered address is covered. */
  lemma CoveredPrefix(includes: seq<string>, addr: seq<string>, k: nat)
    requires Covered(includes, addr) && k <= |addr|
    ensures Covered(includes, addr[..k])
  {
    var i :| 0 <= i < |includes| && addr <= Split(includes[i]);
    assert addr[..k] <= Split(includes[i]);
  }

  lemma {:induction false} BuildMerged(cfg: Settings, root: Resource, includes: seq<string>)
    ensures Merged(cfg, BuildTree(cfg, root, includes), Some(root))
    decreases |includes|
  {
    if includes != [] {
      var n := |includes|;
      BuildMerged(cfg, root, includes[..n - 1]);
      MergePreservesMerged(cfg, BuildTree(cfg, root, includes[..n - 1]), Some(root), Split(includes[n - 1]));
    }
  }

  lemma CoveredSnoc(includes: seq<string>, addr: seq<string>)
    requires includes != []
    ensures Covered(includes, addr) <==>
              Covered(includes[..|includes| - 1], addr) || addr <= Split(includes[|includes| - 1])
  {
    var n := |includes|;
    var prev := includes[..n - 1];
    if Covered(includes, addr) {
      var i :| 0 <= i < n && addr <= Split(includes[i]);
      if i < n - 1 {
        assert prev[i] == includes[i];
      }
    }
    if Covered(prev, addr) {
      var i :| 0 <= i < n - 1 && addr <= Split(prev[i]);
      assert prev[i] == includes[i];
    }
  }

  lemma {:induction false} BuildCovers(cfg: Settings, root: Resource, includes: seq<string>, addr: seq<string>)
    requires addr != []
    ensures NodeAt(BuildTree(cfg, root, includes), addr).Some? <==> Covered(includes, addr)
    decreases |includes|
  {
    if includes != [] {
      var n := |includes|;
      var prev := includes[..n - 1];
      BuildCovers(cfg, root, prev, addr);
      MergeNodes(cfg, BuildTree(cfg, root, prev), Some(root), Split(includes[n - 1]), addr);
      CoveredSnoc(includes, addr);
    }
  }

  /** The built tree holds exactly one entry per prefix of an include path,
      intermediate prefixes included, and each is marked included, not
      volatile, and joinable as its context decides. */
  lemma BuildNodes(cfg: Settings, root: Resource, includes: seq<string>, addr: seq<string>)
    requires addr != []
    ensures NodeAt(BuildTree(cfg, root, includes), addr).Some? <==> Covered(includes, addr)
    ensures Covered(includes, addr) ==>
              var n := NodeAt(BuildTree(cfg, root, includes), addr).value;
              n.included && !n.volatile && n.inJoin == JoinAt(cfg, root, addr)
  {
    BuildCovers(cfg, root, includes, addr);
    if Covered(includes, addr) {
      BuildMerged(cfg, root, includes);
      MergedNode(cfg, BuildTree(cfg, root, includes), Some(root), addr);
    }
  }

  /** Adding an include string whose path is already covered (a duplicate, or
      a prefix such as 'posts' beside 'posts.comments') leaves the tree unchanged. */
  lemma BuildIdempotent(cfg: Settings, root: Resource, includes: seq<string>, extra: string)
    requires Covered(includes, Split(extra))
    ensures BuildTree(cfg, root, includes + [extra]) == BuildTree(cfg, root, includes)
  {
    var all := includes + [extra];
    assert all[..|all| - 1] == includes;
    BuildMerged(cfg, root, includes);
    if Split(extra) != [] {
      BuildNodes(cfg, root, includes, Split(extra));
    }
    MergeIdempotent(cfg, BuildTree(cfg, root, includes), Some(root), Split(extra));
  }

  /** Apart from the order of siblings, the tree does not depend on the order
      (or repetition) of the include strings. */
  lemma BuildOrderInsensitive(cfg: Settings, root: Resource, includes: seq<string>, others: seq<string>, addr: seq<string>)
    requires addr != []
    requires forall s :: s in includes <==> s in others
    ensures NodeAt(BuildTree(cfg, root, includes), addr).Some? <==> NodeAt(BuildTree(cfg, root, others), addr).Some?
    ensures NodeAt(BuildTree(cfg, root, includes), addr).Some? ==>
              NodeAt(BuildTree(cfg, root, includes), addr).value.(related := []) ==
              NodeAt(BuildTree(cfg, root, others), addr).value.(related := [])
  {
    BuildNodes(cfg, root, includes, addr);
    BuildNodes(cfg, root, others, addr);
    assert Covered(includes, addr) <==> Covered(others, addr) by {
      if Covered(includes, addr) {
        var i :| 0 <= i < |includes| && addr <= Split(includes[i]);
        assert includes[i] in others;
        var j :| 0 <= j < |others| && others[j] == includes[i];
      }
      if Covered(others, addr) {
        var i :| 0 <= i < |others| && addr <= Split(others[i]);
        assert others[i] in includes;
        var j :| 0 <= j < |includes| && includes[j] == others[i];
      }
    }
  }
}
