/** `JSONAPI::IncludeDirectives`: turns an array of dot-separated include
    strings into the nested include-directives tree of a request, stamps the
    volatile entries, and offers the `model_includes` and `paths` views. */
module JsonApi {
  import opened IncludePaths
  import opened IncludeTree
  import opened Volatility
  import opened Projections

  /** `@resource_counts` once `count_resources` has run over `tree`. */
  function ResourceCounts(root: Resource, tree: seq<Directive>): map<string, nat> {
    Tally(map[root.typeName := 1], tree)
  }

  /** `@include_directives_hash[:include_related]` at the end of `initialize`. */
  function Directives(cfg: Settings, root: Resource, includes: seq<string>): seq<Directive> {
    var tree := BuildTree(cfg, root, includes);
    TallyCounts(map[root.typeName := 1], tree);
    Stamp(ResourceCounts(root, tree), tree)
  }

  lemma {:induction false} MergedCalm(cfg: Settings, rel: seq<Directive>, klass: Option<Resource>)
    requires Merged(cfg, rel, klass)
    ensures Calm(rel)
    decreases rel
  {
    forall i | 0 <= i < |rel|
      ensures Calm(rel[i].related)
    {
      MergedCalm(cfg, rel[i].related, Step(cfg, klass, rel[i].name));
    }
  }

  /** The final tree has the entries of the merged tree, with the same
      include and join flags; only volatility differs. */
  lemma DirectivesShape(cfg: Settings, root: Resource, includes: seq<string>)
    ensures Erase(Directives(cfg, root, includes)) == BuildTree(cfg, root, includes)
  {
    var tree := BuildTree(cfg, root, includes);
    TallyCounts(map[root.typeName := 1], tree);
    StampOnlyFlags(ResourceCounts(root, tree), tree);
    BuildMerged(cfg, root, includes);
    MergedCalm(cfg, tree, Some(root));
    EraseCalm(tree);
  }

  /** Every prefix of every include path, and nothing else, is an entry of
      the final tree; each is included and carries the join flag computed
      for its own context. */
  lemma DirectivesNodes(cfg: Settings, root: Resource, includes: seq<string>, addr: seq<string>)
    requires addr != []
    ensures NodeAt(Directives(cfg, root, includes), addr).Some? <==> Covered(includes, addr)
    ensures Covered(includes, addr) ==>
              var n := NodeAt(Directives(cfg, root, includes), addr).value;
              n.included && n.inJoin == JoinAt(cfg, root, addr)
  {
    var tree := BuildTree(cfg, root, includes);
    TallyCounts(map[root.typeName := 1], tree);
    StampNodes(ResourceCounts(root, tree), tree, addr);
    BuildNodes(cfg, root, includes, addr);
  }

  /** An entry is volatile exactly when its name occurs more than once among
      the entries of the tree and the primary resource's `_type`. */
  lemma DirectivesVolatility(cfg: Settings, root: Resource, includes: seq<string>, addr: seq<string>)
    requires NodeAt(Directives(cfg, root, includes), addr).Some?
    ensures var n := NodeAt(Directives(cfg, root, includes), addr).value;
            n.volatile <==>
              NameCount(BuildTree(cfg, root, includes), n.name) + (if n.name == root.typeName then 1 else 0) > 1
  {
    var tree := BuildTree(cfg, root, includes);
    var counts := ResourceCounts(root, tree);
    TallyCounts(map[root.typeName := 1], tree);
    BuildMerged(cfg, root, includes);
    MergedCalm(cfg, tree, Some(root));
    StampedVolatility(counts, tree, addr, addr);
  }

  /** Entries that share a name share their volatility. */
  lemma VolatilitySymmetric(cfg: Settings, root: Resource, includes: seq<string>, a: seq<string>, b: seq<string>)
    requires NodeAt(Directives(cfg, root, includes), a).Some?
    requires NodeAt(Directives(cfg, root, includes), b).Some?
    requires a[|a| - 1] == b[|b| - 1]
    ensures NodeAt(Directives(cfg, root, includes), a).value.volatile ==
            NodeAt(Directives(cfg, root, includes), b).value.volatile
  {
    DirectivesVolatility(cfg, root, includes, a);
    DirectivesVolatility(cfg, root, includes, b);
  }

  /** After construction no two siblings share a name, at any depth. */
  lemma DirectivesDistinct(cfg: Settings, root: Resource, includes: seq<string>)
    ensures Distinct(Directives(cfg, root, includes))
  {
    var tree := BuildTree(cfg, root, includes);
    TallyCounts(map[root.typeName := 1], tree);
    BuildMerged(cfg, root, includes);
    MergedDistinct(cfg, tree, Some(root));
    StampDistinct(ResourceCounts(root, tree), tree);
  }

  /** `paths` of a constructed object: exactly the non-empty prefixes of the
      include paths, one entry per entry of the tree. */
  lemma PathsOfDirectives(cfg: Settings, root: Resource, includes: seq<string>, addr: seq<string>)
    ensures addr in DelvePaths(GetIncludes(Directives(cfg, root, includes), false)) <==>
              addr != [] && Covered(includes, addr)
  {
    var d := Directives(cfg, root, includes);
    DirectivesDistinct(cfg, root, includes);
    PathsExactly(d, addr);
    if addr != [] {
      DirectivesNodes(cfg, root, includes, addr);
    }
  }

  /** Every prefix of `addr` is an entry in the join exactly when every
      prefix is covered by an include and joinable from the primary resource. */
  lemma DirectivesJoinable(cfg: Settings, root: Resource, includes: seq<string>, addr: seq<string>)
    ensures JoinableAlong(Directives(cfg, root, includes), addr) <==>
              forall k :: 1 <= k <= |addr| ==> Covered(includes, addr[..k]) && JoinAt(cfg, root, addr[..k])
  {
    forall k | 1 <= k <= |addr|
      ensures NodeAt(Directives(cfg, root, includes), addr[..k]).Some? <==> Covered(includes, addr[..k])
      ensures Covered(includes, addr[..k]) ==>
                NodeAt(Directives(cfg, root, includes), addr[..k]).value.inJoin == JoinAt(cfg, root, addr[..k])
    {
      DirectivesNodes(cfg, root, includes, addr[..k]);
    }
  }

  /** `model_includes` of a constructed object: exactly the non-empty
      prefixes of the include paths all of whose own prefixes were created
      joinable in their context. */
  lemma ModelIncludesOfDirectives(cfg: Settings, root: Resource, includes: seq<string>, addr: seq<string>)
    ensures addr in DelvePaths(GetIncludes(Directives(cfg, root, includes), true)) <==>
              && addr != []
              && Covered(includes, addr)
              && forall k :: 1 <= k <= |addr| ==> JoinAt(cfg, root, addr[..k])
  {
    var d := Directives(cfg, root, includes);
    DirectivesDistinct(cfg, root, includes);
    ModelIncludesExactly(d, addr);
    JoinedPathAlong(d, addr);
    DirectivesJoinable(cfg, root, includes, addr);
    if addr != [] {
      assert addr[..|addr|] == addr;
      if Covered(includes, addr) {
        forall k | 1 <= k <= |addr|
          ensures Covered(includes, addr[..k])
        {
          CoveredPrefix(includes, addr, k);
        }
      }
    }
  }

  /** Slicing facts for the loops that walk a segment sequence front to back. */
  lemma Advance(s: seq<string>, i: nat)
    requires i < |s|
    ensures s[..i + 1] == s[..i] + [s[i]] && s[..i + 1][..i] == s[..i]
    ensures s[i..][0] == s[i] && s[i..][1..] == s[i + 1..]
  {
  }

  /** One iteration of the fragment loop of `get_related`, at index `i`. */
  lemma GetStep(cfg: Settings, rel: seq<Directive>, klass: Option<Resource>, fragments: seq<string>, i: nat)
    requires i < |fragments| && Reaches(rel, fragments[..i])
    ensures fragments[..i] + [fragments[i]] == fragments[..i + 1]
    ensures var next := Touch(rel, fragments[..i], fragments[i], JoinFlag(cfg, klass, fragments[i]));
            && Reaches(next, fragments[..i + 1])
            && Pending(cfg, next, fragments[..i + 1], Step(cfg, klass, fragments[i]), fragments[i + 1..])
               == Pending(cfg, rel, fragments[..i], klass, fragments[i..])
  {
    Advance(fragments, i);
    InsertStep(cfg, rel, fragments[..i], klass, fragments[i..]);
  }

  /** One iteration of the segment loop of `parse_include`: the extended
      `local_path` splits back into the first `i + 1` segments, and getting
      then marking that prefix extends the merge by one segment. */
  lemma ParseStep(cfg: Settings, start: seq<Directive>, root: Option<Resource>, parts: seq<string>, i: nat)
    requires i < |parts|
    requires forall j :: 0 <= j < |parts| ==> Segment(parts[j])
    ensures var p := Join(parts[..i]);
            var q := p + (if |p| > 0 then "." + parts[i] else parts[i]);
            q == Join(parts[..i + 1]) && Split(q) == parts[..i + 1]
    ensures MarkAt(Insert(cfg, Merge(cfg, start, root, parts[..i]), root, parts[..i + 1]), parts[..i + 1])
              == Merge(cfg, start, root, parts[..i + 1])
  {
    Advance(parts, i);
    JoinSnoc(parts[..i], parts[i]);
    SplitJoin(parts[..i + 1]);
    MergeStep(cfg, start, root, parts[..i], parts[i]);
  }

  class IncludeDirectives {
    const resourceKlass: Resource
    const relationships: (Resource, string) -> Option<Relationship>
    const forceEagerLoad: bool
    /** `@include_directives_hash[:include_related]` */
    var includeRelated: seq<Directive>
    /** `@resource_counts` */
    var resourceCounts: map<string, nat>

    function Config(): Settings {
      Settings(relationships, forceEagerLoad)
    }

    constructor (resourceKlass: Resource, relationships: (Resource, string) -> Option<Relationship>,
                 includesArray: seq<string>, forceEagerLoad: bool)
      requires forall i :: 0 <= i < |includesArray| ==> NoEmptySegment(includesArray[i])
      ensures this.resourceKlass == resourceKlass && this.forceEagerLoad == forceEagerLoad
      ensures this.relationships == relationships
      ensures includeRelated == Directives(Config(), resourceKlass, includesArray)
      ensures resourceCounts == ResourceCounts(resourceKlass, BuildTree(Config(), resourceKlass, includesArray))
    {
      this.resourceKlass := resourceKlass;
      this.relationships := relationships;
      this.forceEagerLoad := forceEagerLoad;
      includeRelated := [];
      resourceCounts := map[];
      new;
      for i := 0 to |includesArray|
        invariant includeRelated == BuildTree(Config(), resourceKlass, includesArray[..i])
      {
        ParseInclude(includesArray[i]);
        assert includesArray[..i + 1][..i] == includesArray[..i];
      }
      assert includesArray[..|includesArray|] == includesArray;
      resourceCounts := map[resourceKlass.typeName := 1];
      CountResources(includeRelated);
      TallyCounts(map[resourceKlass.typeName := 1], includeRelated);
      includeRelated := SetVolatile(includeRelated);
    }

    /** `count_resources(ir)` */
    method CountResources(ir: seq<Directive>)
      modifies this
      ensures resourceCounts == Tally(old(resourceCounts), ir)
      ensures includeRelated == old(includeRelated)
      decreases ir
    {
      for i := 0 to |ir|
        invariant Tally(resourceCounts, ir[i..]) == Tally(old(resourceCounts), ir)
        invariant includeRelated == old(includeRelated)
      {
        var k := ir[i].name;
        ghost var before := resourceCounts;
        if k !in resourceCounts {
          resourceCounts := resourceCounts[k := 0];
        }
        resourceCounts := resourceCounts[k := resourceCounts[k] + 1];
        assert resourceCounts == before[k := Get0(before, k) + 1];
        assert ir[i..][0] == ir[i] && ir[i..][1..] == ir[i + 1..];
        CountResources(ir[i].related);
      }
    }

    /** `set_volatile(ir)`, giving back the stamped entries. */
    method SetVolatile(ir: seq<Directive>) returns (r: seq<Directive>)
      requires Names(ir) <= resourceCounts.Keys
      ensures r == Stamp(resourceCounts, ir)
      decreases ir
    {
      r := [];
      for i := 0 to |ir|
        invariant Names(ir[i..]) <= resourceCounts.Keys
        invariant r + Stamp(resourceCounts, ir[i..]) == Stamp(resourceCounts, ir)
      {
        StampAt(resourceCounts, ir, i, r);
        var v := ir[i];
        var volatile := v.volatile;
        if resourceCounts[v.name] > 1 {
          volatile := true;
        }
        var sub := SetVolatile(v.related);
        r := r + [v.(volatile := volatile, related := sub)];
      }
    }

    /** `get_related(current_path)`: walks the fragments of the path from the
        root hash, creating each missing entry with the join flag of its
        context, and answers the address of the last entry. */
    method GetRelated(currentPath: string) returns (current: seq<string>)
      modifies this
      ensures current == Split(currentPath)
      ensures Reaches(includeRelated, current)
      ensures includeRelated == Insert(Config(), old(includeRelated), Some(resourceKlass), Split(currentPath))
      ensures resourceCounts == old(resourceCounts)
    {
      var fragments := Split(currentPath);
      current := [];
      var klass: Option<Resource> := Some(resourceKlass);
      ghost var cfg := Config();
      ghost var target := Insert(cfg, includeRelated, klass, fragments);
      for i := 0 to |fragments|
        invariant current == fragments[..i]
        invariant Reaches(includeRelated, current)
        invariant Pending(cfg, includeRelated, current, klass, fragments[i..]) == target
        invariant resourceCounts == old(resourceCounts)
      {
        var fragment := fragments[i];
        ghost var context := klass;
        var relationship: Option<Relationship> := None;
        if klass.Some? {
          relationship := relationships(klass.value, fragment);
          klass := if relationship.Some? then Some(relationship.value.resource) else None;
        }
        var includeInJoin := forceEagerLoad || relationship.None? || relationship.value.eagerLoadOnInclude;
        assert includeInJoin == JoinFlag(cfg, context, fragment) && klass == Step(cfg, context, fragment);
        GetStep(cfg, includeRelated, context, fragments, i);
        includeRelated := Touch(includeRelated, current, fragment, includeInJoin);
        current := current + [fragment];
      }
      PendingDone(cfg, includeRelated, current, klass);
    }

    /** `parse_include(include)`: for every prefix of the path, get (or
        create) its entry and mark it included. */
    method ParseInclude(includePath: string)
      requires NoEmptySegment(includePath)
      modifies this
      ensures includeRelated == Merge(Config(), old(includeRelated), Some(resourceKlass), Split(includePath))
      ensures resourceCounts == old(resourceCounts)
    {
      var parts := Split(includePath);
      SplitSegments(includePath);
      ghost var cfg, start, root := Config(), includeRelated, Some(resourceKlass);
      var localPath := "";
      for i := 0 to |parts|
        invariant localPath == Join(parts[..i])
        invariant includeRelated == Merge(cfg, start, root, parts[..i])
        invariant resourceCounts == old(resourceCounts)
      {
        var name := parts[i];
        ParseStep(cfg, start, root, parts, i);
        localPath := localPath + (if |localPath| > 0 then "." + name else name);
        var related := GetRelated(localPath);
        includeRelated := MarkAt(includeRelated, related);
      }
      assert parts[..|parts|] == parts;
    }

    /** `model_includes`: the joinable part of the tree as nested names. The
        result has the compact shape (a name with nothing joinable below it
        stays a bare name), and its paths are the pruned tree's addresses;
        by `DelvePathsInjective` no other compact list has those paths. */
    function ModelIncludes(): (r: seq<Include>)
      reads this
      ensures Compact(r)
      ensures DelvePaths(r) == Addrs(Prune(includeRelated))
    {
      GetIncludesCompact(includeRelated, true);
      JoinedIsPruned(includeRelated);
      PathsAreAddrs(Prune(includeRelated));
      GetIncludes(includeRelated, true)
    }

    /** `paths`: one name sequence per entry of the whole tree. */
    function Paths(): (r: seq<seq<string>>)
      reads this
      ensures r == Addrs(includeRelated)
    {
      PathsAreAddrs(includeRelated);
      DelvePaths(GetIncludes(includeRelated, false))
    }
  }
}
