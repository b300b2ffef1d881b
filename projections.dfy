/** The two read-only views of the tree: `model_includes` (joinable entries
    only, as nested names) and `paths` (every entry, as root-to-entry name
    sequences). */
module Projections {
  import opened IncludeTree

  /** An element of the result of `get_includes`: a bare name, or the
      one-entry hash `{ name => [...] }`. */
  datatype Include = Name(name: string) | Nested(name: string, sub: seq<Include>)

  /** `get_includes(directive, only_joined_includes)`: keep the entries with
      `include_in_join` when asked to, and reduce each kept entry to its name
      when nothing survives below it. */
  function GetIncludes(ir: seq<Directive>, onlyJoined: bool): (r: seq<Include>)
    ensures |r| <= |ir|
    ensures !onlyJoined ==> |r| == |ir|
  {
    if ir == [] then []
    else
      var d := ir[0];
      var rest := GetIncludes(ir[1..], onlyJoined);
      if onlyJoined && !d.inJoin then rest
      else
        var sub := GetIncludes(d.related, onlyJoined);
        [if |sub| > 0 then Nested(d.name, sub) else Name(d.name)] + rest
  }

  /** Every path prefixed with the key `k`. */
  function Prefixed(k: string, paths: seq<seq<string>>): (r: seq<seq<string>>)
    ensures |r| == |paths|
    ensures forall i :: 0 <= i < |r| ==> r[i] == [k] + paths[i]
  {
    seq(|paths|, i requires 0 <= i < |paths| => [k] + paths[i])
  }

  /** `delve_paths`: one name sequence per element and per nested element. */
  function DelvePaths(xs: seq<Include>): seq<seq<string>> {
    if xs == [] then []
    else
      (match xs[0]
         case Name(k) => [[k]]
         case Nested(k, v) => [[k]] + Prefixed(k, DelvePaths(v)))
      + DelvePaths(xs[1..])
  }

  /** The paths of a list: at least one per element, none empty, and the
      first one is the first element's key on its own. */
  lemma {:induction false} DelvePathsShape(xs: seq<Include>)
    ensures |DelvePaths(xs)| >= |xs|
    ensures forall i :: 0 <= i < |DelvePaths(xs)| ==> DelvePaths(xs)[i] != []
    ensures xs != [] ==> DelvePaths(xs)[0] == [xs[0].name]
  {
    if xs != [] {
      DelvePathsShape(xs[1..]);
      if xs[0].Nested? {
        DelvePathsShape(xs[0].sub);
      }
    }
  }

  /** The shape `get_includes` produces: a hash element always has a
      non-empty list below it, itself of that shape. */
  predicate Compact(xs: seq<Include>) {
    forall i :: 0 <= i < |xs| ==> xs[i].Nested? ==> xs[i].sub != [] && Compact(xs[i].sub)
  }

  /** An entry becomes a one-key hash only when something survives below it. */
  lemma {:induction false} GetIncludesCompact(ir: seq<Directive>, onlyJoined: bool)
    ensures Compact(GetIncludes(ir, onlyJoined))
  {
    if ir != [] {
      GetIncludesCompact(ir[0].related, onlyJoined);
      GetIncludesCompact(ir[1..], onlyJoined);
    }
  }

  lemma CompactParts(xs: seq<Include>)
    requires xs != [] && Compact(xs)
    ensures Compact(xs[1..])
    ensures xs[0].Nested? ==> xs[0].sub != [] && Compact(xs[0].sub)
  {
    assert forall i :: 0 <= i < |xs| - 1 ==> xs[1..][i] == xs[i + 1];
  }

  /** The paths of one element: its key alone, then (for a hash) its nested
      paths, each of them at least two names long. */
  lemma ElementPaths(x: Include)
    ensures var h := DelvePaths([x]);
            && h[0] == [x.name]
            && (x.Name? ==> |h| == 1)
            && (x.Nested? ==> h[1..] == Prefixed(x.name, DelvePaths(x.sub)))
            && (forall j :: 1 <= j < |h| ==> |h[j]| >= 2)
  {
    assert [x][0] == x && [x][1..] == [];
    if x.Nested? {
      DelvePathsShape(x.sub);
    }
  }

  lemma DelvePathsCons(xs: seq<Include>)
    requires xs != []
    ensures DelvePaths(xs) == DelvePaths([xs[0]]) + DelvePaths(xs[1..])
  {
    assert [xs[0]][0] == xs[0] && [xs[0]][1..] == [];
  }

  lemma PrefixedInjective(k: string, p: seq<seq<string>>, q: seq<seq<string>>)
    requires Prefixed(k, p) == Prefixed(k, q)
    ensures p == q
  {
    forall i | 0 <= i < |p|
      ensures p[i] == q[i]
    {
      assert ([k] + p[i])[1..] == p[i] && ([k] + q[i])[1..] == q[i];
    }
  }

  /** `delve_paths` loses nothing on lists of the shape `get_includes`
      produces: two such lists with the same paths are the same list. */
  lemma {:induction false} DelvePathsInjective(a: seq<Include>, b: seq<Include>)
    requires Compact(a) && Compact(b) && DelvePaths(a) == DelvePaths(b)
    ensures a == b
    decreases a
  {
    if a != [] {
      var p := DelvePaths(a);
      DelvePathsShape(a);
      DelvePathsShape(b);
      DelvePathsShape(a[1..]);
      DelvePathsShape(b[1..]);
      DelvePathsCons(a);
      DelvePathsCons(b);
      CompactParts(a);
      CompactParts(b);
      var ha, hb := DelvePaths([a[0]]), DelvePaths([b[0]]);
      ElementPaths(a[0]);
      ElementPaths(b[0]);
      HeadLength(ha, hb, DelvePaths(a[1..]), DelvePaths(b[1..]));
      assert ha == p[..|ha|] == hb;
      assert DelvePaths(a[1..]) == p[|ha|..] == DelvePaths(b[1..]);
      if a[0].Nested? {
        DelvePathsShape(a[0].sub);
      }
      if b[0].Nested? {
        DelvePathsShape(b[0].sub);
      }
      if a[0].Nested? {
        PrefixedInjective(a[0].name, DelvePaths(a[0].sub), DelvePaths(b[0].sub));
        DelvePathsInjective(a[0].sub, b[0].sub);
      }
      DelvePathsInjective(a[1..], b[1..]);
      assert a == [a[0]] + a[1..] && b == [b[0]] + b[1..];
    }
  }

  /** Splitting a list of paths after one element: the next element starts
      with a one-name path, which no nested path is. */
  lemma HeadLength(ha: seq<seq<string>>, hb: seq<seq<string>>, ta: seq<seq<string>>, tb: seq<seq<string>>)
    requires |ha| >= 1 && |hb| >= 1
    requires forall j :: 1 <= j < |ha| ==> |ha[j]| >= 2
    requires forall j :: 1 <= j < |hb| ==> |hb[j]| >= 2
    requires ta != [] ==> |ta[0]| == 1
    requires tb != [] ==> |tb[0]| == 1
    requires ha + ta == hb + tb
    ensures |ha| == |hb|
  {
    var s := ha + ta;
    assert ta != [] ==> s[|ha|] == ta[0];
    assert tb != [] ==> s[|hb|] == tb[0];
    if |ha| < |hb| {
      assert false;
    } else if |hb| < |ha| {
      assert false;
    }
  }

  /** The number of entries of the tree. */
  function Size(ir: seq<Directive>): nat {
    if ir == [] then 0 else 1 + Size(ir[0].related) + Size(ir[1..])
  }

  /** The address of every entry, in pre-order: each entry, then its subtree,
      then its later siblings. */
  function Addrs(ir: seq<Directive>): (r: seq<seq<string>>)
    ensures |r| == Size(ir)
    ensures forall i :: 0 <= i < |r| ==> r[i] != []
  {
    if ir == [] then []
    else [[ir[0].name]] + Prefixed(ir[0].name, Addrs(ir[0].related)) + Addrs(ir[1..])
  }

  /** `paths` without the join filter lists exactly the addresses of all
      entries, one per entry, in pre-order. */
  lemma {:induction false} PathsAreAddrs(ir: seq<Directive>)
    ensures DelvePaths(GetIncludes(ir, false)) == Addrs(ir)
  {
    if ir != [] {
      var d := ir[0];
      var sub := GetIncludes(d.related, false);
      var x := if |sub| > 0 then Nested(d.name, sub) else Name(d.name);
      var xs := [x] + GetIncludes(ir[1..], false);
      assert xs[0] == x && xs[1..] == GetIncludes(ir[1..], false);
      PathsAreAddrs(d.related);
      PathsAreAddrs(ir[1..]);
      if |sub| == 0 {
        assert Addrs(d.related) == [];
      }
    }
  }

  /** Every entry's address is listed. */
  lemma {:induction false} AddrsComplete(ir: seq<Directive>, addr: seq<string>)
    requires NodeAt(ir, addr).Some?
    ensures addr in Addrs(ir)
    decreases ir
  {
    var d := ir[0];
    NodeAtCons(d, ir[1..], addr);
    assert [d] + ir[1..] == ir;
    if addr[0] != d.name {
      AddrsComplete(ir[1..], addr);
    } else if |addr| > 1 {
      AddrsComplete(d.related, addr[1..]);
      assert [d.name] + addr[1..] == addr;
      var k :| 0 <= k < |Addrs(d.related)| && Addrs(d.related)[k] == addr[1..];
      assert Prefixed(d.name, Addrs(d.related))[k] == addr;
    } else {
      assert addr == [d.name] == Addrs(ir)[0];
    }
  }

  /** In a tree without duplicate siblings every listed address leads to an entry. */
  lemma {:induction false} AddrsSound(ir: seq<Directive>, addr: seq<string>)
    requires Distinct(ir)
    requires addr in Addrs(ir)
    ensures NodeAt(ir, addr).Some?
    decreases ir
  {
    var d := ir[0];
    NodeAtCons(d, ir[1..], addr);
    assert [d] + ir[1..] == ir;
    var pre := Prefixed(d.name, Addrs(d.related));
    if addr in pre {
      var k :| 0 <= k < |pre| && pre[k] == addr;
      var y := Addrs(d.related)[k];
      assert addr == [d.name] + y && addr[1..] == y;
      AddrsSound(d.related, y);
    } else if addr != [d.name] {
      assert addr in Addrs(ir[1..]);
      AddrsSound(ir[1..], addr);
      assert 0 <= IndexOf(ir[1..], addr[0]);
    }
  }

  /** The entries of `paths`, one per entry of the tree. */
  lemma PathsExactly(ir: seq<Directive>, addr: seq<string>)
    requires Distinct(ir)
    ensures addr in DelvePaths(GetIncludes(ir, false)) <==> NodeAt(ir, addr).Some?
    ensures |DelvePaths(GetIncludes(ir, false))| == Size(ir)
  {
    PathsAreAddrs(ir);
    if addr in Addrs(ir) {
      AddrsSound(ir, addr);
    }
    if NodeAt(ir, addr).Some? {
      AddrsComplete(ir, addr);
    }
  }

  // ---------------------------------------------------------------------------
  // The join filter

  /** The tree without the entries whose `include_in_join` is false (and
      without everything below them). */
  function Prune(ir: seq<Directive>): seq<Directive> {
    if ir == [] then []
    else (if ir[0].inJoin then [ir[0].(related := Prune(ir[0].related))] else []) + Prune(ir[1..])
  }

  /** Every entry along `addr` exists and has `include_in_join`. */
  predicate JoinedPath(ir: seq<Directive>, addr: seq<string>)
    decreases |addr|
  {
    addr == [] ||
    (var i := IndexOf(ir, addr[0]);
     0 <= i && ir[i].inJoin && JoinedPath(ir[i].related, addr[1..]))
  }

  /** The filtered projection is the unfiltered projection of the pruned tree. */
  lemma {:induction false} JoinedIsPruned(ir: seq<Directive>)
    ensures GetIncludes(ir, true) == GetIncludes(Prune(ir), false)
  {
    if ir != [] {
      var d := ir[0];
      JoinedIsPruned(ir[1..]);
      if d.inJoin {
        JoinedIsPruned(d.related);
        var d' := d.(related := Prune(d.related));
        var p := [d'] + Prune(ir[1..]);
        assert p[0] == d' && p[1..] == Prune(ir[1..]);
      } else {
        assert Prune(ir) == Prune(ir[1..]);
      }
    }
  }

  lemma {:induction false} PruneAbsent(ir: seq<Directive>, name: string)
    requires IndexOf(ir, name) < 0
    ensures IndexOf(Prune(ir), name) < 0
  {
    if ir != [] {
      PruneAbsent(ir[1..], name);
      if ir[0].inJoin {
        IndexOfCons(ir[0].(related := Prune(ir[0].related)), Prune(ir[1..]), name);
      } else {
        assert Prune(ir) == Prune(ir[1..]);
      }
    }
  }

  lemma {:induction false} PruneDistinct(ir: seq<Directive>)
    requires Distinct(ir)
    ensures Distinct(Prune(ir))
  {
    if ir != [] {
      PruneDistinct(ir[1..]);
      if ir[0].inJoin {
        PruneDistinct(ir[0].related);
        PruneAbsent(ir[1..], ir[0].name);
        var p := [ir[0].(related := Prune(ir[0].related))] + Prune(ir[1..]);
        assert p[1..] == Prune(ir[1..]);
      } else {
        assert Prune(ir) == Prune(ir[1..]);
      }
    }
  }

  /** In a tree without duplicate siblings, the pruned tree holds exactly the
      entries that are joinable and whose ancestors are all joinable. */
  lemma {:induction false} PruneNodes(ir: seq<Directive>, addr: seq<string>)
    requires Distinct(ir) && addr != []
    ensures NodeAt(Prune(ir), addr).Some? <==> JoinedPath(ir, addr)
    decreases ir
  {
    if ir == [] {
      assert Prune(ir) == [];
    } else {
      var d := ir[0];
      IndexOfCons(d, ir[1..], addr[0]);
      assert [d] + ir[1..] == ir;
      if d.inJoin {
        var d' := d.(related := Prune(d.related));
        NodeAtCons(d', Prune(ir[1..]), addr);
        if addr[0] != d.name {
          PruneNodes(ir[1..], addr);
        } else if |addr| > 1 {
          PruneNodes(d.related, addr[1..]);
        }
      } else {
        assert Prune(ir) == Prune(ir[1..]);
        if addr[0] != d.name {
          PruneNodes(ir[1..], addr);
        } else {
          PruneAbsent(ir[1..], d.name);
        }
      }
    }
  }

  /** Every non-empty prefix of `addr` leads to an entry with `include_in_join`. */
  predicate JoinableAlong(ir: seq<Directive>, addr: seq<string>) {
    forall k :: 1 <= k <= |addr| ==> NodeAt(ir, addr[..k]).Some? && NodeAt(ir, addr[..k]).value.inJoin
  }

  /** Looking up a prefix of `addr`, one level down. */
  lemma NodeAtPrefix(ir: seq<Directive>, addr: seq<string>, k: nat)
    requires 1 <= k <= |addr|
    ensures var i := IndexOf(ir, addr[0]);
            NodeAt(ir, addr[..k]) ==
              if i < 0 then None
              else if k == 1 then Some(ir[i])
              else NodeAt(ir[i].related, addr[1..][..k - 1])
  {
    assert addr[..k][0] == addr[0];
    assert addr[..k][1..] == addr[1..][..k - 1];
  }

  /** The recursive filter of `get_includes` keeps an address exactly when
      every entry along it is joinable. */
  lemma {:induction false} JoinedPathAlong(ir: seq<Directive>, addr: seq<string>)
    ensures JoinedPath(ir, addr) <==> JoinableAlong(ir, addr)
    decreases |addr|
  {
    if addr != [] {
      var i := IndexOf(ir, addr[0]);
      NodeAtPrefix(ir, addr, 1);
      if 0 <= i {
        JoinedPathAlong(ir[i].related, addr[1..]);
        forall k | 2 <= k <= |addr|
          ensures NodeAt(ir, addr[..k]) == NodeAt(ir[i].related, addr[1..][..k - 1])
        {
          NodeAtPrefix(ir, addr, k);
        }
        if JoinableAlong(ir[i].related, addr[1..]) && ir[i].inJoin {
          forall k | 1 <= k <= |addr|
            ensures NodeAt(ir, addr[..k]).Some? && NodeAt(ir, addr[..k]).value.inJoin
          {
            if k > 1 {
              assert NodeAt(ir[i].related, addr[1..][..k - 1]).Some?;
            }
          }
        }
        if JoinableAlong(ir, addr) {
          forall k | 1 <= k <= |addr| - 1
            ensures NodeAt(ir[i].related, addr[1..][..k]).Some? && NodeAt(ir[i].related, addr[1..][..k]).value.inJoin
          {
            assert NodeAt(ir, addr[..k + 1]).Some?;
          }
        }
      }
    }
  }

  /** `model_includes` flattened lists exactly the entries that are joinable
      and whose ancestors are all joinable, each once, in pre-order. */
  lemma ModelIncludesExactly(ir: seq<Directive>, addr: seq<string>)
    requires Distinct(ir)
    ensures DelvePaths(GetIncludes(ir, true)) == Addrs(Prune(ir))
    ensures addr in DelvePaths(GetIncludes(ir, true)) <==> addr != [] && JoinedPath(ir, addr)
  {
    JoinedIsPruned(ir);
    PruneDistinct(ir);
    PathsExactly(Prune(ir), addr);
    PathsAreAddrs(Prune(ir));
    if addr != [] {
      PruneNodes(ir, addr);
    } else {
      assert forall i :: 0 <= i < |Addrs(Prune(ir))| ==> Addrs(Prune(ir))[i] != [];
    }
  }
}
