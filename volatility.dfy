/** Volatility flags (`count_resources` and `set_volatile`): an entry is
    volatile when its name occurs more than once among the entries of the
    tree and the primary resource's `_type`. */
module Volatility {
  import opened IncludeTree

  /** The number of entries named `name` anywhere in `ir`. */
  function NameCount(ir: seq<Directive>, name: string): nat {
    if ir == [] then 0
    else (if ir[0].name == name then 1 else 0) + NameCount(ir[0].related, name) + NameCount(ir[1..], name)
  }

  /** The names of all entries of `ir`. */
  function Names(ir: seq<Directive>): set<string> {
    if ir == [] then {} else {ir[0].name} + Names(ir[0].related) + Names(ir[1..])
  }

  /** A count read as Ruby's `counts[k] || 0`. */
  function Get0(counts: map<string, nat>, name: string): nat {
    if name in counts then counts[name] else 0
  }

  /** What `count_resources(ir)` does to `@resource_counts`: for every entry,
      depth first, `counts[k] ||= 0` then `counts[k] += 1`. */
  function Tally(counts: map<string, nat>, ir: seq<Directive>): map<string, nat>
    decreases ir
  {
    if ir == [] then counts
    else
      var d := ir[0];
      Tally(Tally(counts[d.name := Get0(counts, d.name) + 1], d.related), ir[1..])
  }

  lemma {:induction false} NamesCount(ir: seq<Directive>, name: string)
    ensures name in Names(ir) <==> NameCount(ir, name) > 0
  {
    if ir != [] {
      NamesCount(ir[0].related, name);
      NamesCount(ir[1..], name);
    }
  }

  /** After counting, every name of the tree has a count, and each count
      grew by exactly the number of entries carrying that name. */
  lemma {:induction false} TallyCounts(counts: map<string, nat>, ir: seq<Directive>)
    ensures Tally(counts, ir).Keys == counts.Keys + Names(ir)
    ensures forall name :: Get0(Tally(counts, ir), name) == Get0(counts, name) + NameCount(ir, name)
    decreases ir
  {
    if ir != [] {
      var d := ir[0];
      var bumped := counts[d.name := Get0(counts, d.name) + 1];
      TallyCounts(bumped, d.related);
      TallyCounts(Tally(bumped, d.related), ir[1..]);
    }
  }

  /** What `set_volatile(ir)` does: `v[:volatile] = true` on every entry whose
      name has a count above 1; other entries keep what they had. */
  function Stamp(counts: map<string, nat>, ir: seq<Directive>): (r: seq<Directive>)
    requires Names(ir) <= counts.Keys
    ensures |r| == |ir|
  {
    if ir == [] then []
    else
      var d := ir[0];
      [d.(volatile := d.volatile || counts[d.name] > 1, related := Stamp(counts, d.related))] + Stamp(counts, ir[1..])
  }

  /** The tree with every volatility flag cleared. */
  function Erase(ir: seq<Directive>): seq<Directive> {
    if ir == [] then []
    else [ir[0].(volatile := false, related := Erase(ir[0].related))] + Erase(ir[1..])
  }

  lemma {:induction false} EraseCalm(ir: seq<Directive>)
    requires Calm(ir)
    ensures Erase(ir) == ir
  {
    if ir != [] {
      EraseCalm(ir[0].related);
      assert Calm(ir[1..]) by {
        assert forall i :: 0 <= i < |ir| - 1 ==> ir[1..][i] == ir[i + 1];
      }
      EraseCalm(ir[1..]);
      assert [ir[0]] + ir[1..] == ir;
    }
  }

  /** Stamping changes nothing but volatility flags. */
  lemma {:induction false} StampOnlyFlags(counts: map<string, nat>, ir: seq<Directive>)
    requires Names(ir) <= counts.Keys
    ensures Erase(Stamp(counts, ir)) == Erase(ir)
  {
    if ir != [] {
      StampOnlyFlags(counts, ir[0].related);
      StampOnlyFlags(counts, ir[1..]);
    }
  }

  /** Stamping keeps every entry where it was, with its name, include and
      join flags, and sets its volatility when its name's count exceeds 1. */
  lemma {:induction false} StampNodes(counts: map<string, nat>, ir: seq<Directive>, addr: seq<string>)
    requires Names(ir) <= counts.Keys
    requires addr != []
    ensures var r := NodeAt(Stamp(counts, ir), addr);
            var n := NodeAt(ir, addr);
            && (r.Some? <==> n.Some?)
            && (n.Some? ==>
                  && n.value.name in counts
                  && r.value.included == n.value.included && r.value.inJoin == n.value.inJoin
                  && r.value.volatile == (n.value.volatile || counts[n.value.name] > 1))
  {
    if ir != [] {
      var d := ir[0];
      var d' := d.(volatile := d.volatile || counts[d.name] > 1, related := Stamp(counts, d.related));
      NodeAtCons(d, ir[1..], addr);
      NodeAtCons(d', Stamp(counts, ir[1..]), addr);
      assert [d] + ir[1..] == ir;
      if addr[0] != d.name {
        StampNodes(counts, ir[1..], addr);
      } else if |addr| > 1 {
        StampNodes(counts, d.related, addr[1..]);
      }
    }
  }

  /** Stamping a non-empty level: its first entry on its own, then the rest. */
  lemma {:induction false} StampCons(counts: map<string, nat>, s: seq<Directive>)
    requires s != [] && Names(s) <= counts.Keys
    ensures Names(s[0].related) <= counts.Keys && Names(s[1..]) <= counts.Keys
    ensures s[0].name in counts
    ensures Stamp(counts, s)
            == [s[0].(volatile := s[0].volatile || counts[s[0].name] > 1, related := Stamp(counts, s[0].related))]
               + Stamp(counts, s[1..])
  {
  }

  /** One entry of `set_volatile`'s loop: when `done` holds the stamped
      entries before `i`, appending the stamped entry at `i` keeps it so. */
  lemma {:induction false} StampAt(counts: map<string, nat>, ir: seq<Directive>, i: nat, done: seq<Directive>)
    requires i < |ir| && Names(ir) <= counts.Keys && Names(ir[i..]) <= counts.Keys
    requires done + Stamp(counts, ir[i..]) == Stamp(counts, ir)
    ensures Names(ir[i].related) <= counts.Keys && Names(ir[i + 1..]) <= counts.Keys
    ensures ir[i].name in counts
    ensures var d := ir[i].(volatile := ir[i].volatile || counts[ir[i].name] > 1, related := Stamp(counts, ir[i].related));
            (done + [d]) + Stamp(counts, ir[i + 1..]) == Stamp(counts, ir)
  {
    var s := ir[i..];
    assert s[0] == ir[i] && s[1..] == ir[i + 1..];
    StampCons(counts, s);
    var d := ir[i].(volatile := ir[i].volatile || counts[ir[i].name] > 1, related := Stamp(counts, ir[i].related));
    var rest := Stamp(counts, ir[i + 1..]);
    assert (done + [d]) + rest == done + ([d] + rest);
  }

  /** Stamping keeps the names of a level, position by position. */
  lemma {:induction false} StampNames(counts: map<string, nat>, ir: seq<Directive>)
    requires Names(ir) <= counts.Keys
    ensures forall i :: 0 <= i < |ir| ==> Stamp(counts, ir)[i].name == ir[i].name
  {
    if ir != [] {
      StampNames(counts, ir[1..]);
    }
  }

  /** Stamping keeps sibling names distinct. */
  lemma {:induction false} StampDistinct(counts: map<string, nat>, ir: seq<Directive>)
    requires Names(ir) <= counts.Keys && Distinct(ir)
    ensures Distinct(Stamp(counts, ir))
  {
    if ir != [] {
      var r := Stamp(counts, ir);
      StampDistinct(counts, ir[0].related);
      StampDistinct(counts, ir[1..]);
      StampNames(counts, ir[1..]);
      IndexOfSameNames(ir[1..], Stamp(counts, ir[1..]), ir[0].name);
      assert r[1..] == Stamp(counts, ir[1..]);
    }
  }

  /** No entry of `ir` is volatile. */
  predicate Calm(ir: seq<Directive>) {
    forall i :: 0 <= i < |ir| ==> !ir[i].volatile && Calm(ir[i].related)
  }

  /** Stamping a tree without flags flags exactly the entries whose name
      count exceeds 1, so entries sharing a name share their volatility. */
  lemma StampedVolatility(counts: map<string, nat>, ir: seq<Directive>, a: seq<string>, b: seq<string>)
    requires Names(ir) <= counts.Keys && Calm(ir)
    requires NodeAt(Stamp(counts, ir), a).Some? && NodeAt(Stamp(counts, ir), b).Some?
    ensures a[|a| - 1] in counts
    ensures NodeAt(Stamp(counts, ir), a).value.volatile <==> counts[a[|a| - 1]] > 1
    ensures a[|a| - 1] == b[|b| - 1] ==>
              NodeAt(Stamp(counts, ir), a).value.volatile == NodeAt(Stamp(counts, ir), b).value.volatile
  {
    StampNodes(counts, ir, a);
    StampNodes(counts, ir, b);
    CalmNode(ir, a);
    CalmNode(ir, b);
  }

  lemma {:induction false} CalmNode(ir: seq<Directive>, addr: seq<string>)
    requires Calm(ir) && NodeAt(ir, addr).Some?
    ensures !NodeAt(ir, addr).value.volatile
    decreases |addr|
  {
    var i := IndexOf(ir, addr[0]);
    if |addr| > 1 {
      CalmNode(ir[i].related, addr[1..]);
    }
  }
}
