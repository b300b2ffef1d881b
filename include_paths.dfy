/** Include paths as strings: Ruby's `String#split('.')` and the dotted
    `local_path` that `parse_include` accumulates one segment at a time. */
module IncludePaths {

  /** A relationship name as it appears between two dots. */
  predicate Segment(f: string) {
    f != [] && '.' !in f
  }

  /** The fields of `s` cut at every '.', empty fields kept. */
  function SplitFields(s: string): (r: seq<string>)
    ensures |r| > 0
    decreases |s|
  {
    if |s| == 0 then [""]
    else if s[0] == '.' then [""] + SplitFields(s[1..])
    else
      var rest := SplitFields(s[1..]);
      [[s[0]] + rest[0]] + rest[1..]
  }

  /** Ruby's split drops the empty fields at the end of the result. */
  function DropTrailingEmpty(fs: seq<string>): (r: seq<string>)
    ensures r <= fs
    ensures r == [] || r[|r| - 1] != []
    ensures forall i :: |r| <= i < |fs| ==> fs[i] == []
  {
    if |fs| == 0 then []
    else if fs[|fs| - 1] == [] then DropTrailingEmpty(fs[..|fs| - 1])
    else fs
  }

  /** A string made of dots only. */
  predicate Dots(s: string) {
    forall i :: 0 <= i < |s| ==> s[i] == '.'
  }

  /** `s.split('.')` */
  function Split(s: string): seq<string> {
    DropTrailingEmpty(SplitFields(s))
  }

  /** The include strings the model accepts: no empty segment once split
      (no leading dot, no two dots in a row). */
  predicate NoEmptySegment(s: string) {
    forall i :: 0 <= i < |Split(s)| ==> Split(s)[i] != []
  }

  /** The dotted path of `segs`, built as `parse_include` builds `local_path`. */
  function Join(segs: seq<string>): string {
    if |segs| == 0 then ""
    else if |segs| == 1 then segs[0]
    else Join(segs[..|segs| - 1]) + "." + segs[|segs| - 1]
  }

  lemma {:induction false} JoinEmpty(segs: seq<string>)
    requires forall i :: 0 <= i < |segs| ==> Segment(segs[i])
    ensures |Join(segs)| == 0 <==> segs == []
  {
    if |segs| > 1 {
      JoinEmpty(segs[..|segs| - 1]);
    }
  }

  /** One step of the `local_path += …` accumulation extends the joined path by one segment. */
  lemma {:induction false} JoinSnoc(segs: seq<string>, name: string)
    requires forall i :: 0 <= i < |segs| ==> Segment(segs[i])
    ensures Join(segs + [name]) == Join(segs) + (if |Join(segs)| > 0 then "." + name else name)
  {
    JoinEmpty(segs);
    var t := segs + [name];
    assert t[..|t| - 1] == segs;
    if segs == [] {
      assert t == [name];
    }
  }

  /** Joining from the front: the first segment, a dot, then the rest. */
  lemma {:induction false} JoinCons(a: string, rest: seq<string>)
    requires |rest| > 0
    ensures Join([a] + rest) == a + "." + Join(rest)
    decreases |rest|
  {
    var t := [a] + rest;
    var n := |rest|;
    if n == 1 {
      assert t[..1] == [a];
    } else {
      assert t[..|t| - 1] == [a] + rest[..n - 1];
      JoinCons(a, rest[..n - 1]);
    }
  }

  /** A character in front of the first segment is a character in front of the joined path. */
  lemma JoinHead(c: char, x: string, tail: seq<string>)
    ensures Join([[c] + x] + tail) == [c] + Join([x] + tail)
  {
    if tail != [] {
      JoinCons([c] + x, tail);
      JoinCons(x, tail);
    }
  }

  /** Dropping the trailing empty fields leaves a prefix of the joined path
      followed only by dots. */
  lemma {:induction false} DropRejoin(fs: seq<string>)
    requires |fs| > 0
    ensures DropTrailingEmpty(fs) == [] ==> Dots(Join(fs))
    ensures DropTrailingEmpty(fs) != [] ==>
              Join(DropTrailingEmpty(fs)) <= Join(fs) && Dots(Join(fs)[|Join(DropTrailingEmpty(fs))|..])
    decreases |fs|
  {
    var n := |fs|;
    if fs[n - 1] == [] && n > 1 {
      var init := fs[..n - 1];
      DropRejoin(init);
      assert Join(fs) == Join(init) + ".";
    }
  }

  /** Cutting at every dot: no field holds a dot, and joining the fields with
      dots gives back the string. */
  lemma {:induction false} SplitFieldsRejoin(s: string)
    ensures forall i :: 0 <= i < |SplitFields(s)| ==> '.' !in SplitFields(s)[i]
    ensures Join(SplitFields(s)) == s
    decreases |s|
  {
    if |s| > 0 {
      var rest := SplitFields(s[1..]);
      SplitFieldsRejoin(s[1..]);
      if s[0] == '.' {
        JoinCons("", rest);
      } else {
        JoinHead(s[0], rest[0], rest[1..]);
        assert [rest[0]] + rest[1..] == rest;
      }
    }
  }

  /** What `s.split('.')` gives: dot-free fields whose last one is non-empty;
      joined with dots they give `s` up to a run of trailing dots, and when
      there are no fields `s` is dots only. */
  lemma SplitSpec(s: string)
    ensures forall i :: 0 <= i < |Split(s)| ==> '.' !in Split(s)[i]
    ensures Split(s) == [] || Split(s)[|Split(s)| - 1] != []
    ensures Split(s) == [] ==> Dots(s)
    ensures Split(s) != [] ==> Join(Split(s)) <= s && Dots(s[|Join(Split(s))|..])
  {
    SplitFieldsRejoin(s);
    DropRejoin(SplitFields(s));
    var fs := SplitFields(s);
    assert forall i :: 0 <= i < |Split(s)| ==> Split(s)[i] == fs[i];
  }

  lemma {:induction false} SplitFieldsAppend(a: string, b: string)
    ensures SplitFields(a + "." + b) == SplitFields(a) + SplitFields(b)
    decreases |a|
  {
    var s := a + "." + b;
    if |a| == 0 {
      assert s[1..] == b;
    } else {
      assert s[1..] == a[1..] + "." + b;
      SplitFieldsAppend(a[1..], b);
    }
  }

  lemma {:induction false} SplitFieldsSegment(f: string)
    requires '.' !in f
    ensures SplitFields(f) == [f]
    decreases |f|
  {
    if |f| > 0 {
      SplitFieldsSegment(f[1..]);
      assert [f[0]] + f[1..] == f;
    }
  }

  lemma {:induction false} SplitFieldsJoin(segs: seq<string>)
    requires |segs| > 0
    requires forall i :: 0 <= i < |segs| ==> '.' !in segs[i]
    ensures SplitFields(Join(segs)) == segs
  {
    var n := |segs|;
    if n == 1 {
      SplitFieldsSegment(segs[0]);
    } else {
      SplitFieldsJoin(segs[..n - 1]);
      SplitFieldsAppend(Join(segs[..n - 1]), segs[n - 1]);
      SplitFieldsSegment(segs[n - 1]);
      assert segs == segs[..n - 1] + [segs[n - 1]];
    }
  }

  /** Round trip: re-splitting the accumulated `local_path` gives back the
      segments it was built from. */
  lemma SplitJoin(segs: seq<string>)
    requires forall i :: 0 <= i < |segs| ==> Segment(segs[i])
    ensures Split(Join(segs)) == segs
  {
    if segs != [] {
      SplitFieldsJoin(segs);
    }
  }

  /** Every segment of an accepted include string is a relationship name. */
  lemma SplitSegments(s: string)
    requires NoEmptySegment(s)
    ensures forall i :: 0 <= i < |Split(s)| ==> Segment(Split(s)[i])
  {
    SplitSpec(s);
    forall i | 0 <= i < |Split(s)|
      ensures Segment(Split(s)[i])
    {
      assert Split(s)[i] == SplitFields(s)[i];
    }
  }
}
