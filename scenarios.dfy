/** A worked instance: a person whose `posts` relationship is eager-loaded on
    include and whose posts' `tags` relationship is not. */
module Scenarios {
  import opened IncludePaths
  import opened IncludeTree
  import opened Volatility
  import opened JsonApi

  lemma SplitPostsTags()
    ensures Split("posts.tags") == ["posts", "tags"]
  {
    assert Join(["posts", "tags"]) == "posts.tags";
    SplitJoin(["posts", "tags"]);
  }

  /** Including `posts.tags` creates `posts` in the join and `tags` outside it,
      both marked as included. */
  lemma NoEagerTree(cfg: Settings, person: Resource, post: Resource, tag: Resource)
    requires !cfg.forceEagerLoad
    requires cfg.relationships(person, "posts") == Some(Relationship(post, true))
    requires cfg.relationships(post, "tags") == Some(Relationship(tag, false))
    ensures BuildTree(cfg, person, ["posts.tags"])
            == [Directive("posts", true, true, false, [Directive("tags", true, false, false, [])])]
  {
    SplitPostsTags();
    assert ["posts.tags"][..0] == [];
    assert Merge(cfg, [], Some(post), ["tags"]) == [Directive("tags", true, false, false, [])];
  }

  /** The finished directives of that request: no name repeats, so nothing is
      volatile. */
  lemma NoEagerJoin(cfg: Settings, person: Resource, post: Resource, tag: Resource)
    requires !cfg.forceEagerLoad && person.typeName == "people"
    requires cfg.relationships(person, "posts") == Some(Relationship(post, true))
    requires cfg.relationships(post, "tags") == Some(Relationship(tag, false))
    ensures Directives(cfg, person, ["posts.tags"])
            == [Directive("posts", true, true, false, [Directive("tags", true, false, false, [])])]
  {
    var tags := Directive("tags", true, false, false, []);
    var tree := [Directive("posts", true, true, false, [tags])];
    NoEagerTree(cfg, person, post, tag);
    var counts := ResourceCounts(person, tree);
    TallyCounts(map["people" := 1], tree);
    assert NameCount(tree, "posts") == 1 && NameCount(tree, "tags") == 1;
    assert Stamp(counts, [tags]) == [tags];
  }
}
