/** hack/check-docs-links.py:160-173: the index checker, which looks for orphan pages. */
module DocsIndex {
  import opened Graphs

  /** The pages nobody reaches, or a linked page that is not there to be read. */
  datatype IndexResult = Orphans(pages: set<string>) | Missing(page: string)

  /** `check_index`: links holds, for each file that can be read, the pages it links to. */
  method CheckIndex(links: map<string, seq<string>>, pages: set<string>, index: string) returns (r: IndexResult)
    ensures r.Missing? ==> r.page !in links && Reaches(links, index, r.page)
    ensures r.Orphans? ==> forall p | Reaches(links, index, p) :: p in links
    ensures r.Orphans? ==> forall p :: p in r.pages <==> p in pages && !Reaches(links, index, p)
  {
    var seen, queue := {index}, [index];
    ghost var done: set<string> := {};
    ReachesSelf(links, index);
    while queue != []
      invariant forall p | p in seen :: Reaches(links, index, p)
      invariant seen == done + set p | p in queue
      invariant index in seen && done <= links.Keys && forall p | p in queue :: p !in done
      invariant Simple(queue)
      invariant forall p, q | p in done && q in Succ(links, p) :: q in seen
      decreases links.Keys - done, |queue|
    {
      var page := queue[|queue| - 1];
      queue := queue[..|queue| - 1];
      if page !in links {
        return Missing(page);
      }
      seen, queue := Enqueue(links, index, page, seen, queue);
      done := done + {page};
    }
    ClosedContainsReachable(links, seen, index);
    r := Orphans(pages - seen);
  }

  /** The loop over one page's links. */
  method Enqueue(links: map<string, seq<string>>, index: string, page: string, seen0: set<string>, queue0: seq<string>)
    returns (seen: set<string>, queue: seq<string>)
    requires page in links && Reaches(links, index, page) && page in seen0
    requires (forall p | p in seen0 :: Reaches(links, index, p)) && Simple(queue0)
             && forall p | p in queue0 :: p in seen0
    ensures seen == seen0 + set p | p in links[page]
    ensures forall p | p in seen :: Reaches(links, index, p)
    ensures Simple(queue) && forall p :: p in queue <==> p in queue0 || (p in seen && p !in seen0)
  {
    seen, queue := seen0, queue0;
    for i := 0 to |links[page]|
      invariant seen == seen0 + set p | p in links[page][..i]
      invariant forall p | p in seen :: Reaches(links, index, p)
      invariant Simple(queue) && forall p :: p in queue <==> p in queue0 || (p in seen && p !in seen0)
    {
      var next := links[page][i];
      assert links[page][..i + 1] == links[page][..i] + [next];
      if next !in seen {
        ReachesThenStep(links, index, page, next);
        seen := seen + {next};
        queue := queue + [next];
      }
    }
    assert links[page][..|links[page]|] == links[page];
  }
}
