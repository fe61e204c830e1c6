/** `loadAllDocs`: the walk over the documentation tree that flattens every
    Markdown document into one string, with the loader's error handling. */
module LoadDocs {
  import opened Text
  import opened DocsTree

  /** `prefix ? `${prefix}/${entry}` : entry`: the entry's path relative to
      the documentation root. */
  function RelPath(prefix: string, name: string): string
  {
    if prefix != "" then prefix + "/" + name else name
  }

  /** Only names ending in `.mdx` or `.md` (case matters) are documents. */
  predicate IsDocName(name: string)
  {
    EndsWith(name, ".mdx") || EndsWith(name, ".md")
  }

  /** The text one document contributes: a header naming its relative path,
      the content, and a closing newline. */
  function Block(rel: string, content: string): string
  {
    "\n--- FILE: " + rel + " ---\n" + content + "\n"
  }

  /** The directory's entries in the order the loader visits them. */
  function Listing(dir: Node): seq<Entry>
    requires dir.Dir?
  {
    SortByName(dir.entries)
  }

  /** What the loader returns for `n`, walked with relative-path `prefix`.
      A file or a directory that cannot be listed gives the empty string. */
  function AllDocs(n: Node, prefix: string): string
    decreases n, 1
  {
    if n.Dir? && n.listable then DocsFrom(n, prefix, 0) else ""
  }

  /** What the entry at sorted position `i` of `dir` contributes once its
      status has been read: a subdirectory its whole walk, a readable
      document its block, anything else nothing. */
  function EntryDocs(dir: Node, prefix: string, i: nat): string
    requires dir.Dir? && i < |Listing(dir)|
    decreases dir, 0, 0
  {
    var e := Listing(dir)[i];
    var rel := RelPath(prefix, e.name);
    SortedIsEntry(dir.entries, i);
    match e.node
    case Dir(_, _) => AllDocs(e.node, rel)
    case File(content, readable) =>
      if IsDocName(e.name) && readable then Block(rel, content) else ""
  }

  /** What the entries of `dir` from sorted position `i` on contribute. The
      first entry whose status cannot be read ends the directory. */
  function DocsFrom(dir: Node, prefix: string, i: nat): string
    requires dir.Dir? && i <= |Listing(dir)|
    decreases dir, 0, |Listing(dir)| - i + 1
  {
    if i == |Listing(dir)| then ""
    else if Listing(dir)[i].statFails then ""
    else EntryDocs(dir, prefix, i) + DocsFrom(dir, prefix, i + 1)
  }

  lemma DocsFromStep(n: Node, prefix: string, i: nat)
    requires n.Dir? && i < |Listing(n)| && !Listing(n)[i].statFails
    ensures DocsFrom(n, prefix, i) == EntryDocs(n, prefix, i) + DocsFrom(n, prefix, i + 1)
  {
  }

  lemma PushStep(before: seq<string>, parts: seq<string>, part: string, rest: string, total: string)
    requires Concat(before) + (part + rest) == total
    requires parts == before + [part] || (parts == before && part == "")
    ensures Concat(parts) + rest == total
  {
    if parts != before {
      ConcatAppend(before, [part]);
      assert Concat([part]) == part;
    }
  }

  /** The three cases of what one entry contributes. */
  lemma EntryDocsCases(n: Node, prefix: string, i: nat)
    requires n.Dir? && i < |Listing(n)|
    ensures var e := Listing(n)[i];
            var rel := RelPath(prefix, e.name);
            if e.node.Dir? then EntryDocs(n, prefix, i) == AllDocs(e.node, rel)
            else if IsDocName(e.name) && e.node.readable then EntryDocs(n, prefix, i) == Block(rel, e.node.content)
            else EntryDocs(n, prefix, i) == ""
  {
  }

  /** The walk of a directory ends at the end of its listing or at the
      first entry whose status cannot be read. */
  lemma DocsFromStops(n: Node, prefix: string, i: nat)
    requires n.Dir? && i <= |Listing(n)|
    requires i == |Listing(n)| || Listing(n)[i].statFails
    ensures DocsFrom(n, prefix, i) == ""
  {
  }

  /** One turn of the loader's loop keeps its invariant: the entry's part,
      if any, has been pushed. */
  lemma LoopStep(n: Node, prefix: string, i: nat, before: seq<string>, parts: seq<string>)
    requires n.Dir? && i < |Listing(n)| && !Listing(n)[i].statFails
    requires Concat(before) + DocsFrom(n, prefix, i) == DocsFrom(n, prefix, 0)
    requires parts == before + [EntryDocs(n, prefix, i)] || (parts == before && EntryDocs(n, prefix, i) == "")
    ensures Concat(parts) + DocsFrom(n, prefix, i + 1) == DocsFrom(n, prefix, 0)
  {
    DocsFromStep(n, prefix, i);
    PushStep(before, parts, EntryDocs(n, prefix, i), DocsFrom(n, prefix, i + 1), DocsFrom(n, prefix, 0));
  }

  /** The loader itself: one pass over the sorted entries that collects the
      parts, recursing into subdirectories, and joins them at the end. */
  method LoadAllDocs(n: Node, prefix: string) returns (docs: string)
    ensures docs == AllDocs(n, prefix)
    decreases n, 1
  {
    var parts: seq<string> := [];
    if n.Dir? && n.listable {
      var entries := Listing(n);
      var i := 0;
      while i < |entries|
        invariant 0 <= i <= |entries|
        invariant Concat(parts) + DocsFrom(n, prefix, i) == DocsFrom(n, prefix, 0)
      {
        if entries[i].statFails {
          DocsFromStops(n, prefix, i);
          break;
        }
        ghost var before := parts;
        var pushed, part := LoadEntry(n, prefix, i);
        if pushed {
          parts := parts + [part];
        }
        LoopStep(n, prefix, i, before, parts);
        i := i + 1;
      }
      if i == |entries| {
        DocsFromStops(n, prefix, i);
      }
    }
    docs := Concat(parts);
  }

  /** One turn of the loader's loop for an entry whose status was read: a
      subdirectory's walk is always pushed, a readable document's block is
      pushed, and anything else pushes nothing. */
  method LoadEntry(n: Node, prefix: string, i: nat) returns (pushed: bool, part: string)
    requires n.Dir? && i < |Listing(n)|
    ensures part == EntryDocs(n, prefix, i)
    ensures pushed <==> Listing(n)[i].node.Dir? || (IsDocName(Listing(n)[i].name) && Listing(n)[i].node.readable)
    ensures !pushed ==> part == ""
    decreases n, 0
  {
    var entry := Listing(n)[i];
    var rel := RelPath(prefix, entry.name);
    EntryDocsCases(n, prefix, i);
    pushed, part := false, "";
    if entry.node.Dir? {
      SortedIsEntry(n.entries, i);
      part := LoadAllDocs(entry.node, rel);
      pushed := true;
    } else if IsDocName(entry.name) {
      if entry.node.readable {
        part := Block(rel, entry.node.content);
        pushed := true;
      }
    }
  }

  lemma {:induction false} SameListingSameDocs(d1: Node, d2: Node, prefix: string, i: nat)
    requires d1.Dir? && d2.Dir? && Listing(d1) == Listing(d2) && i <= |Listing(d1)|
    ensures DocsFrom(d1, prefix, i) == DocsFrom(d2, prefix, i)
    decreases |Listing(d1)| - i
  {
    if i < |Listing(d1)| && !Listing(d1)[i].statFails {
      SameListingSameDocs(d1, d2, prefix, i + 1);
      assert EntryDocs(d1, prefix, i) == EntryDocs(d2, prefix, i);
    }
  }

  /** Sorting makes the result independent of the order in which the
      filesystem lists a directory. */
  lemma AllDocsIgnoresListingOrder(es1: seq<Entry>, es2: seq<Entry>, listable: bool, prefix: string)
    requires DistinctNames(es1)
    requires multiset(es1) == multiset(es2)
    ensures AllDocs(Dir(es1, listable), prefix) == AllDocs(Dir(es2, listable), prefix)
  {
    ListingOrderIrrelevant(es1, es2);
    SameListingSameDocs(Dir(es1, listable), Dir(es2, listable), prefix, 0);
  }

  /** The sorted position of the first entry whose status read fails, or the
      listing's length when there is none. */
  function FirstStatFailure(L: seq<Entry>): (k: nat)
    ensures k <= |L|
    ensures forall j | 0 <= j < k :: !L[j].statFails
    ensures k < |L| ==> L[k].statFails
  {
    if L == [] then 0
    else if L[0].statFails then 0
    else 1 + FirstStatFailure(L[1..])
  }

  /** What the entries at sorted positions `i` up to `k` contribute, one
      part per entry. */
  function EntryParts(dir: Node, prefix: string, i: nat, k: nat): (parts: seq<string>)
    requires dir.Dir? && i <= k <= |Listing(dir)|
    ensures |parts| == k - i
    decreases k - i
  {
    if i == k then [] else [EntryDocs(dir, prefix, i)] + EntryParts(dir, prefix, i + 1, k)
  }

  /** Part `j` is what the entry at sorted position `i + j` contributes. */
  lemma {:induction false} EntryPartsAt(dir: Node, prefix: string, i: nat, k: nat, j: nat)
    requires dir.Dir? && i <= k <= |Listing(dir)| && j < k - i
    ensures EntryParts(dir, prefix, i, k)[j] == EntryDocs(dir, prefix, i + j)
    decreases k - i
  {
    var rest := EntryParts(dir, prefix, i + 1, k);
    assert EntryParts(dir, prefix, i, k) == [EntryDocs(dir, prefix, i)] + rest;
    if j > 0 {
      EntryPartsAt(dir, prefix, i + 1, k, j - 1);
    }
  }

  lemma {:induction false} DocsFromUpTo(dir: Node, prefix: string, i: nat)
    requires dir.Dir? && i <= FirstStatFailure(Listing(dir))
    ensures DocsFrom(dir, prefix, i) == Concat(EntryParts(dir, prefix, i, FirstStatFailure(Listing(dir))))
    decreases FirstStatFailure(Listing(dir)) - i
  {
    var k := FirstStatFailure(Listing(dir));
    if i < k {
      DocsFromUpTo(dir, prefix, i + 1);
      DocsFromStep(dir, prefix, i);
      ConcatCons(EntryDocs(dir, prefix, i), EntryParts(dir, prefix, i + 1, k));
    } else {
      DocsFromStops(dir, prefix, i);
    }
  }

  /** A listable directory yields, in sorted order, what each entry before
      the first failed status read contributes: the entries already handled
      are kept, and nothing from the failing entry on is looked at. */
  lemma AllDocsUpToStatFailure(dir: Node, prefix: string)
    requires dir.Dir? && dir.listable
    ensures AllDocs(dir, prefix) == Concat(EntryParts(dir, prefix, 0, FirstStatFailure(Listing(dir))))
  {
    DocsFromUpTo(dir, prefix, 0);
  }
}
