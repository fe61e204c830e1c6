/** The documents the loader emits, as a sequence of (path, content) pairs:
    which files are emitted, in which order, and how the loader's string is
    made from them. */
module DocsCollect {
  import opened Text
  import opened DocsTree
  import opened LoadDocs

  /** An emitted document: its path below the walked directory, one name per
      level, and its content. */
  datatype Doc = Doc(path: seq<string>, content: string)

  /** The documents of a subdirectory, seen from its parent. */
  function Under(name: string, docs: seq<Doc>): seq<Doc>
  {
    seq(|docs|, k requires 0 <= k < |docs| => Doc([name] + docs[k].path, docs[k].content))
  }

  /** The documents the walk of `n` emits, in emission order. */
  function Collect(n: Node): (r: seq<Doc>)
    ensures forall d | d in r :: d.path != []
    decreases n, 1
  {
    if n.Dir? && n.listable then CollectFrom(n, 0) else []
  }

  /** The documents the entry at sorted position `i` of `dir` yields; their
      paths all start with the entry's name. */
  function EntryCollect(dir: Node, i: nat): (r: seq<Doc>)
    requires dir.Dir? && i < |Listing(dir)|
    ensures forall d | d in r :: d.path != [] && d.path[0] == Listing(dir)[i].name
    decreases dir, 0, 0
  {
    var e := Listing(dir)[i];
    SortedIsEntry(dir.entries, i);
    match e.node
    case Dir(_, _) => Under(e.name, Collect(e.node))
    case File(content, readable) =>
      if IsDocName(e.name) && readable then [Doc([e.name], content)] else []
  }

  function CollectFrom(dir: Node, i: nat): (r: seq<Doc>)
    requires dir.Dir? && i <= |Listing(dir)|
    ensures forall d | d in r :: d.path != []
    decreases dir, 0, |Listing(dir)| - i + 1
  {
    if i == |Listing(dir)| then []
    else if Listing(dir)[i].statFails then []
    else EntryCollect(dir, i) + CollectFrom(dir, i + 1)
  }

  /** The relative path the loader builds for `names` below a directory
      walked with `prefix`: each level applies `RelPath` to the one above. */
  function RelOf(prefix: string, names: seq<string>): string
    decreases names
  {
    if names == [] then prefix else RelOf(RelPath(prefix, names[0]), names[1..])
  }

  /** `"/" + name` for every name, back to back. */
  function Slashed(names: seq<string>): string
  {
    if names == [] then "" else "/" + names[0] + Slashed(names[1..])
  }

  /** The block of one document, under its relative path. */
  function DocBlock(prefix: string, d: Doc): string
  {
    Block(RelOf(prefix, d.path), d.content)
  }

  /** The blocks of the documents, in order, with nothing between them. */
  function Render(docs: seq<Doc>, prefix: string): string
  {
    if docs == [] then "" else DocBlock(prefix, docs[0]) + Render(docs[1..], prefix)
  }

  lemma {:induction false} RenderAppend(a: seq<Doc>, b: seq<Doc>, prefix: string)
    ensures Render(a + b, prefix) == Render(a, prefix) + Render(b, prefix)
  {
    if a == [] {
      assert a + b == b;
    } else {
      assert (a + b)[1..] == a[1..] + b;
      RenderAppend(a[1..], b, prefix);
    }
  }

  lemma {:induction false} RenderUnder(name: string, docs: seq<Doc>, prefix: string)
    ensures Render(Under(name, docs), prefix) == Render(docs, RelPath(prefix, name))
  {
    if docs != [] {
      assert Under(name, docs)[1..] == Under(name, docs[1..]);
      assert ([name] + docs[0].path)[1..] == docs[0].path;
      RenderUnder(name, docs[1..], prefix);
    }
  }

  /** Every path below a named directory is that name followed by a slash
      and the names below it. */
  lemma {:induction false} RelOfNamed(prefix: string, names: seq<string>)
    requires prefix != ""
    ensures RelOf(prefix, names) == prefix + Slashed(names)
    decreases names
  {
    if names != [] {
      RelOfNamed(prefix + "/" + names[0], names[1..]);
      assert prefix + "/" + names[0] + Slashed(names[1..]) == prefix + Slashed(names);
    }
  }

  /** From the documentation root, a path is its names joined by slashes,
      provided the first name is not empty. */
  lemma RelOfRoot(names: seq<string>)
    requires names != [] && names[0] != ""
    ensures RelOf("", names) == names[0] + Slashed(names[1..])
  {
    RelOfNamed(names[0], names[1..]);
  }

  /** The loader's string is the rendering of the emitted documents. */
  lemma {:induction false} AllDocsIsRender(n: Node, prefix: string)
    ensures AllDocs(n, prefix) == Render(Collect(n), prefix)
    decreases n, 1
  {
    if n.Dir? && n.listable {
      DocsFromIsRender(n, prefix, 0);
    }
  }

  lemma {:induction false} DocsFromIsRender(dir: Node, prefix: string, i: nat)
    requires dir.Dir? && i <= |Listing(dir)|
    ensures DocsFrom(dir, prefix, i) == Render(CollectFrom(dir, i), prefix)
    decreases dir, 0, |Listing(dir)| - i + 1
  {
    if i < |Listing(dir)| && !Listing(dir)[i].statFails {
      EntryDocsIsRender(dir, prefix, i);
      DocsFromIsRender(dir, prefix, i + 1);
      RenderAppend(EntryCollect(dir, i), CollectFrom(dir, i + 1), prefix);
    }
  }

  lemma {:induction false} EntryDocsIsRender(dir: Node, prefix: string, i: nat)
    requires dir.Dir? && i < |Listing(dir)|
    ensures EntryDocs(dir, prefix, i) == Render(EntryCollect(dir, i), prefix)
    decreases dir, 0, 0
  {
    var e := Listing(dir)[i];
    SortedIsEntry(dir.entries, i);
    match e.node
    case Dir(_, _) =>
      AllDocsIsRender(e.node, RelPath(prefix, e.name));
      RenderUnder(e.name, Collect(e.node), prefix);
    case File(content, readable) =>
      if IsDocName(e.name) && readable {
        var d := Doc([e.name], content);
        assert [d][1..] == [];
        assert RelOf(prefix, [e.name]) == RelPath(prefix, e.name);
        assert Render([d], prefix) == DocBlock(prefix, d) + "";
      }
  }

  /** The walk reaches a readable document with this content at `path`: each
      directory on the way can be listed, the name at each level is found,
      and neither it nor any entry sorted before it fails its status read. */
  ghost predicate Reached(n: Node, path: seq<string>, content: string)
    decreases n, 1
  {
    n.Dir? && n.listable && ReachedFrom(n, 0, path, content)
  }

  /** Some entry at sorted position `i` or later leads to the document, and
      no entry from `i` up to it fails its status read. */
  ghost predicate ReachedFrom(dir: Node, i: nat, path: seq<string>, content: string)
    requires dir.Dir?
    decreases dir, 0, 1
  {
    exists k | i <= k < |Listing(dir)| ::
      ReachedVia(dir, k, path, content) && forall j | i <= j <= k :: !Listing(dir)[j].statFails
  }

  /** The entry at sorted position `k` of `dir` leads to the document: it is
      the document itself (a readable file with a document name), or a
      directory in which the rest of the path is reached. */
  ghost predicate ReachedVia(dir: Node, k: nat, path: seq<string>, content: string)
    requires dir.Dir? && k < |Listing(dir)|
    decreases dir, 0, 0
  {
    var e := Listing(dir)[k];
    SortedIsEntry(dir.entries, k);
    path != [] && e.name == path[0] &&
    match e.node
    case File(c, readable) => |path| == 1 && readable && c == content && IsDocName(e.name)
    case Dir(_, _) => Reached(e.node, path[1..], content)
  }

  lemma UnderMember(name: string, docs: seq<Doc>, path: seq<string>, content: string)
    ensures Doc(path, content) in Under(name, docs) <==>
            path != [] && path[0] == name && Doc(path[1..], content) in docs
  {
    var u := Under(name, docs);
    if Doc(path, content) in u {
      var k :| 0 <= k < |u| && u[k] == Doc(path, content);
      assert ([name] + docs[k].path)[1..] == docs[k].path;
    }
    if path != [] && path[0] == name && Doc(path[1..], content) in docs {
      var k :| 0 <= k < |docs| && docs[k] == Doc(path[1..], content);
      assert u[k] == Doc(path, content);
    }
  }

  /** A document is emitted exactly when the walk reaches it. */
  lemma {:induction false} CollectIffReached(n: Node, path: seq<string>, content: string)
    ensures Doc(path, content) in Collect(n) <==> Reached(n, path, content)
    decreases n, 1
  {
    if n.Dir? && n.listable {
      CollectFromIffReached(n, 0, path, content);
      assert Collect(n) == CollectFrom(n, 0);
    }
  }

  /** Past an entry whose status read succeeds, the walk reaches what that
      entry leads to and what the later entries reach. */
  lemma ReachedFromStep(dir: Node, i: nat, path: seq<string>, content: string)
    requires dir.Dir? && i < |Listing(dir)| && !Listing(dir)[i].statFails
    ensures ReachedFrom(dir, i, path, content) <==>
            ReachedVia(dir, i, path, content) || ReachedFrom(dir, i + 1, path, content)
  {
  }

  /** From an entry whose status read fails, nothing is reached. */
  lemma ReachedFromStops(dir: Node, i: nat, path: seq<string>, content: string)
    requires dir.Dir? && i <= |Listing(dir)|
    requires i == |Listing(dir)| || Listing(dir)[i].statFails
    ensures !ReachedFrom(dir, i, path, content)
  {
  }

  lemma {:induction false} CollectFromIffReached(dir: Node, i: nat, path: seq<string>, content: string)
    requires dir.Dir? && i <= |Listing(dir)|
    ensures Doc(path, content) in CollectFrom(dir, i) <==> ReachedFrom(dir, i, path, content)
    decreases dir, 0, |Listing(dir)| - i + 1
  {
    if i < |Listing(dir)| && !Listing(dir)[i].statFails {
      EntryCollectIffReached(dir, i, path, content);
      CollectFromIffReached(dir, i + 1, path, content);
      ReachedFromStep(dir, i, path, content);
      assert CollectFrom(dir, i) == EntryCollect(dir, i) + CollectFrom(dir, i + 1);
    } else {
      ReachedFromStops(dir, i, path, content);
    }
  }

  lemma {:induction false} EntryCollectIffReached(dir: Node, i: nat, path: seq<string>, content: string)
    requires dir.Dir? && i < |Listing(dir)|
    ensures Doc(path, content) in EntryCollect(dir, i) <==> ReachedVia(dir, i, path, content)
    decreases dir, 0, 0
  {
    var e := Listing(dir)[i];
    SortedIsEntry(dir.entries, i);
    match e.node
    case Dir(_, _) =>
      UnderMember(e.name, Collect(e.node), path, content);
      if path != [] {
        CollectIffReached(e.node, path[1..], content);
      }
    case File(_, _) =>
      if |path| == 1 {
        assert path == [path[0]];
      }
  }

  /** `a` comes before `b` when their names are compared level by level. */
  predicate PathLt(a: seq<string>, b: seq<string>)
    decreases |a|
  {
    b != [] && (a == [] || Lt(a[0], b[0]) || (a[0] == b[0] && PathLt(a[1..], b[1..])))
  }

  ghost predicate SortedByPath(docs: seq<Doc>)
  {
    forall i, j | 0 <= i < j < |docs| :: PathLt(docs[i].path, docs[j].path)
  }

  lemma UnderSorted(name: string, docs: seq<Doc>)
    requires SortedByPath(docs)
    ensures SortedByPath(Under(name, docs))
  {
  }

  /** In a well-formed tree the walk emits the documents in strictly
      increasing path order: depth first, each directory's entries by name,
      a subdirectory's documents all at the subdirectory's own position. */
  lemma {:induction false} CollectSorted(n: Node)
    requires WellFormed(n)
    ensures SortedByPath(Collect(n))
    decreases n, 1
  {
    if n.Dir? && n.listable {
      CollectFromSorted(n, 0);
    }
  }

  lemma {:induction false} CollectFromSorted(dir: Node, i: nat)
    requires dir.Dir? && WellFormed(dir) && i <= |Listing(dir)|
    ensures SortedByPath(CollectFrom(dir, i))
    ensures forall d | d in CollectFrom(dir, i) :: i < |Listing(dir)| && Le(Listing(dir)[i].name, d.path[0])
    decreases dir, 0, |Listing(dir)| - i + 1
  {
    var L := Listing(dir);
    if i < |L| && !L[i].statFails {
      var a := EntryCollect(dir, i);
      var b := CollectFrom(dir, i + 1);
      EntryCollectSorted(dir, i);
      CollectFromSorted(dir, i + 1);
      SortKeepsDistinct(dir.entries);
      SortByNameSorted(dir.entries);
      forall x, y | x in a && y in b ensures PathLt(x.path, y.path) {
        assert Le(L[i + 1].name, y.path[0]);
        LeTrans(L[i].name, L[i + 1].name, y.path[0]);
        if L[i].name == y.path[0] {
          LeAntisym(L[i].name, L[i + 1].name);
        }
      }
      LeRefl(L[i].name);
      forall d | d in a + b ensures Le(L[i].name, d.path[0]) {
        if d in b {
          LeTrans(L[i].name, L[i + 1].name, d.path[0]);
        }
      }
      forall p, q | 0 <= p < q < |a + b| ensures PathLt((a + b)[p].path, (a + b)[q].path) {
        if q < |a| {
        } else if p >= |a| {
          assert (a + b)[p] == b[p - |a|] && (a + b)[q] == b[q - |a|];
        } else {
          assert (a + b)[p] in a && (a + b)[q] in b;
        }
      }
    }
  }

  lemma {:induction false} EntryCollectSorted(dir: Node, i: nat)
    requires dir.Dir? && WellFormed(dir) && i < |Listing(dir)|
    ensures SortedByPath(EntryCollect(dir, i))
    decreases dir, 0, 0
  {
    var e := Listing(dir)[i];
    SortedIsEntry(dir.entries, i);
    if e.node.Dir? {
      CollectSorted(e.node);
      UnderSorted(e.name, Collect(e.node));
    }
  }

  /** Each emitted document's block appears verbatim in the rendering. */
  lemma {:induction false} BlockInRender(docs: seq<Doc>, prefix: string, k: nat) returns (at: nat)
    requires k < |docs|
    ensures at + |DocBlock(prefix, docs[k])| <= |Render(docs, prefix)|
    ensures Render(docs, prefix)[at..at + |DocBlock(prefix, docs[k])|] == DocBlock(prefix, docs[k])
  {
    var head := DocBlock(prefix, docs[0]);
    var rest := Render(docs[1..], prefix);
    assert Render(docs, prefix) == head + rest;
    if k == 0 {
      at := 0;
      SliceInMiddle("", head, rest, 0, |head|);
      assert "" + head + rest == head + rest;
    } else {
      var inner := BlockInRender(docs[1..], prefix, k - 1);
      at := |head| + inner;
      SliceInMiddle(head, rest, "", inner, |DocBlock(prefix, docs[k])|);
      assert head + rest + "" == head + rest;
    }
  }
}
