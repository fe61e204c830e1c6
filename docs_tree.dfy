/** The documentation tree as the loader sees it through the filesystem, and
    the sorted listing of a directory. */
module DocsTree {
  import opened Text

  /** A node of the tree. `listable` says whether listing the directory
      succeeds; `readable` says whether reading the file succeeds. */
  datatype Node =
    | Dir(entries: seq<Entry>, listable: bool)
    | File(content: string, readable: bool)

  /** One name in a directory listing. `statFails` says whether asking for
      the entry's file status fails; `node` is what the name refers to. */
  datatype Entry = Entry(name: string, statFails: bool, node: Node)

  predicate SortedByName(s: seq<Entry>)
  {
    forall i, j | 0 <= i < j < |s| :: Le(s[i].name, s[j].name)
  }

  /** No two entries of a listing share a name, as in any real directory. */
  predicate DistinctNames(s: seq<Entry>)
  {
    forall i, j | 0 <= i < j < |s| :: s[i].name != s[j].name
  }

  /** Every directory of the tree has distinct names (a real filesystem). */
  ghost predicate WellFormed(n: Node)
    decreases n
  {
    n.Dir? ==> DistinctNames(n.entries) && forall e | e in n.entries :: WellFormed(e.node)
  }

  /** Insertion of one entry in front of the first entry it does not exceed,
      which keeps equal names in their original order. */
  function Insert(e: Entry, s: seq<Entry>): (r: seq<Entry>)
    ensures multiset(r) == multiset(s) + multiset{e}
  {
    if s == [] then [e]
    else if Le(e.name, s[0].name) then [e] + s
    else
      assert s == [s[0]] + s[1..];
      [s[0]] + Insert(e, s[1..])
  }

  lemma {:induction false} InsertSorted(e: Entry, s: seq<Entry>)
    requires SortedByName(s)
    ensures SortedByName(Insert(e, s))
  {
    if s == [] {
    } else if Le(e.name, s[0].name) {
      forall j | 0 <= j < |s| ensures Le(e.name, s[j].name) {
        if j > 0 { LeTrans(e.name, s[0].name, s[j].name); }
      }
    } else {
      LeTotal(e.name, s[0].name);
      InsertSorted(e, s[1..]);
      var rest := Insert(e, s[1..]);
      assert s == [s[0]] + s[1..];
      forall j | 0 <= j < |rest| ensures Le(s[0].name, rest[j].name) {
        assert rest[j] in multiset(rest);
      }
    }
  }

  /** `readdirSync(dir).sort()`: the listing ordered by name, stably. It
      holds exactly the directory's entries. */
  function SortByName(es: seq<Entry>): (r: seq<Entry>)
    ensures multiset(r) == multiset(es)
  {
    if es == [] then []
    else
      assert es == [es[0]] + es[1..];
      Insert(es[0], SortByName(es[1..]))
  }

  /** Each entry of the sorted listing is an entry of the directory. */
  lemma SortedIsEntry(es: seq<Entry>, k: nat)
    requires k < |SortByName(es)|
    ensures SortByName(es)[k] in es
  {
    assert SortByName(es)[k] in multiset(SortByName(es));
  }

  /** The sorted listing is in order of names. */
  lemma {:induction false} SortByNameSorted(es: seq<Entry>)
    ensures SortedByName(SortByName(es))
  {
    if es != [] {
      SortByNameSorted(es[1..]);
      InsertSorted(es[0], SortByName(es[1..]));
    }
  }

  lemma {:induction false} InsertKeepsDistinct(e: Entry, s: seq<Entry>)
    requires DistinctNames(s)
    requires forall x | x in s :: x.name != e.name
    ensures DistinctNames(Insert(e, s))
  {
    if s != [] && !Le(e.name, s[0].name) {
      assert s == [s[0]] + s[1..];
      InsertKeepsDistinct(e, s[1..]);
      var rest := Insert(e, s[1..]);
      forall j | 0 <= j < |rest| ensures rest[j].name != s[0].name {
        assert rest[j] in multiset(s[1..]) + multiset{e};
      }
    }
  }

  /** Sorting a duplicate-free listing leaves it duplicate-free. */
  lemma {:induction false} SortKeepsDistinct(es: seq<Entry>)
    requires DistinctNames(es)
    ensures DistinctNames(SortByName(es))
  {
    if es != [] {
      assert es == [es[0]] + es[1..];
      SortKeepsDistinct(es[1..]);
      var s := SortByName(es[1..]);
      forall x | x in s ensures x.name != es[0].name {
        assert x in multiset(s);
      }
      InsertKeepsDistinct(es[0], s);
    }
  }

  /** Two sorted arrangements of the same entries, one of them duplicate
      free, start with the same entry. */
  lemma SortedSameHead(s: seq<Entry>, t: seq<Entry>)
    requires SortedByName(s) && DistinctNames(s)
    requires SortedByName(t)
    requires multiset(s) == multiset(t)
    requires s != []
    ensures t != [] && s[0] == t[0]
  {
    assert s[0] in multiset(t);
    var k :| 0 <= k < |t| && t[k] == s[0];
    assert t[0] in multiset(s);
    var m :| 0 <= m < |s| && s[m] == t[0];
    assert Le(s[0].name, t[0].name) by {
      if m > 0 { assert Le(s[0].name, s[m].name); } else { LeRefl(s[0].name); }
    }
    assert Le(t[0].name, s[0].name) by {
      if k > 0 { assert Le(t[0].name, t[k].name); } else { LeRefl(t[0].name); }
    }
    LeAntisym(s[0].name, t[0].name);
    assert m == 0;
  }

  lemma SameTails(s: seq<Entry>, t: seq<Entry>)
    requires s != [] && t != [] && s[0] == t[0]
    requires multiset(s) == multiset(t)
    ensures multiset(s[1..]) == multiset(t[1..])
  {
    assert s == [s[0]] + s[1..];
    assert t == [t[0]] + t[1..];
    assert multiset(s[1..]) == multiset(s) - multiset{s[0]};
    assert multiset(t[1..]) == multiset(t) - multiset{t[0]};
  }

  /** A duplicate-free sorted sequence is the only sorted arrangement of its
      elements. */
  lemma {:induction false} SortedUnique(s: seq<Entry>, t: seq<Entry>)
    requires SortedByName(s) && DistinctNames(s)
    requires SortedByName(t)
    requires multiset(s) == multiset(t)
    ensures s == t
  {
    if s == [] {
      assert |t| == |multiset(t)| == 0;
    } else {
      SortedSameHead(s, t);
      SameTails(s, t);
      SortedUnique(s[1..], t[1..]);
      assert s == [s[0]] + s[1..];
      assert t == [t[0]] + t[1..];
    }
  }

  /** However the filesystem happens to order a duplicate-free directory, the
      sorted listing is the same. */
  lemma ListingOrderIrrelevant(es1: seq<Entry>, es2: seq<Entry>)
    requires DistinctNames(es1)
    requires multiset(es1) == multiset(es2)
    ensures SortByName(es1) == SortByName(es2)
  {
    SortKeepsDistinct(es1);
    SortByNameSorted(es1);
    SortByNameSorted(es2);
    SortedUnique(SortByName(es1), SortByName(es2));
  }
}
