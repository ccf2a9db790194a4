/**
 * The co-authorship table (scripts/analysis/co_author/build_author_matrix.py):
 * for every entry, every pair of distinct authors on it adds one to the
 * table in both directions. The table is a map from author pairs; a pair
 * that is not a key reads as 0, as the source's `fillna(0)` makes it.
 */
module AuthorMatrix {
  import opened Wrappers

  /** An entry's `authors` field, `None` when the entry has no such key. */
  type AuthorList = Option<seq<string>>

  /** `set(entry.get('authors', []))`. */
  function AuthorSet(authors: AuthorList): (r: set<string>)
    ensures authors.None? ==> r == {}
    ensures authors.Some? ==> forall a :: a in r <==> a in authors.value
  {
    match authors
    case None => {}
    case Some(names) => set a | a in names
  }

  /** Whether an entry names both `a` and `b`, two different authors. */
  predicate CoAuthors(authors: AuthorList, a: string, b: string) {
    a != b && a in AuthorSet(authors) && b in AuthorSet(authors)
  }

  /** The number of entries on which `a` and `b` are co-authors. */
  function CoCount(entries: seq<AuthorList>, a: string, b: string): (r: nat)
    ensures r <= |entries|
  {
    if entries == [] then 0
    else
      var last := if CoAuthors(entries[|entries| - 1], a, b) then 1 else 0;
      CoCount(entries[..|entries| - 1], a, b) + last
  }

  /** The table read with absent cells as 0. */
  function Cell(table: map<(string, string), nat>, a: string, b: string): nat {
    if (a, b) in table then table[(a, b)] else 0
  }

  /** The ordered pairs of distinct authors of one entry. */
  function OrderedPairs(authors: set<string>): set<(string, string)> {
    set a, b | a in authors && b in authors && a != b :: (a, b)
  }

  /**
   * `build_author_matrix`: every cell holds the number of entries naming both
   * authors, and only pairs that occur together are keys.
   */
  method BuildAuthorMatrix(entries: seq<AuthorList>) returns (table: map<(string, string), nat>)
    ensures forall a, b :: Cell(table, a, b) == CoCount(entries, a, b)
    ensures forall k :: k in table ==> table[k] >= 1
  {
    table := map[];
    var i := 0;
    while i < |entries|
      invariant 0 <= i <= |entries|
      invariant forall a, b :: Cell(table, a, b) == CoCount(entries[..i], a, b)
      invariant forall k :: k in table ==> table[k] >= 1
    {
      var authors := AuthorSet(entries[i]);
      table := AddEntry(table, authors);
      forall a, b
        ensures Cell(table, a, b) == CoCount(entries[..i + 1], a, b)
      {
        assert entries[..i + 1][..i] == entries[..i];
        assert (a, b) in OrderedPairs(authors) <==> CoAuthors(entries[i], a, b);
      }
      i := i + 1;
    }
    assert entries[..i] == entries;
  }

  /**
   * The inner loop over one entry's author pairs: each unordered pair adds one
   * in both directions.
   */
  method AddEntry(table0: map<(string, string), nat>, authors: set<string>) returns (table: map<(string, string), nat>)
    requires forall k :: k in table0 ==> table0[k] >= 1
    ensures forall a, b :: Cell(table, a, b) == Cell(table0, a, b) + if (a, b) in OrderedPairs(authors) then 1 else 0
    ensures forall k :: k in table ==> table[k] >= 1
  {
    table := table0;
    var todo := OrderedPairs(authors);
    ghost var pairs := todo;
    while todo != {}
      invariant todo <= pairs
      invariant forall a, b :: (a, b) in todo ==> (b, a) in todo
      invariant forall a, b :: (a, b) in pairs ==> (b, a) in pairs
      invariant forall a, b :: Cell(table, a, b) == Cell(table0, a, b) + if (a, b) in pairs - todo then 1 else 0
      invariant forall k :: k in table ==> table[k] >= 1
      decreases |todo|
    {
      var p :| p in todo;
      var (a1, a2) := p;
      assert (a2, a1) in todo;
      assert a1 != a2;
      ghost var table1, todo1 := table, todo;
      table := table[(a1, a2) := Cell(table, a1, a2) + 1];
      table := table[(a2, a1) := Cell(table, a2, a1) + 1];
      todo := todo - {(a1, a2), (a2, a1)};
      forall a, b
        ensures Cell(table, a, b) == Cell(table0, a, b) + if (a, b) in pairs - todo then 1 else 0
      {
        if (a, b) == (a1, a2) || (a, b) == (a2, a1) {
          assert (a, b) in todo1;
        } else {
          assert Cell(table, a, b) == Cell(table1, a, b);
        }
      }
    }
  }

  /** The table is symmetric. */
  lemma {:induction false} CoCountSymmetric(entries: seq<AuthorList>, a: string, b: string)
    ensures CoCount(entries, a, b) == CoCount(entries, b, a)
  {
    if entries != [] {
      CoCountSymmetric(entries[..|entries| - 1], a, b);
    }
  }

  /** No author is paired with themself. */
  lemma {:induction false} NoSelfPairs(entries: seq<AuthorList>, a: string)
    ensures CoCount(entries, a, a) == 0
  {
    if entries != [] {
      NoSelfPairs(entries[..|entries| - 1], a);
    }
  }

  /** An entry with fewer than two distinct authors, or none at all, adds nothing. */
  lemma SmallEntryAddsNothing(entries: seq<AuthorList>, e: AuthorList, a: string, b: string)
    requires |AuthorSet(e)| < 2
    ensures CoCount(entries + [e], a, b) == CoCount(entries, a, b)
  {
    assert (entries + [e])[..|entries|] == entries;
    if CoAuthors(e, a, b) {
      assert {a, b} <= AuthorSet(e);
      assert |{a, b}| == 2;
      SubsetCard({a, b}, AuthorSet(e));
    }
  }

  lemma SubsetCard<T>(s: set<T>, t: set<T>)
    requires s <= t
    ensures |s| <= |t|
  {
    assert t == s + (t - s);
  }

  /** Counts add up over a concatenation of entry lists. */
  lemma {:induction false} CoCountAppend(u: seq<AuthorList>, v: seq<AuthorList>, a: string, b: string)
    ensures CoCount(u + v, a, b) == CoCount(u, a, b) + CoCount(v, a, b)
  {
    if v == [] {
      assert u + v == u;
    } else {
      var n := |v| - 1;
      assert (u + v)[..|u + v| - 1] == u + v[..n];
      CoCountAppend(u, v[..n], a, b);
    }
  }

  /** The table does not depend on the order of the entries. */
  lemma {:induction false} CoCountOrderFree(s: seq<AuthorList>, t: seq<AuthorList>, a: string, b: string)
    requires multiset(s) == multiset(t)
    ensures CoCount(s, a, b) == CoCount(t, a, b)
    decreases |s|
  {
    if s != [] {
      var n := |s| - 1;
      var x := s[n];
      assert s == s[..n] + [x];
      assert x in multiset(t);
      var j :| 0 <= j < |t| && t[j] == x;
      assert t == t[..j] + [x] + t[j + 1..];
      var rest := t[..j] + t[j + 1..];
      calc {
        multiset(s[..n]) + multiset{x};
        multiset(s[..n] + [x]);
        multiset(t[..j] + [x] + t[j + 1..]);
        multiset(t[..j]) + multiset{x} + multiset(t[j + 1..]);
        multiset(rest) + multiset{x};
      }
      assert multiset(s[..n]) == multiset(s[..n]) + multiset{x} - multiset{x};
      assert multiset(rest) == multiset(rest) + multiset{x} - multiset{x};
      CoCountOrderFree(s[..n], rest, a, b);
      CoCountAppend(t[..j] + [x], t[j + 1..], a, b);
      CoCountAppend(t[..j], [x], a, b);
      CoCountAppend(t[..j], t[j + 1..], a, b);
      assert [x][..0] == [];
    }
  }
}
