/** A PDF document as PyMuPDF (`fitz`) presents it to the Python services: a
    sequence of opaque pages. The library's drawing, text search and
    redaction are not modelled; an edit only records on its page what was
    asked of it, and a text search is an input function from a page and a
    target to the rectangles it finds. */
module Pages {
  import opened Wrappers
  import opened Numbers

  /** `fitz.Rect(x0, y0, x1, y1)`. */
  datatype Rect = Rect(x0: Double, y0: Double, x1: Double, y1: Double)

  /** What an operation asked of one page. */
  datatype Edit =
    | TextInserted(text: string)
    | ImageInserted(image: string)
    | AreaRedacted(area: Rect)
    | TextboxInserted(area: Rect, text: string)
    | RedactionsApplied(marks: seq<Rect>)

  /** An opaque page: what it showed when the document was opened, and the
      edits made to it since. */
  datatype Page = Page(content: nat, edits: seq<Edit>)

  function WithEdit(p: Page, e: Edit): (q: Page)
    ensures q.content == p.content && q.edits == p.edits + [e]
  {
    Page(p.content, p.edits + [e])
  }

  /** The text search PyMuPDF performs (`page.search_for(target)`). */
  type Search = (Page, string) -> seq<Rect>

  // ---------------------------------------------------------------------
  // Index checks

  predicate InRange(p: int, n: int) { 0 <= p < n }

  predicate AllInRange(L: seq<int>, n: int) {
    forall i :: 0 <= i < |L| ==> InRange(L[i], n)
  }

  /** `[p for p in L if p < 0 or p >= n]`: the out-of-range entries, in the
      order of `L`, duplicates kept. It is empty exactly when every entry is
      in range. */
  function InvalidPages(L: seq<int>, n: int): (r: seq<int>)
    ensures |r| <= |L|
    ensures forall x :: x in r <==> x in L && !InRange(x, n)
    ensures r == [] <==> AllInRange(L, n)
  {
    if L == [] then []
    else
      var rest := InvalidPages(L[1..], n);
      assert forall x :: x in L <==> x == L[0] || x in L[1..];
      (if InRange(L[0], n) then [] else [L[0]]) + rest
  }

  /** The filter keeps order: the invalid entries of `A + B` are those of
      `A` followed by those of `B`. */
  lemma {:induction false} InvalidPagesAppend(A: seq<int>, B: seq<int>, n: int)
    ensures InvalidPages(A + B, n) == InvalidPages(A, n) + InvalidPages(B, n)
  {
    if A != [] {
      var head := if InRange(A[0], n) then [] else [A[0]];
      assert (A + B)[0] == A[0] && (A + B)[1..] == A[1..] + B;
      assert InvalidPages(A + B, n) == head + InvalidPages(A[1..] + B, n);
      InvalidPagesAppend(A[1..], B, n);
      assert InvalidPages(A, n) == head + InvalidPages(A[1..], n);
    } else {
      assert A + B == B;
    }
  }

  // ---------------------------------------------------------------------
  // Page-list operations

  /** `doc.delete_page(i)`. */
  function RemoveAt<T>(s: seq<T>, i: nat): (r: seq<T>)
    requires i < |s|
    ensures |r| == |s| - 1
    ensures forall j :: 0 <= j < i ==> r[j] == s[j]
    ensures forall j :: i <= j < |r| ==> r[j] == s[j + 1]
  {
    s[..i] + s[i + 1..]
  }

  /** `doc.select(L)`: output page `i` is input page `L[i]`. */
  function Selected<T>(s: seq<T>, L: seq<int>): (r: seq<T>)
    requires AllInRange(L, |s|)
    ensures |r| == |L| && forall i :: 0 <= i < |L| ==> r[i] == s[L[i]]
  {
    seq(|L|, i requires 0 <= i < |L| => s[L[i]])
  }

  /** Selecting the identity order gives the document back. */
  lemma SelectIdentity<T>(s: seq<T>, L: seq<int>)
    requires |L| == |s| && forall i :: 0 <= i < |L| ==> L[i] == i
    ensures Selected(s, L) == s
  {
  }

  /** A reorder by a permutation is undone by a reorder by its inverse. */
  lemma {:induction false} ReorderUndone<T>(s: seq<T>, order: seq<int>, inverse: seq<int>)
    requires |order| == |s| && |inverse| == |s|
    requires AllInRange(order, |s|) && AllInRange(inverse, |s|)
    requires forall i :: 0 <= i < |s| ==> order[inverse[i]] == i
    ensures Selected(Selected(s, order), inverse) == s
  {
    var t := Selected(s, order);
    forall i | 0 <= i < |s|
      ensures Selected(t, inverse)[i] == s[i]
    {
      assert Selected(t, inverse)[i] == t[inverse[i]] == s[order[inverse[i]]];
    }
  }

  /** Deleting the entries of `D` one after another, each against the
      document the previous deletions left; `None` when an index is past the
      end when its turn comes (no caller passes a negative index). Each successful deletion removes one page. */
  function DeleteEach<T>(s: seq<T>, D: seq<int>): (r: Option<seq<T>>)
    ensures r.Some? ==> |r.value| == |s| - |D|
  {
    if D == [] then Some(s)
    else if 0 <= D[0] < |s| then DeleteEach(RemoveAt(s, D[0]), D[1..])
    else None
  }

  /** The pages whose positions are not in `S`, in their original order. */
  function Survivors<T>(s: seq<T>, S: set<int>): seq<T>
  {
    if s == [] then []
    else Survivors(s[..|s| - 1], S) + (if |s| - 1 in S then [] else [s[|s| - 1]])
  }

  lemma {:induction false} SurvivorsOfNothing<T>(s: seq<T>, S: set<int>)
    requires forall i :: i in S ==> !(0 <= i < |s|)
    ensures Survivors(s, S) == s
  {
    if s != [] {
      SurvivorsOfNothing(s[..|s| - 1], S);
      assert s[..|s| - 1] + [s[|s| - 1]] == s;
    }
  }

  /** Only the positions inside the document matter. */
  lemma {:induction false} SurvivorsSameInside<T>(s: seq<T>, S: set<int>, S': set<int>)
    requires forall i :: 0 <= i < |s| ==> (i in S <==> i in S')
    ensures Survivors(s, S) == Survivors(s, S')
  {
    if s != [] {
      SurvivorsSameInside(s[..|s| - 1], S, S');
    }
  }

  /** When every removed position is below `k`, the pages from `k` on all
      survive. */
  lemma {:induction false} SurvivorsPrefix<T>(s: seq<T>, S: set<int>, k: nat)
    requires k <= |s|
    requires forall i :: i in S ==> i < k
    ensures Survivors(s, S) == Survivors(s[..k], S) + s[k..]
    decreases |s|
  {
    if |s| == k {
      assert s[..k] == s;
    } else {
      var t := s[..|s| - 1];
      SurvivorsPrefix(t, S, k);
      assert t[..k] == s[..k];
      assert t[k..] + [s[|s| - 1]] == s[k..];
    }
  }

  predicate StrictlyDescending(D: seq<int>) {
    forall i, j :: 0 <= i < j < |D| ==> D[i] > D[j]
  }

  /** Removing position `d` when every other removed position lies below it. */
  lemma {:induction false} RemoveAtSurvivors<T>(s: seq<T>, d: nat, S': set<int>)
    requires d < |s|
    requires forall x :: x in S' ==> x < d
    ensures Survivors(RemoveAt(s, d), S') == Survivors(s, S' + {d})
  {
    var s' := RemoveAt(s, d);
    var S := S' + {d};
    SurvivorsPrefix(s', S', d);
    assert s'[..d] == s[..d] && s'[d..] == s[d + 1..];
    SurvivorsPrefix(s, S, d + 1);
    var p := s[..d + 1];
    assert p[..|p| - 1] == s[..d];
    assert Survivors(p, S) == Survivors(s[..d], S);
    SurvivorsSameInside(s[..d], S, S');
  }

  /** Deleting distinct in-range positions from the highest down removes
      exactly those positions and keeps the others in order. */
  lemma {:induction false} DescendingDeletion<T>(s: seq<T>, D: seq<int>)
    requires StrictlyDescending(D) && AllInRange(D, |s|)
    ensures DeleteEach(s, D) == Some(Survivors(s, set x | x in D))
  {
    if D == [] {
      assert (set x | x in D) == {};
      SurvivorsOfNothing(s, {});
    } else {
      var d := D[0];
      var D' := D[1..];
      var S' := set x | x in D';
      assert (set x | x in D) == S' + {d} by {
        assert D == [d] + D';
      }
      var s' := RemoveAt(s, d);
      assert forall i :: 0 <= i < |D'| ==> D'[i] < d by {
        forall i | 0 <= i < |D'| ensures D'[i] < d {
          assert D[0] > D[i + 1];
        }
      }
      assert StrictlyDescending(D') by {
        forall i, j | 0 <= i < j < |D'| ensures D'[i] > D'[j] {
          assert D[i + 1] > D[j + 1];
        }
      }
      DescendingDeletion(s', D');
      RemoveAtSurvivors(s, d, S');
    }
  }

  /** A repeated position deletes the page after it too: asking twice for
      page `d` removes pages `d` and `d + 1`. */
  lemma DuplicateDeletesNextPage<T>(s: seq<T>, d: nat)
    requires d + 1 < |s|
    ensures DeleteEach(s, [d, d]) == Some(s[..d] + s[d + 2..])
  {
    var s' := RemoveAt(s, d);
    assert s'[..d] == s[..d] && s'[d + 1..] == s[d + 2..];
    var s'' := RemoveAt(s', d);
    assert s'' == s[..d] + s[d + 2..];
    assert [d, d][1..] == [d] && [d][1..] == [];
    assert DeleteEach(s', [d]) == DeleteEach(s'', []) == Some(s'');
    assert DeleteEach(s, [d, d]) == DeleteEach(s', [d]);
  }

  // ---------------------------------------------------------------------
  // `sorted(L, reverse=True)`

  predicate NonIncreasing(D: seq<int>) {
    forall i, j :: 0 <= i < j < |D| ==> D[i] >= D[j]
  }

  /** Inserting `x` into a list, before the first entry it is not below. */
  function InsertDescending(x: int, D: seq<int>): (r: seq<int>)
    ensures multiset(r) == multiset(D) + multiset{x}
    ensures |r| == |D| + 1
  {
    if D == [] || x >= D[0] then [x] + D
    else
      assert D == [D[0]] + D[1..];
      [D[0]] + InsertDescending(x, D[1..])
  }

  /** Insertion into a list sorted largest first keeps it sorted. */
  lemma {:induction false} InsertKeepsOrder(x: int, D: seq<int>)
    requires NonIncreasing(D)
    ensures NonIncreasing(InsertDescending(x, D))
  {
    var r := InsertDescending(x, D);
    if D == [] || x >= D[0] {
      forall i, j | 0 <= i < j < |r| ensures r[i] >= r[j] {
        if i > 0 {
          assert r[i] == D[i - 1] && r[j] == D[j - 1];
        } else {
          assert r[j] == D[j - 1] && D[0] >= D[j - 1];
        }
      }
    } else {
      var rest := InsertDescending(x, D[1..]);
      InsertKeepsOrder(x, D[1..]);
      InsertBounded(x, D[1..], D[0]);
      assert r == [D[0]] + rest;
      forall i, j | 0 <= i < j < |r| ensures r[i] >= r[j] {
        assert r[j] == rest[j - 1];
        if i > 0 {
          assert r[i] == rest[i - 1];
        }
      }
    }
  }

  /** Inserting a value no larger than `b` into entries no larger than `b`
      leaves every entry no larger than `b`. */
  lemma {:induction false} InsertBounded(x: int, D: seq<int>, b: int)
    requires x <= b && forall i :: 0 <= i < |D| ==> D[i] <= b
    ensures forall i :: 0 <= i < |D| + 1 ==> InsertDescending(x, D)[i] <= b
  {
    if !(D == [] || x >= D[0]) {
      InsertBounded(x, D[1..], b);
      var rest := InsertDescending(x, D[1..]);
      assert InsertDescending(x, D) == [D[0]] + rest;
    }
  }

  /** Python's `sorted(L, reverse=True)`: the same entries, largest first. */
  function SortDescending(L: seq<int>): (r: seq<int>)
    ensures NonIncreasing(r)
    ensures multiset(r) == multiset(L)
    ensures |r| == |L|
  {
    if L == [] then []
    else
      assert L == [L[0]] + L[1..];
      var rest := SortDescending(L[1..]);
      InsertKeepsOrder(L[0], rest);
      InsertDescending(L[0], rest)
  }

  predicate NoDuplicates(L: seq<int>) {
    forall i, j :: 0 <= i < j < |L| ==> L[i] != L[j]
  }

  lemma {:induction false} NoDuplicatesCount(L: seq<int>)
    requires NoDuplicates(L)
    ensures forall v :: multiset(L)[v] <= 1
  {
    if L != [] {
      NoDuplicatesCount(L[1..]);
      assert L == [L[0]] + L[1..];
      assert L[0] !in L[1..];
    }
  }

  lemma {:induction false} RepeatCounts(D: seq<int>, i: nat, j: nat)
    requires i < j < |D| && D[i] == D[j]
    ensures multiset(D)[D[i]] >= 2
  {
    assert D == D[..j] + [D[j]] + D[j + 1..];
    assert D[i] in D[..j];
  }

  /** Sorting distinct entries, largest first, gives a strictly descending
      list of the same entries. */
  lemma SortDistinct(L: seq<int>)
    requires NoDuplicates(L)
    ensures StrictlyDescending(SortDescending(L))
    ensures (set x | x in SortDescending(L)) == (set x | x in L)
  {
    var D := SortDescending(L);
    NoDuplicatesCount(L);
    forall i, j | 0 <= i < j < |D| ensures D[i] > D[j] {
      if D[i] == D[j] {
        RepeatCounts(D, i, j);
      }
    }
    assert forall x :: x in D <==> x in multiset(D);
    assert forall x :: x in L <==> x in multiset(L);
  }

  /** `delete_pages` with distinct in-range indices: sorting them largest
      first and deleting one by one removes exactly the listed pages and
      keeps the others in their original order. */
  lemma SortedInRange(L: seq<int>, n: int)
    requires AllInRange(L, n)
    ensures AllInRange(SortDescending(L), n)
  {
    var D := SortDescending(L);
    forall i | 0 <= i < |D| ensures InRange(D[i], n) {
      assert D[i] in multiset(D);
      assert D[i] in multiset(L);
      var j :| 0 <= j < |L| && L[j] == D[i];
    }
  }

  lemma DeletePagesRemovesListed<T>(s: seq<T>, L: seq<int>)
    requires NoDuplicates(L) && AllInRange(L, |s|)
    ensures AllInRange(SortDescending(L), |s|)
    ensures DeleteEach(s, SortDescending(L)) == Some(Survivors(s, set x | x in L))
  {
    SortDistinct(L);
    SortedInRange(L, |s|);
    DescendingDeletion(s, SortDescending(L));
  }

  // ---------------------------------------------------------------------
  // Redaction by search hits

  /** The hits of every target on one page, target by target. */
  function PageMarks(p: Page, targets: seq<string>, search: Search): seq<Rect>
  {
    if targets == [] then []
    else PageMarks(p, targets[..|targets| - 1], search) + search(p, targets[|targets| - 1])
  }

  /** The number of hits over every page and every target. */
  function TotalHits(pages: seq<Page>, targets: seq<string>, search: Search): nat
  {
    if pages == [] then 0
    else TotalHits(pages[..|pages| - 1], targets, search) + |PageMarks(pages[|pages| - 1], targets, search)|
  }

  /** Every page with its hits redacted. */
  function RedactedPages(pages: seq<Page>, targets: seq<string>, search: Search): (r: seq<Page>)
    ensures |r| == |pages|
  {
    seq(|pages|, i requires 0 <= i < |pages| => WithEdit(pages[i], RedactionsApplied(PageMarks(pages[i], targets, search))))
  }

  lemma {:induction false} PageMarksAppend(p: Page, A: seq<string>, B: seq<string>, search: Search)
    ensures PageMarks(p, A + B, search) == PageMarks(p, A, search) + PageMarks(p, B, search)
    decreases |B|
  {
    if B == [] {
      assert A + B == A;
    } else {
      var B' := B[..|B| - 1];
      assert (A + B)[..|A + B| - 1] == A + B';
      PageMarksAppend(p, A, B', search);
    }
  }

  /** Splitting the target list splits the count: redacting `A + B` finds
      the hits of `A` and those of `B`. */
  lemma {:induction false} TotalHitsAppend(pages: seq<Page>, A: seq<string>, B: seq<string>, search: Search)
    ensures TotalHits(pages, A + B, search) == TotalHits(pages, A, search) + TotalHits(pages, B, search)
  {
    if pages != [] {
      TotalHitsAppend(pages[..|pages| - 1], A, B, search);
      PageMarksAppend(pages[|pages| - 1], A, B, search);
    }
  }

  /** One more page redacted: the result grows by that page's redaction and
      the count by its hits. */
  lemma RedactStep(P: seq<Page>, i: nat, targets: seq<string>, search: Search)
    requires i < |P|
    ensures RedactedPages(P[..i + 1], targets, search)
              == RedactedPages(P[..i], targets, search) + [WithEdit(P[i], RedactionsApplied(PageMarks(P[i], targets, search)))]
    ensures TotalHits(P[..i + 1], targets, search) == TotalHits(P[..i], targets, search) + |PageMarks(P[i], targets, search)|
  {
    assert P[..i + 1][..i] == P[..i];
  }

  /** The inner loops of the redaction pass on one page: every hit of every
      target is marked, in order, and `removed` goes up by one for each. */
  method MarkHits(page: Page, targets: seq<string>, search: Search, start: nat) returns (marks: seq<Rect>, removed: nat)
    ensures marks == PageMarks(page, targets, search)
    ensures removed == start + |marks|
  {
    removed := start;
    marks := [];
    var j := 0;
    while j < |targets|
      invariant 0 <= j <= |targets|
      invariant marks == PageMarks(page, targets[..j], search)
      invariant removed == start + |marks|
    {
      var rects := search(page, targets[j]);
      var k := 0;
      while k < |rects|
        invariant 0 <= k <= |rects|
        invariant marks == PageMarks(page, targets[..j], search) + rects[..k]
        invariant removed == start + |marks|
      {
        marks := marks + [rects[k]];
        removed := removed + 1;
        k := k + 1;
      }
      assert targets[..j + 1][..j] == targets[..j];
      assert rects[..k] == rects;
      j := j + 1;
    }
    assert targets[..j] == targets;
  }

  // ---------------------------------------------------------------------
  // The open document

  class Document {
    var pages: seq<Page>

    constructor (pages: seq<Page>)
      ensures this.pages == pages
    {
      this.pages := pages;
    }

    /** `doc.delete_page(i)`: fails when `i` is past the end. */
    method DeletePage(i: int) returns (ok: bool)
      requires i >= 0
      modifies this
      ensures ok <==> i < |old(pages)|
      ensures pages == if ok then RemoveAt(old(pages), i) else old(pages)
    {
      ok := i < |pages|;
      if ok {
        pages := RemoveAt(pages, i);
      }
    }

    /** `for i in D: doc.delete_page(i)`, stopping at the first failure. */
    method DeleteInOrder(D: seq<int>) returns (ok: bool)
      requires forall i :: 0 <= i < |D| ==> D[i] >= 0
      modifies this
      ensures ok <==> DeleteEach(old(pages), D).Some?
      ensures ok ==> pages == DeleteEach(old(pages), D).value
    {
      var k := 0;
      while k < |D|
        invariant 0 <= k <= |D|
        invariant DeleteEach(old(pages), D) == DeleteEach(pages, D[k..])
      {
        assert D[k..][1..] == D[k + 1..];
        var deleted := DeletePage(D[k]);
        if !deleted {
          return false;
        }
        k := k + 1;
      }
      return true;
    }

    /** `doc.select(L)`. */
    method Select(L: seq<int>)
      requires AllInRange(L, |pages|)
      modifies this
      ensures pages == Selected(old(pages), L)
    {
      pages := Selected(pages, L);
    }

    /** `doc.insert_pdf(other)`: the other document's pages are appended. */
    method InsertPdf(other: seq<Page>)
      modifies this
      ensures pages == old(pages) + other
    {
      pages := pages + other;
    }

    /** An edit of page `i` (`insert_text`, `insert_image`, ...). */
    method EditPage(i: nat, e: Edit)
      requires i < |pages|
      modifies this
      ensures pages == old(pages)[i := WithEdit(old(pages)[i], e)]
    {
      pages := pages[i := WithEdit(pages[i], e)];
    }

    /** `for page in doc: for target in targets: for rect in
        page.search_for(target): page.add_redact_annot(rect); removed += 1`,
        then `page.apply_redactions()`: `removed` counts every hit over every
        page and target. */
    method RedactAll(targets: seq<string>, search: Search) returns (removed: nat)
      modifies this
      ensures pages == RedactedPages(old(pages), targets, search)
      ensures removed == TotalHits(old(pages), targets, search)
    {
      removed := 0;
      var i := 0;
      while i < |pages|
        invariant 0 <= i <= |pages| == |old(pages)|
        invariant pages[..i] == RedactedPages(old(pages)[..i], targets, search)
        invariant pages[i..] == old(pages)[i..]
        invariant removed == TotalHits(old(pages)[..i], targets, search)
      {
        var page := pages[i];
        assert page == old(pages)[i];
        var marks;
        marks, removed := MarkHits(page, targets, search, removed);
        ghost var before := pages;
        EditPage(i, RedactionsApplied(marks));
        assert pages[..i + 1] == before[..i] + [pages[i]];
        assert pages[i + 1..] == before[i + 1..];
        RedactStep(old(pages), i, targets, search);
        i := i + 1;
      }
      assert old(pages)[..i] == old(pages);
      assert pages[..i] == pages;
    }
  }
}
