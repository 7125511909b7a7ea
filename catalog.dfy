/** Catalog collection, getIllustrations in cmd/update/update.go: request
    every page of the remote catalog, derive each entry's identifier from
    its title, and sort the entries by identifier. The HTTP requests and
    the JSON decoding are the input of the model: a page source giving
    each page's decoded content or the failure of fetching it. */
module Catalog {
  import opened Outcomes
  import opened Identifiers
  import opened Ordering

  /** One remote illustration record; `id` first holds the remote `_id`
      and is overwritten with the derived identifier. */
  datatype Illustration = Illustration(id: string, title: string, image: string, slug: string)

  /** One decoded page of the catalog API. */
  datatype ApiResponse = ApiResponse(illustrations: seq<Illustration>, hasMore: bool, nextPage: int)

  /** What requesting one page gives: a decoded page, or the fatal failure
      of the request, of reading its body, or of decoding it. */
  type PageFetch = Result<ApiResponse>

  // ---------------------------------------------------------------------
  // Pagination (getIllustrations, first loop)

  /** The request loop stops at this page: it failed, or it is the last. */
  predicate Stops(f: PageFetch) {
    f.Err? || !f.value.hasMore
  }

  /** The page source ends: some page stops the loop. Without such a page
      the source loop never ends, which the model does not cover. */
  predicate Terminates(pages: seq<PageFetch>) {
    exists k :: 0 <= k < |pages| && Stops(pages[k])
  }

  lemma TerminatesTail(pages: seq<PageFetch>)
    requires Terminates(pages) && !Stops(pages[0])
    ensures Terminates(pages[1..])
  {
    var k :| 0 <= k < |pages| && Stops(pages[k]);
    assert Stops(pages[1..][k - 1]);
  }

  /** The index of the page at which the request loop stops. */
  function FirstStop(pages: seq<PageFetch>): (k: nat)
    requires Terminates(pages)
    ensures k < |pages| && Stops(pages[k])
    ensures forall i :: 0 <= i < k ==> !Stops(pages[i])
    decreases |pages|
  {
    if Stops(pages[0]) then 0
    else
      TerminatesTail(pages);
      var k := FirstStop(pages[1..]);
      assert forall i :: 1 <= i <= k ==> pages[i] == pages[1..][i - 1];
      1 + k
  }

  function Entries(f: PageFetch): seq<Illustration> {
    if f.Ok? then f.value.illustrations else []
  }

  /** The entries of the given pages, concatenated in request order. */
  function Collected(pages: seq<PageFetch>): seq<Illustration>
  {
    if pages == [] then [] else Collected(pages[..|pages| - 1]) + Entries(pages[|pages| - 1])
  }

  /** The outcome of the request loop: the first failure, or the entries
      of pages 0..k concatenated, where k is the first page without more. */
  function Paginate(pages: seq<PageFetch>): Result<seq<Illustration>>
    requires Terminates(pages)
  {
    var k := FirstStop(pages);
    if pages[k].Err? then Err(pages[k].error) else Ok(Collected(pages[..k + 1]))
  }

  lemma {:induction false} CollectedAppend(a: seq<PageFetch>, b: seq<PageFetch>)
    ensures Collected(a + b) == Collected(a) + Collected(b)
    decreases |b|
  {
    if b == [] {
      assert a + b == a;
    } else {
      var n := |b| - 1;
      assert (a + b)[..|a + b| - 1] == a + b[..n];
      CollectedAppend(a, b[..n]);
    }
  }

  /** A first page that stops the loop decides the outcome alone. */
  lemma PaginateFirstStops(pages: seq<PageFetch>)
    requires |pages| > 0 && Stops(pages[0])
    ensures Terminates(pages)
    ensures Paginate(pages) == if pages[0].Err? then Err(pages[0].error) else Ok(pages[0].value.illustrations)
  {
    assert FirstStop(pages) == 0;
    assert pages[..1] == [pages[0]];
    assert Collected([pages[0]]) == Entries(pages[0]) by {
      assert [pages[0]][..0] == [];
    }
  }

  /** A first page with more after it contributes its entries ahead of
      the rest of the catalog. */
  lemma PaginateFirstHasMore(pages: seq<PageFetch>)
    requires Terminates(pages) && !Stops(pages[0])
    ensures Terminates(pages[1..])
    ensures Paginate(pages) == (match Paginate(pages[1..])
                                case Ok(rest) => Ok(pages[0].value.illustrations + rest)
                                case Err(e) => Err(e))
  {
    TerminatesTail(pages);
    var k := FirstStop(pages[1..]);
    assert FirstStop(pages) == k + 1;
    assert pages[k + 1] == pages[1..][k];
    assert pages[..k + 2] == [pages[0]] + pages[1..][..k + 1];
    CollectedAppend([pages[0]], pages[1..][..k + 1]);
    assert Collected([pages[0]]) == Entries(pages[0]) by {
      assert [pages[0]][..0] == [];
    }
  }

  /** Pages after the first stopping one are never requested. */
  lemma PaginateIgnoresLaterPages(pages: seq<PageFetch>, later: seq<PageFetch>)
    requires Terminates(pages)
    ensures Terminates(pages + later) && Paginate(pages + later) == Paginate(pages)
  {
    var k := FirstStop(pages);
    assert (pages + later)[k] == pages[k];
    var k' := FirstStop(pages + later);
    assert k' <= k;
    assert (pages + later)[k'] == pages[k'];
    assert k <= k';
    assert (pages + later)[..k + 1] == pages[..k + 1];
  }

  /** An empty catalog: a first page with no entries and nothing more. */
  lemma PaginateEmptyCatalog(pages: seq<PageFetch>)
    requires |pages| > 0 && pages[0].Ok?
    requires pages[0].value.illustrations == [] && !pages[0].value.hasMore
    ensures Terminates(pages) && Paginate(pages) == Ok([])
  {
    assert Stops(pages[0]);
    assert FirstStop(pages) == 0;
    assert pages[..1] == [pages[0]];
    assert Collected([pages[0]]) == Collected([]) + Entries(pages[0]) by {
      assert [pages[0]][..0] == [];
    }
  }

  // ---------------------------------------------------------------------
  // Identifier assignment and sorting (getIllustrations, second part)

  // What is said about the entries and their identifiers below holds for
  // any naming function `nameOf`; the source derives identifiers with
  // kebabCase, and the methods instantiate `nameOf` with KebabCase.

  /** The entry with `id` set to the name derived from its title. */
  function WithId(e: Illustration, nameOf: string -> string): Illustration
  {
    e.(id := nameOf(e.title))
  }

  function WithIds(s: seq<Illustration>, nameOf: string -> string): (r: seq<Illustration>)
    ensures |r| == |s|
    ensures forall i :: 0 <= i < |s| ==> r[i] == WithId(s[i], nameOf)
  {
    seq(|s|, i requires 0 <= i < |s| => WithId(s[i], nameOf))
  }

  /** Non-decreasing by identifier. */
  predicate SortedById(s: seq<Illustration>) {
    forall i, j :: 0 <= i < j < |s| ==> NotAfter(s[i].id, s[j].id)
  }

  predicate NeighboursSortedById(s: seq<Illustration>) {
    forall i :: 0 < i < |s| ==> NotAfter(s[i - 1].id, s[i].id)
  }

  lemma {:induction false} NeighboursSorted(s: seq<Illustration>)
    requires NeighboursSortedById(s)
    ensures SortedById(s)
    decreases |s|
  {
    if |s| > 1 {
      var t := s[..|s| - 1];
      NeighboursSorted(t);
      forall i | 0 <= i < |s| - 1 ensures NotAfter(s[i].id, s[|s| - 1].id) {
        if i < |s| - 2 {
          assert NotAfter(t[i].id, t[|s| - 2].id);
          NotAfterTransitive(s[i].id, s[|s| - 2].id, s[|s| - 1].id);
        }
      }
    }
  }

  /** Overwrites, in place, every entry's `id` with the name `nameOf`
      derives from its title; GetIllustrations passes KebabCase. */
  method AssignIds(a: array<Illustration>, nameOf: string -> string)
    modifies a
    ensures a[..] == WithIds(old(a[..]), nameOf)
  {
    ghost var before := a[..];
    for inx := 0 to a.Length
      invariant forall j :: 0 <= j < inx ==> a[j] == WithId(before[j], nameOf)
      invariant forall j :: inx <= j < a.Length ==> a[j] == before[j]
    {
      a[inx] := a[inx].(id := nameOf(a[inx].title));
    }
  }

  /** `sort.Slice` by identifier: the array ends up a non-decreasing
      permutation of what it held. The order of equal identifiers is not
      specified, as with the unstable sort of the source. */
  method SortById(a: array<Illustration>)
    modifies a
    ensures SortedById(a[..])
    ensures multiset(a[..]) == multiset(old(a[..]))
  {
    if a.Length == 0 {
      return;
    }
    var i := 1;
    while i < a.Length
      invariant 1 <= i <= a.Length
      invariant NeighboursSortedById(a[..i])
      invariant multiset(a[..]) == multiset(old(a[..]))
    {
      InsertLast(a, i);
      i := i + 1;
    }
    NeighboursSorted(a[..]);
  }

  /** One insertion step: the element at `i` sinks into the sorted prefix. */
  method InsertLast(a: array<Illustration>, i: nat)
    requires i < a.Length
    requires NeighboursSortedById(a[..i])
    modifies a
    ensures NeighboursSortedById(a[..i + 1])
    ensures multiset(a[..]) == multiset(old(a[..]))
    ensures forall k :: i < k < a.Length ==> a[k] == old(a[k])
  {
    var j := i;
    while j > 0 && Less(a[j].id, a[j - 1].id)
      invariant 0 <= j <= i
      invariant forall k :: 0 < k <= i && k != j ==> NotAfter(a[k - 1].id, a[k].id)
      invariant 0 < j < i ==> NotAfter(a[j - 1].id, a[j + 1].id)
      invariant multiset(a[..]) == multiset(old(a[..]))
      invariant forall k :: i < k < a.Length ==> a[k] == old(a[k])
    {
      LessAsymmetric(a[j].id, a[j - 1].id);
      Swap(a, j - 1, j);
      j := j - 1;
    }
  }

  method Swap(a: array<Illustration>, i: nat, j: nat)
    requires i < j < a.Length
    modifies a
    ensures a[i] == old(a[j]) && a[j] == old(a[i])
    ensures forall k :: 0 <= k < a.Length && k != i && k != j ==> a[k] == old(a[k])
    ensures multiset(a[..]) == multiset(old(a[..]))
  {
    a[i], a[j] := a[j], a[i];
  }

  /** The request loop of getIllustrations: append each page's entries
      until a page says there are no more; a failing page ends the run. */
  method FetchPages(pages: seq<PageFetch>) returns (r: Result<seq<Illustration>>)
    requires Terminates(pages)
    ensures r == Paginate(pages)
  {
    var illustrations: seq<Illustration> := [];
    var inx := 0;
    while true
      invariant inx <= FirstStop(pages)
      invariant illustrations == Collected(pages[..inx])
      decreases FirstStop(pages) - inx
    {
      var page := pages[inx];
      if page.Err? {
        return Err(page.error);
      }
      assert pages[..inx + 1][..inx] == pages[..inx];
      illustrations := illustrations + page.value.illustrations;
      if !page.value.hasMore {
        return Ok(illustrations);
      }
      inx := inx + 1;
    }
  }

  /** getIllustrations: request pages until one says there are no more,
      derive every identifier, and sort by identifier. */
  method GetIllustrations(pages: seq<PageFetch>) returns (r: Result<seq<Illustration>>)
    requires Terminates(pages)
    ensures r.Err? <==> Paginate(pages).Err?
    ensures r.Err? ==> r.error == Paginate(pages).error
    ensures r.Ok? ==> SortedById(r.value)
    ensures r.Ok? ==> multiset(r.value) == multiset(WithIds(Paginate(pages).value, KebabCase))
  {
    var collected := FetchPages(pages);
    if collected.Err? {
      return collected;
    }
    var illustrations := collected.value;
    var a := new Illustration[|illustrations|](i requires 0 <= i < |illustrations| => illustrations[i]);
    assert a[..] == illustrations;
    AssignIds(a, KebabCase);
    SortById(a);
    r := Ok(a[..]);
  }

  /** After collection every entry carries the identifier of its title. */
  lemma SortedEntriesHaveIds(pages: seq<PageFetch>, s: seq<Illustration>, nameOf: string -> string)
    requires Terminates(pages) && Paginate(pages).Ok?
    requires multiset(s) == multiset(WithIds(Paginate(pages).value, nameOf))
    ensures |s| == |Paginate(pages).value|
    ensures forall e :: e in s ==> e.id == nameOf(e.title)
  {
    var w := WithIds(Paginate(pages).value, nameOf);
    assert |s| == |multiset(s)| == |multiset(w)| == |w|;
    forall e | e in s ensures e.id == nameOf(e.title) {
      assert e in multiset(s);
      assert e in multiset(w);
      assert e in w;
    }
  }
}
