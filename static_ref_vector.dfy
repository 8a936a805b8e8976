/**
 * `StaticRefVector`: the reference map from string ids to entries. Its
 * capacity is fixed when it is built; elements live on pages of
 * `ELEMENTS_PER_PAGE` slots that are created on first use.
 */
module StaticRefVectors {
  import opened Wrappers
  import opened Bytes
  import opened StringIds
  import opened StringEntries

  /** `ELEMENTS_PER_PAGE`: 64 KiB of pointers, 65536 / 8. */
  const ElementsPerPage: nat := 8192

  /** `size_of::<UnsafeCell<Option<Page<T>>>>()`: a nullable box is one pointer. */
  const PageSlotSize: nat := PointerSize

  /** `size_of::<Option<*const T>>()`: a raw pointer has no niche, so a tag word is added. */
  const ElementSize: nat := 2 * PointerSize

  /** `page_index`. */
  function PageIndex(index: nat): nat
  {
    index / ElementsPerPage
  }

  /** `element_index`. */
  function ElementIndex(index: nat): nat
  {
    index % ElementsPerPage
  }

  /** Every index has exactly one page and one slot on it. */
  lemma PageAndElement(index: nat)
    ensures ElementIndex(index) < ElementsPerPage
    ensures PageIndex(index) * ElementsPerPage + ElementIndex(index) == index
  {
  }

  /** The page slots `new(capacity)` creates: capacity over the page size, rounded up. */
  function NeededPages(capacity: nat): (r: nat)
    ensures r * ElementsPerPage >= capacity
    ensures r > 0 ==> (r - 1) * ElementsPerPage < capacity
  {
    (capacity + ElementsPerPage - 1) / ElementsPerPage
  }

  /** A page with nothing stored on it. */
  function EmptyPage<T>(): (r: seq<Option<T>>)
    ensures |r| == ElementsPerPage && forall e :: 0 <= e < ElementsPerPage ==> r[e] == None
  {
    seq(ElementsPerPage, _ => None)
  }

  class StaticRefVector<T> {
    /** The page slots; a page is created on first use. */
    var pages: seq<Option<seq<Option<T>>>>
    /** The number of elements pushed. */
    var len: nat
    /** The elements pushed, in order. */
    ghost var elements: seq<T>

    /**
     * Element `i` sits on page `page_index(i)` at slot `element_index(i)`;
     * exactly the pages holding an element exist, and their other slots are
     * empty.
     */
    ghost predicate Valid()
      reads this
    {
      VecOk(pages, len, elements)
    }

    constructor Init(n: nat)
      ensures Valid() && pages == seq(n, _ => None) && len == 0 && elements == []
    {
      pages := seq(n, _ => None);
      len := 0;
      elements := [];
    }

    /** `new(capacity)`: empty page slots for `capacity` elements, reported as their size and one chunk. */
    static method New(capacity: nat) returns (v: StaticRefVector<T>, used: nat, chunks: nat)
      ensures fresh(v) && v.Valid() && v.len == 0 && v.elements == []
      ensures |v.pages| == NeededPages(capacity) && v.Capacity() >= capacity
      ensures used == PageSlotSize * NeededPages(capacity) && chunks == 1
    {
      var needed := (capacity + ElementsPerPage - 1) / ElementsPerPage;
      v := new StaticRefVector<T>.Init(needed);
      used, chunks := PageSlotSize * needed, 1;
    }

    /** The number of elements the page slots can hold. */
    function Capacity(): nat
      reads this
    {
      |pages| * ElementsPerPage
    }

    /** `len()`. */
    function Len(): (r: nat)
      reads this
      requires Valid()
      ensures r == |elements|
    {
      len
    }

    /** `is_empty()`. */
    function IsEmpty(): (r: bool)
      reads this
      requires Valid()
      ensures r <==> elements == []
    {
      len == 0
    }

    /** `num_pages()` as written: 0 when empty, otherwise `page_index(len) + 1`. */
    function NumPages(): nat
      reads this
    {
      if len == 0 then 0 else PageIndex(len) + 1
    }

    /** The number of pages in use: `len` over the page size, rounded up. */
    function UsedPages(): nat
      reads this
    {
      (len + ElementsPerPage - 1) / ElementsPerPage
    }

    /** Exactly the first `UsedPages()` page slots hold a page. */
    lemma UsedPagesExist(p: nat)
      requires Valid() && p < |pages|
      ensures pages[p].Some? <==> p < UsedPages()
    {
      assert PageOkIn(pages, len, p);
    }

    /**
     * When `len` is a positive multiple of the page size, `num_pages()`
     * counts one page more than exist: the one it counts last was never
     * created.
     */
    lemma NumPagesOvercounts()
      requires Valid() && len > 0 && len % ElementsPerPage == 0
      ensures NumPages() == UsedPages() + 1
      ensures NumPages() - 1 < |pages| ==> pages[NumPages() - 1] == None
    {
      if NumPages() - 1 < |pages| {
        assert PageOkIn(pages, len, NumPages() - 1);
      }
    }

    /** `get_unchecked(id)`: the element at `id.get()`, which must have been pushed. */
    function GetUnchecked(id: StringId): (r: T)
      reads this
      requires Valid() && Get(id) < len
      ensures r == elements[Get(id)]
    {
      var i := Get(id);
      assert StoredIn(pages, elements, i);
      pages[PageIndex(i)].value[ElementIndex(i)].value
    }

    /** `get(id)`: the element pushed at `id.get()`, or `None` past the end. */
    function Lookup(id: StringId): (r: Option<T>)
      reads this
      requires Valid()
      ensures r.Some? <==> Get(id) < |elements|
      ensures r.Some? ==> r.value == elements[Get(id)]
    {
      if Get(id) < len then Some(GetUnchecked(id)) else None
    }

    /** `page_or_create(index)`: the page of `index`, created (and reported) if it was missing. */
    method PageOrCreate(index: nat) returns (used: nat, chunks: nat)
      requires PageIndex(index) < |pages|
      modifies this
      ensures old(pages[PageIndex(index)]).Some? ==> pages == old(pages) && used == 0 && chunks == 0
      ensures old(pages[PageIndex(index)]).None? ==>
        pages == old(pages)[PageIndex(index) := Some(EmptyPage())] && used == ElementSize * ElementsPerPage && chunks == 1
      ensures len == old(len) && elements == old(elements)
    {
      var p := PageIndex(index);
      if pages[p].Some? {
        used, chunks := 0, 0;
      } else {
        pages := pages[p := Some(EmptyPage())];
        used, chunks := ElementSize * ElementsPerPage, 1;
      }
    }

    /**
     * `push(value)`: stores at index `len` and returns that index as a
     * `StringId`. A page is created, and reported, exactly when `len` is at
     * a page boundary. Pushing past the capacity fails the assertion in
     * `page`, and an index of `u32::MAX` overflows the id.
     */
    method Push(value: T) returns (id: StringId, used: nat, chunks: nat)
      requires Valid() && PageIndex(len) < |pages| && len < U32Max
      modifies this
      ensures Valid()
      ensures elements == old(elements) + [value] && Get(id) == old(len) && id == FromRawParts(old(len))
      ensures old(len) % ElementsPerPage == 0 ==> used == ElementSize * ElementsPerPage && chunks == 1
      ensures old(len) % ElementsPerPage != 0 ==> used == 0 && chunks == 0
      ensures |pages| == |old(pages)|
    {
      var index := len;
      var p := PageIndex(index);
      PageAndElement(index);
      assert PageOkIn(pages, len, p);
      PushOk(pages, elements, value);
      ghost var after := Pushed(pages, index, value);
      used, chunks := PageOrCreate(index);
      var e := ElementIndex(index);
      var page := pages[p].value;
      pages := pages[p := Some(page[e := Some(value)])];
      assert pages == after;
      len := index + 1;
      elements := elements + [value];
      id := FromRawParts(index);
    }
  }

  /** The pages after `push(value)` at `index`: the page created if missing, then the slot filled. */
  function Pushed<T>(pages: seq<Option<seq<Option<T>>>>, index: nat, value: T): seq<Option<seq<Option<T>>>>
    requires PageIndex(index) < |pages|
    requires pages[PageIndex(index)].Some? ==> |pages[PageIndex(index)].value| == ElementsPerPage
  {
    var p := PageIndex(index);
    var page := if pages[p].Some? then pages[p].value else EmptyPage();
    pages[p := Some(page[ElementIndex(index) := Some(value)])]
  }

  /** Page slot `p` holds a page exactly if an element lies on it, and the page's full slots are those below `len`. */
  ghost predicate PageOkIn<T>(pages: seq<Option<seq<Option<T>>>>, len: nat, p: nat)
    requires p < |pages|
  {
    (pages[p].Some? <==> p * ElementsPerPage < len)
    && (pages[p].Some? ==>
          (|pages[p].value| == ElementsPerPage
           && forall e :: 0 <= e < ElementsPerPage ==> (pages[p].value[e].Some? <==> p * ElementsPerPage + e < len)))
  }

  /** Element `i` is in slot `element_index(i)` of page `page_index(i)`. */
  ghost predicate StoredIn<T>(pages: seq<Option<seq<Option<T>>>>, elements: seq<T>, i: nat)
    requires i < |elements|
  {
    PageIndex(i) < |pages| && pages[PageIndex(i)].Some?
    && |pages[PageIndex(i)].value| == ElementsPerPage
    && pages[PageIndex(i)].value[ElementIndex(i)] == Some(elements[i])
  }

  ghost predicate VecOk<T>(pages: seq<Option<seq<Option<T>>>>, len: nat, elements: seq<T>)
  {
    |elements| == len
    && (forall p :: 0 <= p < |pages| ==> PageOkIn(pages, len, p))
    && forall i :: 0 <= i < len ==> StoredIn(pages, elements, i)
  }

  /** `push` keeps the layout: the pushed element lands in its slot and nothing else moves. */
  lemma PushOk<T>(pages: seq<Option<seq<Option<T>>>>, elements: seq<T>, value: T)
    requires VecOk(pages, |elements|, elements) && PageIndex(|elements|) < |pages|
    ensures PageIndex(|elements|) < |pages|
    ensures pages[PageIndex(|elements|)].Some? ==> |pages[PageIndex(|elements|)].value| == ElementsPerPage
    ensures VecOk(Pushed(pages, |elements|, value), |elements| + 1, elements + [value])
  {
    var index := |elements|;
    PageAndElement(index);
    assert PageOkIn(pages, index, PageIndex(index));
    var after := Pushed(pages, index, value);
    var n := index + 1;
    forall p | 0 <= p < |after|
      ensures PageOkIn(after, n, p)
    {
      PushPageOk(pages, index, value, p);
    }
    forall i | 0 <= i < index + 1
      ensures StoredIn(after, elements + [value], i)
    {
      PushStored(pages, elements, value, i);
    }
  }

  lemma PushPageOk<T>(pages: seq<Option<seq<Option<T>>>>, index: nat, value: T, p: nat)
    requires p < |pages| && PageIndex(index) < |pages|
    requires forall q :: 0 <= q < |pages| ==> PageOkIn(pages, index, q)
    ensures pages[PageIndex(index)].Some? ==> |pages[PageIndex(index)].value| == ElementsPerPage
    ensures PageOkIn(Pushed(pages, index, value), index + 1, p)
  {
    assert PageOkIn(pages, index, PageIndex(index));
    if p == PageIndex(index) {
      PushSamePage(pages, index, value);
    } else {
      PushOtherPage(pages, index, value, p);
    }
  }

  /** The page `push` writes to: its full slots now reach one further. */
  lemma PushSamePage<T>(pages: seq<Option<seq<Option<T>>>>, index: nat, value: T)
    requires PageIndex(index) < |pages| && PageOkIn(pages, index, PageIndex(index))
    ensures PageOkIn(Pushed(pages, index, value), index + 1, PageIndex(index))
  {
    var p := PageIndex(index);
    PageAndElement(index);
    var page := Pushed(pages, index, value)[p].value;
    forall e | 0 <= e < ElementsPerPage
      ensures page[e].Some? <==> p * ElementsPerPage + e < index + 1
    {
      if e != ElementIndex(index) && pages[p].Some? {
        assert pages[p].value[e].Some? <==> p * ElementsPerPage + e < index;
      }
    }
  }

  /** Any other page slot is untouched by `push`. */
  lemma PushOtherPage<T>(pages: seq<Option<seq<Option<T>>>>, index: nat, value: T, p: nat)
    requires p < |pages| && PageIndex(index) < |pages| && p != PageIndex(index)
    requires PageOkIn(pages, index, p) && PageOkIn(pages, index, PageIndex(index))
    ensures PageOkIn(Pushed(pages, index, value), index + 1, p)
  {
    if p * ElementsPerPage <= index < p * ElementsPerPage + ElementsPerPage {
      OnPage(p, index);
    }
    var page := pages[p];
    assert Pushed(pages, index, value)[p] == page;
  }

  /** An index between the bounds of page `p` lies on page `p`. */
  lemma OnPage(p: nat, index: nat)
    requires p * ElementsPerPage <= index < p * ElementsPerPage + ElementsPerPage
    ensures PageIndex(index) == p
  {
  }

  lemma PushStored<T>(pages: seq<Option<seq<Option<T>>>>, elements: seq<T>, value: T, i: nat)
    requires VecOk(pages, |elements|, elements) && PageIndex(|elements|) < |pages| && i <= |elements|
    ensures pages[PageIndex(|elements|)].Some? ==> |pages[PageIndex(|elements|)].value| == ElementsPerPage
    ensures StoredIn(Pushed(pages, |elements|, value), elements + [value], i)
  {
    var index := |elements|;
    PageAndElement(index);
    PageAndElement(i);
    assert PageOkIn(pages, index, PageIndex(index));
    if i < index {
      assert StoredIn(pages, elements, i);
    }
  }
}
