/**
 * The part of the PDF object model (pypdf's `DictionaryObject`, `ArrayObject`,
 * `IndirectObject`, stream objects) that the page patcher in app.py touches.
 */
module PdfObjects {
  import opened Results
  import opened Text

  /**
   * A PDF object. A stream is represented by its decoded data (what
   * `get_data()` gives); objects the patcher never inspects (numbers, strings,
   * booleans, null) are `Scalar`.
   */
  datatype PdfObject =
    | Name(name: string)
    | Dict(entries: map<string, PdfObject>)
    | Array(items: seq<PdfObject>)
    | Stream(data: Bytes)
    | Ref(id: nat)
    | Scalar(text: string)

  /** Indirect objects by object number. */
  type Table = map<nat, PdfObject>

  /** The ways `ensure_font` and `update_page_text` fail (each a raised exception). */
  datatype PatchError =
    | Malformed            // `/Resources` or `/Font` is not a dictionary
    | NoContents           // the page has no `/Contents`
    | UnreadableContents   // `/Contents` does not lead to streams
    | NotLatin1            // the credentials cannot be encoded as latin-1
    | PatternNotFound      // the placeholder pattern occurs nowhere

  /**
   * A page as the patcher sees it: the page dictionary, the table its indirect
   * references resolve in, and the next object number the writer hands out.
   */
  datatype PageState = PageState(entries: map<string, PdfObject>, objects: Table, nextId: nat)

  /** Every object in the table has a number below the next one to be handed out. */
  predicate ValidState(s: PageState) {
    forall id :: id in s.objects ==> id < s.nextId
  }

  /** `dict.get(key)`. */
  function Get(m: map<string, PdfObject>, key: string): (r: Option<PdfObject>)
    ensures r.Some? <==> key in m
    ensures r.Some? ==> r.value == m[key]
  {
    if key in m then Some(m[key]) else None
  }

  /** `IndirectObject.get_object()`: `None` for an object number the table does not hold. */
  function Resolve(objects: Table, id: nat): (r: Option<PdfObject>)
    ensures r.Some? <==> id in objects
    ensures r.Some? ==> r.value == objects[id]
  {
    if id in objects then Some(objects[id]) else None
  }

  /** A page dictionary the source updates in place (`PageObject`). */
  class PdfPage {
    var entries: map<string, PdfObject>

    constructor (entries: map<string, PdfObject>)
      ensures this.entries == entries
    {
      this.entries := entries;
    }
  }

  /**
   * A `PdfWriter`: the object table it adds objects to, the next object number,
   * and the pages added so far.
   */
  class PdfWriter {
    var objects: Table
    var nextId: nat
    var pages: seq<map<string, PdfObject>>

    ghost predicate Valid()
      reads this
    {
      forall id :: id in objects ==> id < nextId
    }

    /** A writer whose table starts as `objects`, with no page yet. */
    constructor (objects: Table, nextId: nat)
      requires forall id :: id in objects ==> id < nextId
      ensures Valid()
      ensures this.objects == objects && this.nextId == nextId && pages == []
    {
      this.objects := objects;
      this.nextId := nextId;
      pages := [];
    }

    /** `writer._add_object(obj)`: stores `obj` under a fresh number and refers to it. */
    method AddObject(obj: PdfObject) returns (ref: PdfObject)
      requires Valid()
      modifies this
      ensures Valid()
      ensures ref == Ref(old(nextId)) && old(nextId) !in old(objects)
      ensures objects == old(objects)[old(nextId) := obj] && nextId == old(nextId) + 1
      ensures pages == old(pages)
    {
      ref := Ref(nextId);
      objects := objects[nextId := obj];
      nextId := nextId + 1;
    }

    /** `writer.add_page(page)`. */
    method AddPage(page: map<string, PdfObject>)
      modifies this
      ensures pages == old(pages) + [page]
      ensures objects == old(objects) && nextId == old(nextId)
    {
      pages := pages + [page];
    }
  }
}
