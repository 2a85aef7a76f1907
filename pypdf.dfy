/** `reduce_pdf_with_pypdf`: every page of the document is handed to the
    writer in order; on the selected pages every image XObject that is not
    already JPEG (unless recompression is forced) is re-encoded, and the
    re-encoding is kept only when it is strictly shorter than the image's
    decoded data. Decoding a stream and encoding an image are inputs of the
    model. */
module Pypdf {

  import opened Wrappers
  import opened Settings

  /** A dictionary entry as far as the loop looks at it: a name object
      such as `/Image`, or anything else. */
  datatype Value = Name(name: string) | OtherValue

  /** An XObject stream: its `/Subtype`, `/Filter` and `/ColorSpace` entries
      (absent when `None`) and its stored, still encoded, bytes. */
  datatype XObject = XObject(subtype: Option<Value>, filter: Option<Value>,
                             colorSpace: Option<Value>, data: seq<byte>)

  /** An entry of a page's `/XObject` resource dictionary. */
  datatype Named = Named(name: string, obj: XObject)

  /** A page: the entries of its `/XObject` resources, `None` when the page
      has no resources or they hold no `/XObject`, and the rest of the page,
      which the loop never touches. */
  datatype Page = Page(xobjects: Option<seq<Named>>, contents: seq<byte>)

  /** What the loop needs besides the document: the JPEG quality, whether
      JPEG images are recompressed, the stream decoder (`get_data`, `None`
      when it raises) and the image encoder (`None` when Pillow raises,
      after which `compress_image` hands back its input). */
  datatype Codec = Codec(quality: int, recompress: bool,
                         decode: XObject -> Option<seq<byte>>,
                         encode: (seq<byte>, int) -> Option<seq<byte>>)

  const ImageName := "/Image"
  const JpegName := "/DCTDecode"
  const CmykName := "/DeviceCMYK"

  /** `compress_image`: the encoding of `data`, or `data` itself when the
      encoder fails. */
  function CompressImage(c: Codec, data: seq<byte>): (r: seq<byte>)
    ensures c.encode(data, c.quality).None? ==> r == data
  {
    match c.encode(data, c.quality)
    case None => data
    case Some(out) => out
  }

  /** Whether the loop works on this XObject: an image, and not already
      JPEG unless recompression is forced. */
  predicate Eligible(c: Codec, x: XObject) {
    x.subtype == Some(Name(ImageName)) && !(x.filter == Some(Name(JpegName)) && !c.recompress)
  }

  /** An image with new JPEG data: the filter becomes `/DCTDecode` and a
      `/DeviceCMYK` colour space is dropped. */
  function Recompressed(x: XObject, data: seq<byte>): XObject {
    x.(filter := Some(Name(JpegName)), data := data,
       colorSpace := if x.colorSpace == Some(Name(CmykName)) then None else x.colorSpace)
  }

  /** One XObject of a selected page: `None` when reading its data raises
      (which ends the page's work), otherwise the XObject as the loop leaves
      it. */
  function ProcessXObject(c: Codec, x: XObject): Option<XObject> {
    if !Eligible(c, x) then Some(x)
    else match c.decode(x)
      case None => None
      case Some(data) =>
        var out := CompressImage(c, data);
        if |out| < |data| then Some(Recompressed(x, out)) else Some(x)
  }

  /** The entries from `i` on, worked through in order; the first one whose
      data cannot be read stops the work, and it and every later entry stay
      as they are. */
  function ProcessFrom(c: Codec, xs: seq<Named>, i: nat): (r: seq<Named>)
    requires i <= |xs|
    ensures |r| == |xs| - i
    decreases |xs| - i
  {
    if i == |xs| then []
    else match ProcessXObject(c, xs[i].obj)
      case None => xs[i..]
      case Some(y) => [Named(xs[i].name, y)] + ProcessFrom(c, xs, i + 1)
  }

  /** One selected page: its XObjects worked through, nothing else changed. */
  function ProcessPage(c: Codec, p: Page): Page {
    if p.xobjects.None? then p
    else p.(xobjects := Some(ProcessFrom(c, p.xobjects.value, 0)))
  }

  /** Whether the page at 1-based position `idx` is compressed: every page
      when no selection is given, else the selected ones. */
  predicate Selected(pages: Option<set<int>>, idx: int) {
    pages.None? || idx in pages.value
  }

  /** The page at 0-based index `i` as the writer receives it. */
  function OutputPage(c: Codec, pages: Option<set<int>>, doc: seq<Page>, i: nat): Page
    requires i < |doc|
  {
    if Selected(pages, i + 1) then ProcessPage(c, doc[i]) else doc[i]
  }

  /** The number of selected positions among 1 to `n`. */
  function CompressedCount(pages: Option<set<int>>, n: nat): (k: nat)
    ensures k <= n
  {
    if n == 0 then 0
    else CompressedCount(pages, n - 1) + (if Selected(pages, n) then 1 else 0)
  }

  /** PyPDF2's `PdfWriter`, as far as the loop uses it: the pages added so
      far. */
  class Writer {
    var pages: seq<Page>

    constructor ()
      ensures pages == []
    {
      pages := [];
    }

    method AddPage(p: Page)
      modifies this
      ensures pages == old(pages) + [p]
    {
      pages := pages + [p];
    }
  }

  /** The body of the XObject loop for one entry: `None` when reading the
      image data raises, else the entry as the loop leaves it. */
  method CompressEntry(c: Codec, e: Named) returns (r: Option<Named>)
    ensures r.None? <==> ProcessXObject(c, e.obj).None?
    ensures r.Some? ==> r.value == Named(e.name, ProcessXObject(c, e.obj).value)
  {
    var x := e.obj;
    if !Eligible(c, x) {
      return Some(e);
    }
    var data := c.decode(x);
    if data.None? {
      return None;
    }
    var newData := CompressImage(c, data.value);
    if |newData| < |data.value| {
      return Some(Named(e.name, Recompressed(x, newData)));
    }
    return Some(e);
  }

  /** The XObject loop of one selected page: each entry is updated in
      place; when reading an entry's data raises, the rest of the page is
      skipped and what was done so far stays done. */
  method CompressPage(c: Codec, page: Page) returns (r: Page)
    ensures r == ProcessPage(c, page)
  {
    if page.xobjects.None? {
      return page;
    }
    var xs := page.xobjects.value;
    var out := xs;
    var i := 0;
    assert out[..0] + ProcessFrom(c, xs, 0) == ProcessFrom(c, xs, 0);
    while i < |xs|
      invariant 0 <= i <= |xs| && |out| == |xs|
      invariant out[..i] + ProcessFrom(c, xs, i) == ProcessFrom(c, xs, 0)
      invariant out[i..] == xs[i..]
    {
      var e := CompressEntry(c, xs[i]);
      if e.None? {
        StopDone(c, out, xs, i);
        return page.(xobjects := Some(out));
      }
      StepDone(c, out, xs, i, e.value);
      out := out[i := e.value];
      i := i + 1;
    }
    AllDone(c, out, xs);
    return page.(xobjects := Some(out));
  }

  /** When the entry at `i` cannot be read, the entries done so far and the
      untouched rest are the page's result. */
  lemma StopDone(c: Codec, out: seq<Named>, xs: seq<Named>, i: nat)
    requires i < |xs| == |out| && out[i..] == xs[i..]
    requires out[..i] + ProcessFrom(c, xs, i) == ProcessFrom(c, xs, 0)
    requires ProcessXObject(c, xs[i].obj).None?
    ensures out == ProcessFrom(c, xs, 0)
  {
    assert ProcessFrom(c, xs, i) == xs[i..];
    assert out == out[..i] + out[i..];
  }

  /** Once every entry is done, the entries are the page's result. */
  lemma AllDone(c: Codec, out: seq<Named>, xs: seq<Named>)
    requires |xs| == |out|
    requires out[..|xs|] + ProcessFrom(c, xs, |xs|) == ProcessFrom(c, xs, 0)
    ensures out == ProcessFrom(c, xs, 0)
  {
    assert out[..|xs|] == out;
  }

  /** One step of `CompressPage` keeps its invariants. */
  lemma StepDone(c: Codec, out: seq<Named>, xs: seq<Named>, i: nat, e: Named)
    requires i < |xs| == |out| && out[i..] == xs[i..]
    requires out[..i] + ProcessFrom(c, xs, i) == ProcessFrom(c, xs, 0)
    requires ProcessXObject(c, xs[i].obj).Some?
    requires e == Named(xs[i].name, ProcessXObject(c, xs[i].obj).value)
    ensures var next := out[i := e];
            && next[..i + 1] + ProcessFrom(c, xs, i + 1) == ProcessFrom(c, xs, 0)
            && next[i + 1..] == xs[i + 1..]
  {
    var next := out[i := e];
    assert next[..i + 1] == out[..i] + [e];
    assert ProcessFrom(c, xs, i) == [e] + ProcessFrom(c, xs, i + 1);
    assert next[i + 1..] == out[i + 1..];
    assert out[i + 1..] == out[i..][1..];
  }

  /** `reduce_pdf_with_pypdf`: the pages the writer receives, in order, and
      the two counters. */
  method ReducePdfWithPypdf(doc: seq<Page>, percent: int, pages: Option<set<int>>,
                            recompress: bool, decode: XObject -> Option<seq<byte>>,
                            encode: (seq<byte>, int) -> Option<seq<byte>>)
    returns (out: seq<Page>, compressed: nat, skipped: nat)
    ensures var c := Codec(CalculateTargetQuality(percent), recompress, decode, encode);
            |out| == |doc| && forall i :: 0 <= i < |doc| ==> out[i] == OutputPage(c, pages, doc, i)
    ensures compressed == CompressedCount(pages, |doc|)
    ensures compressed + skipped == |doc|
  {
    var c := Codec(CalculateTargetQuality(percent), recompress, decode, encode);
    var writer := new Writer();
    compressed, skipped := 0, 0;
    var idx := 0;
    while idx < |doc|
      invariant 0 <= idx <= |doc| && |writer.pages| == idx
      invariant forall i :: 0 <= i < idx ==> writer.pages[i] == OutputPage(c, pages, doc, i)
      invariant compressed == CompressedCount(pages, idx) && compressed + skipped == idx
    {
      var page := doc[idx];
      if Selected(pages, idx + 1) {
        compressed := compressed + 1;
        page := CompressPage(c, page);
      } else {
        skipped := skipped + 1;
      }
      writer.AddPage(page);
      idx := idx + 1;
    }
    out := writer.pages;
  }

  // ---------------------------------------------------------------------
  // Properties of one XObject

  /** Anything that is not an image, and a JPEG image unless recompression is
      forced, is left exactly as it is, and reading it cannot fail. */
  lemma SkippedUnchanged(c: Codec, x: XObject)
    requires x.subtype != Some(Name(ImageName)) || (x.filter == Some(Name(JpegName)) && !c.recompress)
    ensures ProcessXObject(c, x) == Some(x)
  {
  }

  /** An image whose data cannot be read stops the work on its page. */
  lemma UnreadableStops(c: Codec, x: XObject)
    requires Eligible(c, x) && c.decode(x).None?
    ensures ProcessXObject(c, x).None?
  {
  }

  /** For an image that is worked on, the re-encoding replaces the stored
      data exactly when it is strictly shorter than the decoded data; the
      replacement is marked as JPEG and loses a CMYK colour space, and
      nothing else about the image changes. */
  lemma ReplacedIffShorter(c: Codec, x: XObject, data: seq<byte>)
    requires Eligible(c, x) && c.decode(x) == Some(data)
    ensures var out := CompressImage(c, data);
            var r := ProcessXObject(c, x);
            && r.Some?
            && (|out| < |data| ==>
                 && r.value.data == out
                 && r.value.filter == Some(Name(JpegName))
                 && r.value.subtype == x.subtype
                 && (x.colorSpace == Some(Name(CmykName)) ==> r.value.colorSpace.None?)
                 && (x.colorSpace != Some(Name(CmykName)) ==> r.value.colorSpace == x.colorSpace))
            && (|out| >= |data| ==> r.value == x)
  {
  }

  /** When the encoder fails, `compress_image` hands back the decoded data,
      which is never strictly shorter than itself: the image is kept. */
  lemma EncoderFailureKeepsImage(c: Codec, x: XObject, data: seq<byte>)
    requires c.decode(x) == Some(data) && c.encode(data, c.quality).None?
    ensures ProcessXObject(c, x) == Some(x)
  {
  }

  /** Without forced recompression, working on an XObject twice changes
      nothing more: a replaced image is now JPEG and is skipped, and a kept
      one is decoded and encoded to the same result again. */
  lemma ProcessXObjectIdempotent(c: Codec, x: XObject)
    requires !c.recompress
    ensures ProcessXObject(c, x).Some? ==> ProcessXObject(c, ProcessXObject(c, x).value) == ProcessXObject(c, x)
  {
    var r := ProcessXObject(c, x);
    if r.Some? && r.value != x {
      assert r.value.filter == Some(Name(JpegName));
    }
  }

  // ---------------------------------------------------------------------
  // Properties of one page

  /** The index of the first entry from `i` on whose data cannot be read,
      or `|xs|` when there is none. */
  function StopIndex(c: Codec, xs: seq<Named>, i: nat): (j: nat)
    requires i <= |xs|
    ensures i <= j <= |xs|
    ensures j < |xs| ==> ProcessXObject(c, xs[j].obj).None?
    ensures forall k :: i <= k < j ==> ProcessXObject(c, xs[k].obj).Some?
    decreases |xs| - i
  {
    if i == |xs| || ProcessXObject(c, xs[i].obj).None? then i else StopIndex(c, xs, i + 1)
  }

  /** The work on a page keeps every entry's name and place; the entries
      before the first unreadable one are each worked on, and it and all
      later ones stay as they are. */
  lemma {:induction false} ProcessFromSplits(c: Codec, xs: seq<Named>, i: nat)
    requires i <= |xs|
    ensures var r := ProcessFrom(c, xs, i);
            var j := StopIndex(c, xs, i);
            && (forall k :: i <= k < |xs| ==> r[k - i].name == xs[k].name)
            && (forall k :: i <= k < j ==> ProcessXObject(c, xs[k].obj) == Some(r[k - i].obj))
            && (forall k :: j <= k < |xs| ==> r[k - i] == xs[k])
  {
    forall k | i <= k < |xs|
      ensures var r := ProcessFrom(c, xs, i);
              && r[k - i].name == xs[k].name
              && (k < StopIndex(c, xs, i) ==> ProcessXObject(c, xs[k].obj) == Some(r[k - i].obj))
              && (StopIndex(c, xs, i) <= k ==> r[k - i] == xs[k])
    {
      ProcessFromAt(c, xs, i, k);
    }
  }

  /** `ProcessFromSplits` for the entry at `k`. */
  lemma {:induction false} ProcessFromAt(c: Codec, xs: seq<Named>, i: nat, k: nat)
    requires i <= k < |xs|
    ensures var r := ProcessFrom(c, xs, i);
            var j := StopIndex(c, xs, i);
            && r[k - i].name == xs[k].name
            && (k < j ==> ProcessXObject(c, xs[k].obj) == Some(r[k - i].obj))
            && (j <= k ==> r[k - i] == xs[k])
    decreases k - i
  {
    match ProcessXObject(c, xs[i].obj)
    case None =>
      assert ProcessFrom(c, xs, i) == xs[i..];
    case Some(y) =>
      if k > i {
        ProcessFromAt(c, xs, i + 1, k);
        assert ProcessFrom(c, xs, i)[k - i] == ProcessFrom(c, xs, i + 1)[k - (i + 1)];
      }
  }

  /** Without forced recompression, working on a page twice changes nothing
      more. */
  lemma {:induction false} ProcessFromIdempotent(c: Codec, xs: seq<Named>, i: nat)
    requires !c.recompress && i <= |xs|
    ensures ProcessFrom(c, ProcessFrom(c, xs, i), 0) == ProcessFrom(c, xs, i)
    decreases |xs| - i
  {
    var r := ProcessFrom(c, xs, i);
    if i < |xs| {
      match ProcessXObject(c, xs[i].obj)
      case None =>
        assert r == xs[i..] && r[0] == xs[i];
        assert ProcessFrom(c, r, 0) == r;
      case Some(y) =>
        ProcessXObjectIdempotent(c, xs[i].obj);
        ProcessFromIdempotent(c, xs, i + 1);
        var rest := ProcessFrom(c, xs, i + 1);
        assert r[0] == Named(xs[i].name, y) && r[1..] == rest;
        ShiftedFrom(c, r, rest);
    }
  }

  /** Working from index 1 on is working on the tail. */
  lemma {:induction false} ShiftedFrom(c: Codec, r: seq<Named>, rest: seq<Named>)
    requires |r| >= 1 && r[1..] == rest
    ensures ProcessFrom(c, r, 1) == ProcessFrom(c, rest, 0)
  {
    ShiftedFromAt(c, r, rest, 0);
  }

  lemma {:induction false} ShiftedFromAt(c: Codec, r: seq<Named>, rest: seq<Named>, k: nat)
    requires |r| >= 1 && r[1..] == rest && k <= |rest|
    ensures ProcessFrom(c, r, k + 1) == ProcessFrom(c, rest, k)
    decreases |rest| - k
  {
    if k < |rest| {
      assert r[k + 1] == rest[k];
      ShiftedFromAt(c, r, rest, k + 1);
      assert r[k + 1..] == rest[k..];
    }
  }

  /** Without forced recompression, compressing a page a second time
      changes nothing more. */
  lemma ProcessPageIdempotent(c: Codec, p: Page)
    requires !c.recompress
    ensures ProcessPage(c, ProcessPage(c, p)) == ProcessPage(c, p)
  {
    if p.xobjects.Some? {
      ProcessFromIdempotent(c, p.xobjects.value, 0);
    }
  }

  // ---------------------------------------------------------------------
  // Properties of the document

  /** A page reaches the writer with its contents untouched and with as
      many XObject entries as it had; an unselected page reaches it exactly
      as it was read. */
  lemma OutputPageShape(c: Codec, pages: Option<set<int>>, doc: seq<Page>, i: nat)
    requires i < |doc|
    ensures var p := OutputPage(c, pages, doc, i);
            && p.contents == doc[i].contents
            && p.xobjects.Some? == doc[i].xobjects.Some?
            && (p.xobjects.Some? ==> |p.xobjects.value| == |doc[i].xobjects.value|)
            && (!Selected(pages, i + 1) ==> p == doc[i])
  {
  }

  /** The selected positions up to `n`. */
  function SelectedUpTo(s: set<int>, n: nat): set<int> {
    set k | k in s && 1 <= k <= n
  }

  /** With a selection, the count is the number of selected page numbers
      that exist in the document; numbers below 1 or past the end count for
      nothing. */
  lemma {:induction false} CompressedCountIsSize(s: set<int>, n: nat)
    ensures CompressedCount(Some(s), n) == |SelectedUpTo(s, n)|
  {
    if n > 0 {
      CompressedCountIsSize(s, n - 1);
      if n in s {
        assert SelectedUpTo(s, n) == SelectedUpTo(s, n - 1) + {n};
      } else {
        assert SelectedUpTo(s, n) == SelectedUpTo(s, n - 1);
      }
    } else {
      assert SelectedUpTo(s, 0) == {};
    }
  }

  /** Without a selection every page is compressed. */
  lemma {:induction false} CompressedCountAll(n: nat)
    ensures CompressedCount(None, n) == n
  {
    if n > 0 {
      CompressedCountAll(n - 1);
    }
  }

  /** An empty selection compresses nothing: every page reaches the writer
      as it was read. */
  lemma EmptySelectionKeepsAll(c: Codec, doc: seq<Page>, i: nat)
    requires i < |doc|
    ensures OutputPage(c, Some({}), doc, i) == doc[i]
    ensures CompressedCount(Some({}), |doc|) == 0
  {
    CompressedCountIsSize({}, |doc|);
    assert SelectedUpTo({}, |doc|) == {};
  }
}
