/** `reduce_pdf_size`: the input checks, the choice between Ghostscript and
    PyPDF2, and the fall back to PyPDF2 when Ghostscript fails. Which files
    exist, whether `gs` is installed, whether a Ghostscript run succeeds and
    the PyPDF2 codec are inputs of the model. */
module Reducer {

  import opened Wrappers
  import opened Settings
  import Ghostscript
  import Pypdf

  const PercentMessage := "Percent must be between 0 and 100"

  /** A page selection is truthy when it is given and not empty. */
  predicate PagesGiven(pages: Option<set<int>>) {
    pages.Some? && pages.value != {}
  }

  /** The `use_gs` decision: never with selected pages; with the
      `ghostscript` method whenever `gs` is installed; with the `auto`
      method when `gs` is installed and at least 35 percent is asked for;
      never with any other method. */
  function UseGhostscript(pages: Option<set<int>>, methodName: string, available: bool,
                          percent: int): bool
  {
    if PagesGiven(pages) then false
    else if methodName == "ghostscript" then available
    else if methodName == "auto" then available && percent >= 35
    else false
  }

  /** What one call did, once the input checks passed: Ghostscript wrote the
      output with `cmd`, or PyPDF2 wrote `written`, compressing the pages of
      `selection`, after the failed Ghostscript command `failed` if there
      was one. */
  datatype Outcome =
    | ByGhostscript(cmd: seq<string>)
    | ByPypdf(failed: Option<seq<string>>, selection: Option<set<int>>, written: seq<Pypdf.Page>)

  /** `reduce_pdf_size`: a missing input is refused first, then a percent
      outside [0, 100]; then Ghostscript runs when `use_gs` holds, and
      PyPDF2 runs otherwise or, on the whole document, when Ghostscript
      fails. */
  method ReducePdfSize(existing: set<string>, input: string, output: string, percent: int,
                       methodName: string, pages: Option<set<int>>, dpi: Option<int>,
                       jpegq: Option<int>, pdfsettings: Option<string>, recompress: bool,
                       available: bool, run: seq<string> -> bool, doc: seq<Pypdf.Page>,
                       decode: Pypdf.XObject -> Option<seq<byte>>,
                       encode: (seq<byte>, int) -> Option<seq<byte>>)
    returns (r: Result<Outcome>)
    ensures input !in existing ==> r == Err(FileNotFound(input))
    ensures input in existing && !(0 <= percent <= 100) ==> r == Err(InvalidValue(PercentMessage))
    ensures input in existing && 0 <= percent <= 100 ==> r.Ok?
    ensures r.Ok? ==>
              var o := r.value;
              var useGs := UseGhostscript(pages, methodName, available, percent);
              var cmd := Ghostscript.Command(input, output, percent, dpi, jpegq, pdfsettings);
              && (o.ByGhostscript? <==> useGs && run(cmd))
              && (o.ByGhostscript? ==> o.cmd == cmd)
              && (o.ByPypdf? ==> o.failed == (if useGs then Some(cmd) else None))
              && (o.ByPypdf? ==> o.selection == (if useGs then None else pages))
    ensures r.Ok? && r.value.ByPypdf? ==>
              var o := r.value;
              var c := Pypdf.Codec(CalculateTargetQuality(percent), recompress, decode, encode);
              && |o.written| == |doc|
              && forall i :: 0 <= i < |doc| ==> o.written[i] == Pypdf.OutputPage(c, o.selection, doc, i)
  {
    if input !in existing {
      return Err(FileNotFound(input));
    }
    if !(0 <= percent <= 100) {
      return Err(InvalidValue(PercentMessage));
    }
    var useGs := UseGhostscript(pages, methodName, available, percent);
    if useGs && !PagesGiven(pages) {
      var ok, ran := Ghostscript.ReducePdfWithGhostscript(input, output, percent, dpi, jpegq,
                                                          pdfsettings, available, run);
      if ok {
        return Ok(ByGhostscript(ran.value));
      }
      var written, _, _ := Pypdf.ReducePdfWithPypdf(doc, percent, None, recompress, decode, encode);
      return Ok(ByPypdf(ran, None, written));
    }
    var written, _, _ := Pypdf.ReducePdfWithPypdf(doc, percent, pages, recompress, decode, encode);
    return Ok(ByPypdf(None, pages, written));
  }

  // ---------------------------------------------------------------------
  // Properties of the decision

  /** Selected pages always mean PyPDF2, so the second look at `pages`
      before running Ghostscript never changes the outcome. */
  lemma SelectedPagesMeanPypdf(pages: Option<set<int>>, methodName: string, available: bool,
                               percent: int)
    requires PagesGiven(pages)
    ensures !UseGhostscript(pages, methodName, available, percent)
  {
  }

  /** Without selected pages, the `ghostscript` method uses Ghostscript
      exactly when it is installed. */
  lemma ForcedGhostscriptIffAvailable(pages: Option<set<int>>, available: bool, percent: int)
    requires !PagesGiven(pages)
    ensures UseGhostscript(pages, "ghostscript", available, percent) <==> available
  {
  }

  /** Without selected pages, the `auto` method uses Ghostscript exactly when
      it is installed and at least 35 percent is asked for. */
  lemma AutoThreshold(pages: Option<set<int>>, available: bool, percent: int)
    requires !PagesGiven(pages)
    ensures UseGhostscript(pages, "auto", available, percent) <==> available && percent >= 35
  {
  }

  /** Any other method means PyPDF2. */
  lemma OtherMethodMeansPypdf(pages: Option<set<int>>, methodName: string, available: bool,
                              percent: int)
    requires methodName != "ghostscript" && methodName != "auto"
    ensures !UseGhostscript(pages, methodName, available, percent)
  {
  }

  /** Ghostscript is only ever chosen when it is installed, and under `auto`
      asking for more reduction never switches from Ghostscript back to
      PyPDF2. */
  lemma GhostscriptNeedsAvailability(pages: Option<set<int>>, methodName: string, available: bool,
                                     p1: int, p2: int)
    requires p1 <= p2
    ensures UseGhostscript(pages, methodName, available, p1) ==> available
    ensures UseGhostscript(pages, methodName, available, p1)
            ==> UseGhostscript(pages, methodName, available, p2)
  {
  }

  /** An empty selection is falsy: the decision is the one for no selection
      at all. */
  lemma EmptySelectionIsNoSelection(methodName: string, available: bool, percent: int)
    ensures UseGhostscript(Some({}), methodName, available, percent)
            == UseGhostscript(None, methodName, available, percent)
  {
  }
}
