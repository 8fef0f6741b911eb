/**
 * The `click` override: the native `HTMLAnchorElement.prototype.click` is
 * captured once when the module loads, and the installed replacement runs
 * it only when `process` reports failure.
 */
module Interceptor {
  import opened Wrappers
  import opened Anchors
  import opened Registry
  import opened BuiltinHandlers

  /**
   * Whether the captured native `click` runs for an anchor: exactly when no
   * registered handler both accepts the anchor and reports success.
   */
  function NativeClickRuns(hs: seq<Handler>, a: Anchor): (runs: bool)
    ensures runs <==> forall j :: 0 <= j < |hs| ==> !Succeeds(hs[j], a)
  {
    !Dispatch(hs, a)
  }

  /**
   * The page after the viewer has loaded: the registry it populated and the
   * calls made to the captured native `click`, in order (recorded for the
   * proof only).
   */
  class Page {
    const registry: FileHandlerRegistry
    ghost var nativeClicks: seq<Anchor>

    /**
     * Loading the viewer: the registry is created, the PDF, CSV and JSON
     * descriptors are registered in that order, and only then is the
     * override installed, before any click has happened.
     */
    constructor Load(popup: PopupPolicy)
      ensures fresh(registry)
      ensures registry.handlers == Builtins(popup)
      ensures nativeClicks == []
    {
      var r := new FileHandlerRegistry();
      r.Register(PdfCandidate());
      r.Register(CsvCandidate(popup));
      r.Register(JsonCandidate());
      BuiltinsUnfold(popup);
      registry := r;
      nativeClicks := [];
    }

    /**
     * The overridden `click`: asks the registry to process the anchor and
     * calls the native `click` once, with the same anchor, only when that
     * failed. The registry is left as it was.
     */
    method Click(a: Anchor)
      modifies this
      ensures nativeClicks == old(nativeClicks) + if NativeClickRuns(registry.handlers, a) then [a] else []
    {
      var handled, _ := registry.Process(a);
      if handled {
        return;
      }
      nativeClicks := nativeClicks + [a];
    }
  }

  /**
   * With the viewer loaded, the native download runs exactly when the anchor
   * has no resource reference or its file name has none of the three
   * suffixes. A blocked popup never brings it back.
   */
  lemma BuiltinNativeClick(popup: PopupPolicy, a: Anchor)
    ensures NativeClickRuns(Builtins(popup), a) <==> a.href == "" || !(IsPdf(a) || IsCsv(a) || IsJson(a))
  {
    BuiltinDispatch(popup, a);
  }

  /** `archive.zip` is not a registered type: the native download runs. */
  lemma ArchiveZipFallsBack(popup: PopupPolicy, href: string)
    ensures NativeClickRuns(Builtins(popup), Anchor(Some("archive.zip"), href))
    ensures Calls(Builtins(popup), Anchor(Some("archive.zip"), href)) == []
  {
    var a := Anchor(Some("archive.zip"), href);
    BuiltinNativeClick(popup, a);
    BuiltinCalls(popup, a);
    assert LowerChar('p') == 'p';
    LastCharMismatch(a, ".pdf");
    LastCharMismatch(a, ".csv");
    LastCharMismatch(a, ".json");
  }

  /**
   * `REPORT.PDF` matches the PDF descriptor despite its case: no native
   * download, and the resource itself opens in a new window.
   */
  lemma UpperCasePdfIsViewed(popup: PopupPolicy, href: string)
    requires href != ""
    ensures !NativeClickRuns(Builtins(popup), Anchor(Some("REPORT.PDF"), href))
    ensures Calls(Builtins(popup), Anchor(Some("REPORT.PDF"), href)) == [0]
    ensures OpenDirectlyHandle(Anchor(Some("REPORT.PDF"), href)).effects == [OpenWindow(href, Blank)]
  {
    var a := Anchor(Some("REPORT.PDF"), href);
    assert "REPORT.PDF" == "REPORT" + ".PDF";
    assert ToLowerAscii(".PDF") == ".pdf";
    CaseFoldedExtensionMatches("REPORT", ".PDF", ".pdf", href);
    BuiltinNativeClick(popup, a);
    BuiltinCalls(popup, a);
  }

  /**
   * `data.csv` with the popup allowed: no native download, an empty window
   * opens at once, and the fetched text is handed to the viewer with the
   * file name unchanged. With the popup blocked the handler still reports
   * success, so the native download does not run either.
   */
  lemma CsvIsViewed(popup: PopupPolicy, href: string)
    requires href != ""
    ensures !NativeClickRuns(Builtins(popup), Anchor(Some("data.csv"), href))
    ensures CsvHandle(Anchor(Some("data.csv"), href), true).effects ==
      [OpenWindow("", Blank), FetchAndViewCsv(href, Some("data.csv"))]
    ensures CsvHandle(Anchor(Some("data.csv"), href), false).effects == [OpenWindow("", Blank)]
  {
    var a := Anchor(Some("data.csv"), href);
    assert "data.csv" == "data" + ".csv";
    assert ToLowerAscii(".csv") == ".csv";
    CaseFoldedExtensionMatches("data", ".csv", ".csv", href);
    BuiltinNativeClick(popup, a);
  }

  /** A client of the page: what the contracts above let a caller conclude. */
  method ClickScenarios(popup: PopupPolicy)
  {
    var page := new Page.Load(popup);
    var zip := Anchor(Some("archive.zip"), "blob:1");
    var pdf := Anchor(Some("REPORT.PDF"), "blob:2");
    ArchiveZipFallsBack(popup, "blob:1");
    UpperCasePdfIsViewed(popup, "blob:2");
    page.Click(pdf);
    assert page.nativeClicks == [];
    page.Click(zip);
    assert page.nativeClicks == [zip];
  }
}
