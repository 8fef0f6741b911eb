/**
 * The three descriptors registered at load time (PDF, CSV, JSON). Each
 * predicate is a case-insensitive suffix test on the suggested file name;
 * each `handle` asks the host for a new window and reports success exactly
 * when the anchor has a resource reference.
 */
module BuiltinHandlers {
  import opened Wrappers
  import opened Anchors
  import opened Registry

  /** What a handler asks of the host browser, in order. */
  datatype Effect =
    /** `window.open(url, target)` */
    | OpenWindow(url: string, target: string)
    /** `fetch(url)`, then `CsvTools.view(window, text, fileName)` once the text arrives */
    | FetchAndViewCsv(url: string, fileName: Option<string>)

  /** The value a `handle` returns, and the effects it requested. */
  datatype Handling = Handling(handled: bool, effects: seq<Effect>)

  /**
   * The host's answer to `window.open` for an anchor: whether a window is
   * obtained (false when a popup blocker refuses it).
   */
  type PopupPolicy = Anchor -> bool

  const Blank := "_blank"

  predicate IsPdf(a: Anchor) { DownloadEndsWith(a, ".pdf") }

  predicate IsCsv(a: Anchor) { DownloadEndsWith(a, ".csv") }

  predicate IsJson(a: Anchor) { DownloadEndsWith(a, ".json") }

  /**
   * The PDF and JSON `handle`: opens the resource itself in a new window.
   * The window `window.open` returns is not consulted (the JSON handler
   * keeps it in a variable it never reads).
   */
  function OpenDirectlyHandle(a: Anchor): (r: Handling)
    ensures r.handled <==> a.href != ""
    ensures r.handled ==> r.effects == [OpenWindow(a.href, Blank)]
    ensures !r.handled ==> r.effects == []
  {
    if a.href != "" then Handling(true, [OpenWindow(a.href, Blank)]) else Handling(false, [])
  }

  /**
   * The CSV `handle`: opens an empty window at once and, only if one was
   * obtained, fetches the resource and hands its text and the suggested
   * file name, as it reads at the click, to the tabular viewer. It reports success whenever the anchor
   * has a resource reference, whether or not the window was obtained.
   */
  function CsvHandle(a: Anchor, windowObtained: bool): (r: Handling)
    ensures r.handled <==> a.href != ""
    ensures r.handled ==> 0 < |r.effects| <= 2 && r.effects[0] == OpenWindow("", Blank)
    ensures r.handled && !windowObtained ==> r.effects == [OpenWindow("", Blank)]
    ensures !r.handled ==> r.effects == []
    ensures FetchAndViewCsv(a.href, a.download) in r.effects <==> r.handled && windowObtained
  {
    if a.href != "" then
      Handling(true, [OpenWindow("", Blank)] + if windowObtained then [FetchAndViewCsv(a.href, a.download)] else [])
    else Handling(false, [])
  }

  /** The PDF registration: accepted, with the `.pdf` test and a handler that succeeds iff `href` is set. */
  function PdfCandidate(): (c: Candidate)
    ensures Validate(c).Some? && c.kind == "PDF"
    ensures forall a :: c.shouldHandle.value(a) == IsPdf(a) && (c.handle.value(a) <==> a.href != "")
  {
    Obj("PDF", Some(IsPdf), Some(a => OpenDirectlyHandle(a).handled))
  }

  /**
   * The CSV registration: accepted, with the `.csv` test and a handler that
   * succeeds iff `href` is set, whatever the popup policy.
   */
  function CsvCandidate(popup: PopupPolicy): (c: Candidate)
    ensures Validate(c).Some? && c.kind == "CSV"
    ensures forall a :: c.shouldHandle.value(a) == IsCsv(a) && (c.handle.value(a) <==> a.href != "")
  {
    assert forall a :: CsvHandle(a, popup(a)).handled == (a.href != "");
    Obj("CSV", Some(IsCsv), Some(a => CsvHandle(a, popup(a)).handled))
  }

  /** The JSON registration: accepted, with the `.json` test and a handler that succeeds iff `href` is set. */
  function JsonCandidate(): (c: Candidate)
    ensures Validate(c).Some? && c.kind == "JSON"
    ensures forall a :: c.shouldHandle.value(a) == IsJson(a) && (c.handle.value(a) <==> a.href != "")
  {
    Obj("JSON", Some(IsJson), Some(a => OpenDirectlyHandle(a).handled))
  }

  /** The three registrations made at load time, in order. */
  function BuiltinCandidates(popup: PopupPolicy): seq<Candidate> {
    [PdfCandidate(), CsvCandidate(popup), JsonCandidate()]
  }

  /** The handler list once the module has loaded: one `register` call per candidate. */
  function Builtins(popup: PopupPolicy): seq<Handler> {
    RegisterAll([], BuiltinCandidates(popup))
  }

  lemma BuiltinsUnfold(popup: PopupPolicy)
    ensures Builtins(popup) ==
      AfterRegister(AfterRegister(AfterRegister([], PdfCandidate()), CsvCandidate(popup)), JsonCandidate())
  {
    var cs := BuiltinCandidates(popup);
    var one := AfterRegister([], PdfCandidate());
    var two := AfterRegister(one, CsvCandidate(popup));
    assert cs[1..] == [CsvCandidate(popup), JsonCandidate()];
    assert cs[1..][1..] == [JsonCandidate()];
    assert RegisterAll([], cs) == RegisterAll(one, cs[1..]);
    assert RegisterAll(one, cs[1..]) == RegisterAll(two, cs[1..][1..]);
    assert RegisterAll(two, cs[1..][1..]) == AfterRegister(two, JsonCandidate());
  }

  /**
   * All three built-in registrations are accepted, in order, and each
   * descriptor's `handle` reports success exactly when `href` is non-empty,
   * whatever the popup policy.
   */
  lemma BuiltinsInOrder(popup: PopupPolicy)
    ensures var hs := Builtins(popup);
      && |hs| == 3
      && hs[0].kind == "PDF" && hs[1].kind == "CSV" && hs[2].kind == "JSON"
      && (forall a :: hs[0].shouldHandle(a) == IsPdf(a) && hs[0].handle(a) == (a.href != ""))
      && (forall a :: hs[1].shouldHandle(a) == IsCsv(a) && hs[1].handle(a) == (a.href != ""))
      && (forall a :: hs[2].shouldHandle(a) == IsJson(a) && hs[2].handle(a) == (a.href != ""))
  {
    var cs := BuiltinCandidates(popup);
    RegisterAllAppends([], cs);
    assert cs[1..][1..][1..] == [];
    var json := Validate(JsonCandidate()).value;
    var csv := Validate(CsvCandidate(popup)).value;
    var pdf := Validate(PdfCandidate()).value;
    assert Accepted(cs[1..][1..]) == [json];
    assert Accepted(cs[1..]) == [csv, json];
    assert Accepted(cs) == [pdf, csv, json];
  }

  /** Every name that passes the test ends in the last character of `ext`. */
  lemma LastCharOfMatch(a: Anchor, ext: string)
    requires ext != "" && DownloadEndsWith(a, ext)
    ensures LowerChar(a.download.value[|a.download.value| - 1]) == ext[|ext| - 1]
  {
    DownloadEndsWithIff(a, ext);
  }

  /** A name whose last character does not fold to that of `ext` fails the test. */
  lemma LastCharMismatch(a: Anchor, ext: string)
    requires ext != "" && HasDownloadName(a)
    requires LowerChar(a.download.value[|a.download.value| - 1]) != ext[|ext| - 1]
    ensures !DownloadEndsWith(a, ext)
  {
    DownloadEndsWithIff(a, ext);
  }

  /**
   * The built-in predicates are mutually exclusive: no file name ends with
   * two of `.pdf`, `.csv`, `.json`.
   */
  lemma BuiltinPredicatesExclusive(a: Anchor)
    ensures !(IsPdf(a) && IsCsv(a)) && !(IsPdf(a) && IsJson(a)) && !(IsCsv(a) && IsJson(a))
  {
    if IsPdf(a) { LastCharOfMatch(a, ".pdf"); }
    if IsCsv(a) { LastCharOfMatch(a, ".csv"); }
    if IsJson(a) { LastCharOfMatch(a, ".json"); }
  }

  /**
   * With the built-in handlers, `process` invokes at most one `handle`:
   * that of the one descriptor whose suffix the file name has.
   */
  lemma BuiltinCalls(popup: PopupPolicy, a: Anchor)
    ensures Calls(Builtins(popup), a) ==
      if IsPdf(a) then [0] else if IsCsv(a) then [1] else if IsJson(a) then [2] else []
  {
    var hs := Builtins(popup);
    BuiltinsInOrder(popup);
    BuiltinPredicatesExclusive(a);
    assert CallsFrom(hs, a, 3) == [];
    assert CallsFrom(hs, a, 2) == if IsJson(a) then [2] else [];
    assert CallsFrom(hs, a, 1) == if IsCsv(a) then [1] else if IsJson(a) then [2] else [];
  }

  /**
   * The whole dispatch decision of the loaded viewer: `process` succeeds
   * exactly when the anchor has a resource reference and its suggested file
   * name ends, case-insensitively, with `.pdf`, `.csv` or `.json`. A blocked
   * popup does not change it.
   */
  lemma BuiltinDispatch(popup: PopupPolicy, a: Anchor)
    ensures Dispatch(Builtins(popup), a) <==> a.href != "" && (IsPdf(a) || IsCsv(a) || IsJson(a))
  {
    var hs := Builtins(popup);
    BuiltinsInOrder(popup);
    if a.href != "" && (IsPdf(a) || IsCsv(a) || IsJson(a)) {
      var j := if IsPdf(a) then 0 else if IsCsv(a) then 1 else 2;
      assert Succeeds(hs[j], a);
    }
  }
}
