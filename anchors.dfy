/**
 * The anchor element the file viewer inspects, and the two string operations
 * its predicates use: `toLowerCase` (restricted to ASCII) and `endsWith`.
 */
module Anchors {
  import opened Wrappers

  /**
   * The parts of an `HTMLAnchorElement` the viewer reads: the suggested file
   * name (`download`, possibly absent) and the resource reference (`href`).
   */
  datatype Anchor = Anchor(download: Option<string>, href: string)

  /** JavaScript truthiness of `anchor.download`: absent and "" are both falsy. */
  predicate HasDownloadName(a: Anchor) {
    a.download.Some? && a.download.value != ""
  }

  /** ASCII case folding of one character. */
  function LowerChar(c: char): (r: char)
    ensures !('A' <= r <= 'Z')
    ensures r == c <==> !('A' <= c <= 'Z')
    ensures 'A' <= c <= 'Z' ==> 'a' <= r <= 'z' && r as int - 'a' as int == c as int - 'A' as int
  {
    if 'A' <= c <= 'Z' then (c as int - 'A' as int + 'a' as int) as char else c
  }

  /** `s.toLowerCase()`, for ASCII letters only. */
  function ToLowerAscii(s: string): (r: string)
    ensures |r| == |s|
    ensures forall i :: 0 <= i < |s| ==> r[i] == LowerChar(s[i])
  {
    if s == [] then [] else [LowerChar(s[0])] + ToLowerAscii(s[1..])
  }

  /** Case folding is idempotent: a folded name folds to itself. */
  lemma ToLowerAsciiIdempotent(s: string)
    ensures ToLowerAscii(ToLowerAscii(s)) == ToLowerAscii(s)
  {
    var once := ToLowerAscii(s);
    var twice := ToLowerAscii(once);
    forall i | 0 <= i < |s| ensures twice[i] == once[i] {
      assert LowerChar(once[i]) == once[i];
    }
  }

  /** `s.endsWith(suffix)`. */
  predicate EndsWith(s: string, suffix: string) {
    |suffix| <= |s| && s[|s| - |suffix|..] == suffix
  }

  /** `endsWith` agrees with its reference meaning: `s` is something followed by `suffix`. */
  lemma EndsWithIffConcat(s: string, suffix: string)
    ensures EndsWith(s, suffix) <==> exists p :: s == p + suffix
  {
    if EndsWith(s, suffix) {
      var p := s[..|s| - |suffix|];
      assert s == p + suffix;
    }
    if p :| s == p + suffix {
      assert s[|s| - |suffix|..] == suffix;
    }
  }

  /**
   * `anchor.download && anchor.download.toLowerCase().endsWith(ext)`: the
   * suffix test every built-in predicate performs.
   */
  predicate DownloadEndsWith(a: Anchor, ext: string) {
    HasDownloadName(a) && EndsWith(ToLowerAscii(a.download.value), ext)
  }

  /**
   * The last `|ext|` characters of `d`, each case-folded, spell `ext`: the
   * character-by-character reading of a case-insensitive suffix test.
   */
  predicate SuffixFoldsTo(d: string, ext: string) {
    |ext| <= |d| && forall k :: 0 <= k < |ext| ==> LowerChar(d[|d| - |ext| + k]) == ext[k]
  }

  lemma EndsWithLowerIff(d: string, ext: string)
    ensures EndsWith(ToLowerAscii(d), ext) <==> SuffixFoldsTo(d, ext)
  {
    var low := ToLowerAscii(d);
    if |ext| <= |d| {
      var tail := low[|d| - |ext|..];
      assert |tail| == |ext|;
      assert forall k :: 0 <= k < |ext| ==> tail[k] == LowerChar(d[|d| - |ext| + k]);
      if SuffixFoldsTo(d, ext) {
        assert tail == ext;
      }
    }
  }

  /** The suffix test is case-insensitive character by character. */
  lemma DownloadEndsWithIff(a: Anchor, ext: string)
    ensures DownloadEndsWith(a, ext) <==> HasDownloadName(a) && SuffixFoldsTo(a.download.value, ext)
  {
    if HasDownloadName(a) {
      EndsWithLowerIff(a.download.value, ext);
    }
  }

  /**
   * Any file name whose extension case-folds to `ext` is accepted, whatever
   * its stem: `REPORT.PDF` and `report.Pdf` both end with `.pdf`.
   */
  lemma CaseFoldedExtensionMatches(stem: string, ext: string, folded: string, href: string)
    requires folded != "" && ToLowerAscii(ext) == folded
    ensures DownloadEndsWith(Anchor(Some(stem + ext), href), folded)
  {
    var d := stem + ext;
    assert |ext| == |folded| && |d| == |stem| + |ext|;
    forall k | 0 <= k < |folded| ensures LowerChar(d[|d| - |folded| + k]) == folded[k] {
      assert d[|stem| + k] == ext[k];
      assert ToLowerAscii(ext)[k] == LowerChar(ext[k]);
    }
    assert SuffixFoldsTo(d, folded);
    DownloadEndsWithIff(Anchor(Some(d), href), folded);
  }
}
