/** `sanitize_filename` and the `.pdf` naming rule of `download_pdf`. */
module FileNames {
  import opened Strings

  /** `sanitize_filename` truncates to this many characters. */
  const MaxNameLength := 180

  /** The characters of the class `[\w\-\. ]`, which `sanitize_filename` leaves alone. */
  predicate IsKeptChar(c: char)
  {
    IsWordChar(c) || c == '-' || c == '.' || c == ' '
  }

  /** `re.sub(r"[^\w\-\. ]", "_", ...)` on one character. */
  function ReplaceChar(c: char): (r: char)
    ensures IsKeptChar(r)
    ensures IsKeptChar(c) <==> r == c
  {
    if IsKeptChar(c) then c else '_'
  }

  /** `re.sub(r"[^\w\-\. ]", "_", name)`: same length, character by character. */
  function ReplaceDisallowed(name: string): (r: string)
    ensures |r| == |name|
    ensures forall i :: 0 <= i < |r| ==> r[i] == ReplaceChar(name[i])
  {
    if name == [] then [] else [ReplaceChar(name[0])] + ReplaceDisallowed(name[1..])
  }

  /** `sanitize_filename(name)`: replace, strip, cut to 180 characters, or `"file"` when nothing is left. */
  function SanitizeFilename(name: string): (r: string)
    ensures 0 < |r| <= MaxNameLength
    ensures forall i :: 0 <= i < |r| ==> IsKeptChar(r[i])
  {
    StripSlice(ReplaceDisallowed(name));
    var cleaned := Strip(ReplaceDisallowed(name));
    var cut := if |cleaned| <= MaxNameLength then cleaned else cleaned[..MaxNameLength];
    if cut == [] then "file" else cut
  }

  /** After replacement the only whitespace left is the space character. */
  lemma ReplacedSpace(c: char)
    ensures IsSpace(ReplaceChar(c)) <==> c == ' '
  {
  }

  /** A name made of spaces only (or no name at all) sanitises to the fallback `"file"`. */
  lemma SanitizeBlankName(name: string)
    requires forall i :: 0 <= i < |name| ==> name[i] == ' '
    ensures SanitizeFilename(name) == "file"
  {
    var replaced := ReplaceDisallowed(name);
    assert forall i :: 0 <= i < |replaced| ==> replaced[i] == ' ';
    StripAllSpace(replaced);
  }

  /**
   * Any other name keeps its replaced characters from the first non-space one
   * on, up to 180 of them. When fewer than 180 are kept, the name was not cut:
   * the last kept character is not a space and only spaces were dropped after it.
   * When exactly 180 are kept, a non-space character of the name lies at or
   * beyond the last kept position: trailing spaces alone are never kept.
   */
  lemma SanitizeKeepsMiddle(name: string, k: nat)
    requires k < |name| && name[k] != ' '
    requires forall j :: 0 <= j < k ==> name[j] == ' '
    ensures var r := SanitizeFilename(name);
            k + |r| <= |name| &&
            (forall i :: 0 <= i < |r| ==> r[i] == ReplaceChar(name[k + i])) &&
            (|r| < MaxNameLength ==> forall j :: k + |r| <= j < |name| ==> name[j] == ' ') &&
            (|r| < MaxNameLength ==> r[|r| - 1] != ' ') &&
            (|r| == MaxNameLength ==> exists j :: k + MaxNameLength - 1 <= j < |name| && name[j] != ' ')
  {
    var replaced := ReplaceDisallowed(name);
    forall j | 0 <= j < k ensures IsSpace(replaced[j]) {
      ReplacedSpace(name[j]);
    }
    ReplacedSpace(name[k]);
    StripFrom(replaced, k);
    var cleaned := Strip(replaced);
    var r := SanitizeFilename(name);
    assert r == if |cleaned| <= MaxNameLength then cleaned else cleaned[..MaxNameLength];
    forall i | 0 <= i < |r| ensures r[i] == ReplaceChar(name[k + i]) {
      assert r[i] == cleaned[i] == replaced[k + i];
    }
    if |r| < MaxNameLength {
      SanitizeUncut(name, k);
    } else {
      SanitizeCut(name, k);
    }
  }

  /** A sanitised name of exactly 180 characters: the stripped name reaches at least that far, so a non-space of the name lies there or beyond. */
  lemma SanitizeCut(name: string, k: nat)
    requires k < |name| && name[k] != ' '
    requires forall j :: 0 <= j < k ==> name[j] == ' '
    requires |SanitizeFilename(name)| == MaxNameLength
    ensures exists j :: k + MaxNameLength - 1 <= j < |name| && name[j] != ' '
  {
    var replaced := ReplaceDisallowed(name);
    forall j | 0 <= j < k ensures IsSpace(replaced[j]) {
      ReplacedSpace(name[j]);
    }
    ReplacedSpace(name[k]);
    StripFrom(replaced, k);
    var cleaned := Strip(replaced);
    assert MaxNameLength <= |cleaned|;
    var j := k + |cleaned| - 1;
    assert replaced[j] == cleaned[|cleaned| - 1];
    ReplacedSpace(name[j]);
  }

  /** A sanitised name shorter than 180 characters was not cut: it ends with a non-space, and only spaces follow it in the name. */
  lemma SanitizeUncut(name: string, k: nat)
    requires k < |name| && name[k] != ' '
    requires forall j :: 0 <= j < k ==> name[j] == ' '
    requires |SanitizeFilename(name)| < MaxNameLength
    ensures var r := SanitizeFilename(name);
            k + |r| <= |name| && r[|r| - 1] != ' ' &&
            forall j :: k + |r| <= j < |name| ==> name[j] == ' '
  {
    var replaced := ReplaceDisallowed(name);
    forall j | 0 <= j < k ensures IsSpace(replaced[j]) {
      ReplacedSpace(name[j]);
    }
    ReplacedSpace(name[k]);
    StripFrom(replaced, k);
    var cleaned := Strip(replaced);
    var r := SanitizeFilename(name);
    assert r == cleaned;
    assert !IsSpace(r[|r| - 1]);
    forall j | k + |r| <= j < |name| ensures name[j] == ' ' {
      assert IsSpace(replaced[j]);
      ReplacedSpace(name[j]);
    }
  }


  /** `base.lower().endswith(".pdf")`. */
  predicate EndsWithPdf(name: string)
  {
    EndsWith(Lower(name), ".pdf")
  }

  /** The suffix rule of `download_pdf`: append `.pdf` unless the name already ends with it, in any case. */
  function WithPdfSuffix(base: string): (r: string)
    ensures EndsWithPdf(r)
    ensures |base| <= |r| <= |base| + 4 && r[..|base|] == base
    ensures r == base <==> EndsWithPdf(base)
    ensures r != base ==> r == base + ".pdf"
  {
    if EndsWithPdf(base) then base
    else
      PdfSuffixEndsWithPdf(base);
      base + ".pdf"
  }

  /** A name with `.pdf` appended passes the test `lower().endswith(".pdf")`. */
  lemma PdfSuffixEndsWithPdf(base: string)
    ensures EndsWithPdf(base + ".pdf")
  {
    var r := base + ".pdf";
    var l := Lower(r);
    forall k | 0 <= k < 4 ensures l[|base| + k] == ".pdf"[k] {
      assert r[|base| + k] == ".pdf"[k];
    }
    assert l[|r| - 4..] == ".pdf";
  }

  /** Appending `.pdf` brings in only characters that `sanitize_filename` keeps. */
  lemma SuffixKeepsChars(base: string)
    requires forall i :: 0 <= i < |base| ==> IsKeptChar(base[i])
    ensures forall i :: 0 <= i < |WithPdfSuffix(base)| ==> IsKeptChar(WithPdfSuffix(base)[i])
  {
    var r := WithPdfSuffix(base);
    if r != base {
      var suffix := ".pdf";
      assert forall k :: 0 <= k < |suffix| ==> IsKeptChar(suffix[k]);
      assert r == base + suffix;
      forall i | |base| <= i < |r| ensures IsKeptChar(r[i]) {
        assert r[i] == suffix[i - |base|];
      }
    }
  }

  /**
   * The file name `download_pdf` saves under: the sanitised hint when a hint is
   * given, else the sanitised `urlName` (the unquoted last path segment), with
   * the `.pdf` rule applied.
   */
  function SavedFileName(hint: string, urlName: string): (r: string)
    ensures EndsWithPdf(r)
    ensures 4 <= |r| <= MaxNameLength + 4
    ensures forall i :: 0 <= i < |r| ==> IsKeptChar(r[i])
    ensures var base := SanitizeFilename(if hint != "" then hint else urlName);
            |base| <= |r| && r[..|base|] == base
  {
    var base := SanitizeFilename(if hint != "" then hint else urlName);
    SuffixKeepsChars(base);
    WithPdfSuffix(base)
  }
}
