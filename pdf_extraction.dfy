/**
  `extract_email_from_pdf` (main.py:35-46): the pages of a PDF are read in
  order and the pattern is searched in each page's text; the first match is
  the answer. The PDF library is replaced by its observable behaviour: the
  document cannot be opened at all, or it yields its pages one by one, and
  reading the text of one page may fail. Any failure ends the scan with
  `None`, the same answer as "no address".
*/
module PdfExtraction {
  import opened Wrappers
  import opened EmailPattern

  /** One page as the PDF library delivers it: its text, or a failure to read it. */
  datatype Page = Text(content: string) | Unreadable

  /** A PDF file as the PDF library sees it. */
  datatype Pdf = CannotOpen | Pages(pages: seq<Page>)

  /** The page was read and its text holds no match: the scan goes on past it. */
  predicate Misses(p: Page) {
    p.Text? && FindEmail(p.content).None?
  }

  /** Page `k` is where the scan ends: it is unreadable or holds a match, and every earlier page misses. */
  predicate StopsAt(pages: seq<Page>, k: int) {
    0 <= k < |pages| && !Misses(pages[k]) && forall m :: 0 <= m < k ==> Misses(pages[m])
  }

  /** `w` is the match on page `k`, the first page that holds one, and no earlier page failed. */
  ghost predicate FirstHit(pages: seq<Page>, k: int, w: string) {
    StopsAt(pages, k) && pages[k].Text? && FindEmail(pages[k].content) == Some(w)
  }

  /** The `for page in doc` loop with its early return, as a recursive function. */
  function ScanPages(pages: seq<Page>): (r: Option<string>)
    ensures r.Some? ==> exists k :: 0 <= k < |pages| && pages[k].Text? && FindEmail(pages[k].content) == r
  {
    if pages == [] then None
    else
      match pages[0]
      case Unreadable => None
      case Text(t) =>
        if FindEmail(t).Some? then FindEmail(t) else ScanPages(pages[1..])
  }

  /** `extract_email_from_pdf`: an answer is the match found on some page of the file. */
  function ExtractEmail(pdf: Pdf): (r: Option<string>)
    ensures r.Some? ==>
      pdf.Pages? && exists k :: 0 <= k < |pdf.pages| && pdf.pages[k].Text? && FindEmail(pdf.pages[k].content) == r
  {
    match pdf
    case CannotOpen => None
    case Pages(ps) => ScanPages(ps)
  }

  /** Pages that miss can be skipped without changing the answer. */
  lemma {:induction false} SkipMisses(pages: seq<Page>, k: nat)
    requires k <= |pages|
    requires forall m :: 0 <= m < k ==> Misses(pages[m])
    ensures ScanPages(pages) == ScanPages(pages[k..])
    decreases k
  {
    if k > 0 {
      assert pages[1..][k - 1..] == pages[k..];
      SkipMisses(pages[1..], k - 1);
    }
  }

  /**
    First page wins: the answer is the match of the first page that holds one,
    provided no earlier page failed; and any answer is of that kind.
  */
  lemma ScanPagesFirstHit(pages: seq<Page>)
    ensures forall k, w :: FirstHit(pages, k, w) ==> ScanPages(pages) == Some(w)
    ensures ScanPages(pages).Some? ==> exists k :: FirstHit(pages, k, ScanPages(pages).value)
  {
    forall k, w | FirstHit(pages, k, w)
      ensures ScanPages(pages) == Some(w)
    {
      SkipMisses(pages, k);
    }
    if ScanPages(pages).Some? {
      AnswerHasFirstHit(pages);
    }
  }

  /** An answer comes from a page that ends the scan with a match. */
  lemma {:induction false} AnswerHasFirstHit(pages: seq<Page>)
    requires ScanPages(pages).Some?
    ensures exists k :: FirstHit(pages, k, ScanPages(pages).value)
    decreases |pages|
  {
    if Misses(pages[0]) {
      AnswerHasFirstHit(pages[1..]);
      var k :| FirstHit(pages[1..], k, ScanPages(pages).value);
      assert FirstHit(pages, k + 1, ScanPages(pages).value);
    } else {
      assert FirstHit(pages, 0, ScanPages(pages).value);
    }
  }

  /** Nothing found: when no page's text holds a match, the answer is `None`. */
  lemma {:induction false} NothingFound(pages: seq<Page>)
    requires forall k :: 0 <= k < |pages| && pages[k].Text? ==> FindEmail(pages[k].content).None?
    ensures ScanPages(pages) == None
  {
    ScanPagesFirstHit(pages);
  }

  /** Read failure: an unreadable page reached before any match makes the answer `None`. */
  lemma UnreadablePageGivesNone(pages: seq<Page>, k: nat)
    requires k < |pages| && pages[k].Unreadable?
    requires forall m :: 0 <= m < k ==> Misses(pages[m])
    ensures ScanPages(pages) == None
  {
    SkipMisses(pages, k);
  }

  /**
    Decode failure folds into "not found": the answer is `None` exactly when
    the file cannot be opened, or the scan ends at an unreadable page, or it
    runs past the last page.
  */
  lemma ExtractEmailNone(pdf: Pdf)
    ensures ExtractEmail(pdf).None? <==>
      pdf.CannotOpen? || forall k :: StopsAt(pdf.pages, k) ==> pdf.pages[k].Unreadable?
  {
    if pdf.Pages? {
      ScanPagesFirstHit(pdf.pages);
      forall k | StopsAt(pdf.pages, k) && pdf.pages[k].Text?
        ensures ExtractEmail(pdf).Some?
      {
        assert FirstHit(pdf.pages, k, FindEmail(pdf.pages[k].content).value);
      }
    }
  }

  /** Pages after the one where the scan ends are never looked at. */
  lemma LaterPagesIgnored(pages: seq<Page>, k: nat, later: seq<Page>)
    requires StopsAt(pages, k)
    ensures ScanPages(pages[..k + 1] + later) == ScanPages(pages)
  {
    var cut := pages[..k + 1] + later;
    assert StopsAt(cut, k) by {
      forall m | 0 <= m <= k ensures cut[m] == pages[m] { }
    }
    SkipMisses(pages, k);
    SkipMisses(cut, k);
    assert cut[k..][0] == pages[k..][0];
  }

  /** A returned address is a match of the pattern: its shape is that of the pattern, and it holds no comma. */
  lemma ExtractedAddressShape(pdf: Pdf)
    ensures ExtractEmail(pdf).Some? ==> IsEmailAddress(ExtractEmail(pdf).value)
    ensures ExtractEmail(pdf).Some? ==> |ExtractEmail(pdf).value| >= 6
    ensures ExtractEmail(pdf).Some? ==> forall m :: 0 <= m < |ExtractEmail(pdf).value| ==> ExtractEmail(pdf).value[m] != ','
  {
    if ExtractEmail(pdf).Some? {
      ScanPagesFirstHit(pdf.pages);
      var k :| FirstHit(pdf.pages, k, ExtractEmail(pdf).value);
      FindEmailCorrect(pdf.pages[k].content);
      EmailAddressShape(ExtractEmail(pdf).value);
    }
  }

  /** The page loop of `extract_email_from_pdf`, returning from inside the loop at the first match. */
  method ExtractEmailFromPdf(pdf: Pdf) returns (email: Option<string>)
    ensures email == ExtractEmail(pdf)
  {
    if pdf.CannotOpen? {
      return None;
    }
    var pages := pdf.pages;
    var k := 0;
    while k < |pages|
      invariant 0 <= k <= |pages|
      invariant forall m :: 0 <= m < k ==> Misses(pages[m])
    {
      match pages[k]
      case Unreadable =>
        UnreadablePageGivesNone(pages, k);
        return None;
      case Text(t) =>
        var found := FindEmail(t);
        if found.Some? {
          SkipMisses(pages, k);
          return found;
        }
      k := k + 1;
    }
    SkipMisses(pages, k);
    return None;
  }
}
