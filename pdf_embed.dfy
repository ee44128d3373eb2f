/**
 * The PDF pipeline: `extract_pdf_text` over the text each page yields
 * (none when the page has no text layer), and `embed_pdf`, which chunks
 * that text and embeds every chunk. Reading the PDF bytes into pages and
 * the embedding model itself are outside the model: the pages are given,
 * and the model is the uninterpreted function `encode`.
 */
module PdfEmbed {
  import opened Wrappers
  import opened Text
  import opened Chunking

  const SuccessMessage := "PDF embedded successfully"

  /** The marker written before the text of page n (1-based). */
  function PageHeader(n: nat): string {
    "\n--- Page " + DecimalString(n) + " ---\n"
  }

  /** What page k (0-based) adds to the text: nothing, or its marker and its text. */
  function PageContribution(k: nat, page: Option<string>): string {
    match page
    case None => ""
    case Some(t) => if t == "" then "" else PageHeader(k + 1) + t
  }

  /** The text `extract_pdf_text` accumulates over `pages`, one page at a time. */
  function PdfText(pages: seq<Option<string>>): string {
    if pages == [] then ""
    else PdfText(pages[..|pages| - 1]) + PageContribution(|pages| - 1, pages[|pages| - 1])
  }

  /** A page adds nothing exactly when it has no text; otherwise it adds its marker, then its text. */
  lemma ContributionShape(k: nat, page: Option<string>)
    ensures PageContribution(k, page) == "" <==> page.None? || page.value == ""
    ensures page.Some? && page.value != "" ==>
      PageContribution(k, page) == PageHeader(k + 1) + page.value
      && PageContribution(k, page)[|PageHeader(k + 1)|..] == page.value
  {
    if page.Some? && page.value != "" {
      assert |PageContribution(k, page)| >= |PageHeader(k + 1)| > 0;
    }
  }

  /** Markers name their page: two markers are equal only for the same page number. */
  lemma PageHeaderInjective(n: nat, m: nat)
    requires PageHeader(n) == PageHeader(m)
    ensures n == m
  {
    var prefix, suffix := "\n--- Page ", " ---\n";
    var dn, dm := DecimalString(n), DecimalString(m);
    assert |dn| == |dm| by {
      assert |PageHeader(n)| == |prefix| + |dn| + |suffix|;
      assert |PageHeader(m)| == |prefix| + |dm| + |suffix|;
    }
    assert dn == PageHeader(n)[|prefix|..|prefix| + |dn|];
    assert dm == PageHeader(m)[|prefix|..|prefix| + |dm|];
  }

  /** Concatenation of a list of strings, in order. */
  function Concat(parts: seq<string>): string {
    if parts == [] then "" else parts[0] + Concat(parts[1..])
  }

  lemma {:induction false} ConcatSnoc(parts: seq<string>, last: string)
    ensures Concat(parts + [last]) == Concat(parts) + last
  {
    if parts == [] {
      assert parts + [last] == [last];
    } else {
      assert (parts + [last])[1..] == parts[1..] + [last];
      ConcatSnoc(parts[1..], last);
    }
  }

  /** Every page's contribution, in page order. */
  function Contributions(pages: seq<Option<string>>): (parts: seq<string>)
    ensures |parts| == |pages|
  {
    seq(|pages|, k requires 0 <= k < |pages| => PageContribution(k, pages[k]))
  }

  /** The contributions of one more page are those of the earlier pages, then its own. */
  lemma ContributionsSnoc(pages: seq<Option<string>>)
    requires pages != []
    ensures var n := |pages| - 1;
      Contributions(pages) == Contributions(pages[..n]) + [PageContribution(n, pages[n])]
  {
    var n := |pages| - 1;
    var init, last := Contributions(pages[..n]), PageContribution(n, pages[n]);
    forall k | 0 <= k < |pages| ensures Contributions(pages)[k] == (init + [last])[k] {
      if k < n { assert pages[..n][k] == pages[k]; }
    }
  }

  /** The extracted text is the concatenation of the page contributions, in page order. */
  lemma {:induction false} PdfTextIsConcat(pages: seq<Option<string>>)
    ensures PdfText(pages) == Concat(Contributions(pages))
  {
    if pages != [] {
      var n := |pages| - 1;
      var init, last := Contributions(pages[..n]), PageContribution(n, pages[n]);
      assert PdfText(pages) == PdfText(pages[..n]) + last;
      PdfTextIsConcat(pages[..n]);
      ContributionsSnoc(pages);
      ConcatSnoc(init, last);
    }
  }

  /** Pages without text contribute nothing: a PDF with no text layer extracts to "". */
  lemma {:induction false} NoTextNoOutput(pages: seq<Option<string>>)
    requires forall k :: 0 <= k < |pages| ==> pages[k].None? || pages[k] == Some("")
    ensures PdfText(pages) == ""
  {
    if pages != [] {
      var n := |pages| - 1;
      assert forall k :: 0 <= k < n ==> pages[..n][k] == pages[k];
      NoTextNoOutput(pages[..n]);
    }
  }

  /**
   * Numbering counts every page: after pages without text, the next page
   * with text is still marked with its position among all pages.
   */
  lemma SkippedPagesKeepNumbering(pages: seq<Option<string>>, t: string)
    requires t != ""
    ensures PdfText(pages + [Some(t)]) == PdfText(pages) + PageHeader(|pages| + 1) + t
  {
    var all := pages + [Some(t)];
    assert all[..|all| - 1] == pages;
    var c := PageContribution(|pages|, Some(t));
    assert c == PageHeader(|pages| + 1) + t;
    assert PdfText(all) == PdfText(pages) + c;
  }

  /** `extract_pdf_text`: the page loop with its string accumulator. */
  method ExtractPdfText(pages: seq<Option<string>>) returns (text: string)
    ensures text == PdfText(pages)
  {
    text := "";
    for k := 0 to |pages|
      invariant text == PdfText(pages[..k])
    {
      assert pages[..k + 1][..k] == pages[..k];
      var pageText := pages[k];
      if pageText.Some? && pageText.value != "" {
        text := text + PageHeader(k + 1);
        text := text + pageText.value;
      }
    }
    assert pages[..|pages|] == pages;
  }

  /**
   * `embed_pdf`: always a success, even with zero chunks; one embedding
   * per chunk, in order, and `total_chunks` is their number.
   */
  method EmbedPdf<V>(pages: seq<Option<string>>, encode: string -> V) returns (r: EmbedReply<V>)
    ensures r.EmbedSuccess? && r.message == SuccessMessage
    ensures r.chunks == Chunks(Words(PdfText(pages)), ChunkSize, Overlap)
    ensures |r.embeddings| == |r.chunks| == r.totalChunks
    ensures forall i :: 0 <= i < |r.chunks| ==> r.embeddings[i] == encode(r.chunks[i])
  {
    var text := ExtractPdfText(pages);
    var chunks := ChunkText(text);
    var embeddings := EncodeChunks(chunks, encode);
    r := EmbedSuccess(SuccessMessage, chunks, embeddings, |chunks|);
  }

  /** A PDF without text still embeds "successfully", with zero chunks. */
  lemma EmptyPdfSucceeds(pages: seq<Option<string>>)
    requires forall k :: 0 <= k < |pages| ==> pages[k].None? || pages[k] == Some("")
    ensures Chunks(Words(PdfText(pages)), ChunkSize, Overlap) == []
  {
    NoTextNoOutput(pages);
    ChunksEmpty(PdfText(pages), ChunkSize, Overlap);
  }
}
