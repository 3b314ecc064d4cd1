/** What the two document endpoints (cover-letter generation and resume
    review) share: the answer to an upload that is not a PDF (each endpoint's
    own `Validate` decides when to give it), the record of what they do outside
    the process, and how they turn the texts of a PDF's pages, in page order,
    into one resume text. */
module Documents {
  import opened Envelope

  /** The only declared content type the endpoints accept. */
  const PDF: string := "application/pdf"
  const NOT_PDF: string := "File isn't a PDF"

  /** The answer to an upload whose declared content type is not exactly PDF. */
  function NotPdf(): (r: Response)
    ensures r.status == BAD_REQUEST && r.error && r.message == NOT_PDF && r.data == Text("")
  {
    Rejected(BAD_REQUEST, NOT_PDF)
  }

  /** A step an endpoint takes outside the process, in the order taken: reading
      and parsing the uploaded file, and one call to the text-generation
      service with the resume text and the job description it is given. */
  datatype Effect = ReadUpload | Complete(resume: string, jobDescription: string)

  /** The sum of the page lengths. */
  function TotalLength(pages: seq<string>): (n: nat)
    decreases |pages|
  {
    if pages == [] then 0 else TotalLength(pages[..|pages| - 1]) + |pages[|pages| - 1]|
  }

  /** Every page's text followed by a line break, in page order. */
  function JoinLines(pages: seq<string>): (r: string)
    decreases |pages|
  {
    if pages == [] then "" else JoinLines(pages[..|pages| - 1]) + pages[|pages| - 1] + "\n"
  }

  /** Every page's text, in page order, with no separator. */
  function Concat(pages: seq<string>): (r: string)
    decreases |pages|
  {
    if pages == [] then "" else Concat(pages[..|pages| - 1]) + pages[|pages| - 1]
  }

  /** The line-joined text is as long as all pages together plus one line break per page. */
  lemma {:induction false} JoinLinesLength(pages: seq<string>)
    ensures |JoinLines(pages)| == TotalLength(pages) + |pages|
    decreases |pages|
  {
    if pages != [] {
      JoinLinesLength(pages[..|pages| - 1]);
    }
  }

  /** The concatenated text is as long as all pages together. */
  lemma {:induction false} ConcatLength(pages: seq<string>)
    ensures |Concat(pages)| == TotalLength(pages)
    decreases |pages|
  {
    if pages != [] {
      ConcatLength(pages[..|pages| - 1]);
    }
  }

  /** Joining keeps page order: the text of a document split in two is the
      text of the first part followed by the text of the second. */
  lemma {:induction false} JoinLinesAppend(first: seq<string>, second: seq<string>)
    ensures JoinLines(first + second) == JoinLines(first) + JoinLines(second)
    decreases |second|
  {
    if second == [] {
      assert first + second == first;
    } else {
      var all := first + second;
      var init := second[..|second| - 1];
      assert all[..|all| - 1] == first + init;
      assert all[|all| - 1] == second[|second| - 1];
      JoinLinesAppend(first, init);
    }
  }

  /** Concatenation keeps page order in the same sense. */
  lemma {:induction false} ConcatAppend(first: seq<string>, second: seq<string>)
    ensures Concat(first + second) == Concat(first) + Concat(second)
    decreases |second|
  {
    if second == [] {
      assert first + second == first;
    } else {
      var all := first + second;
      var init := second[..|second| - 1];
      assert all[..|all| - 1] == first + init;
      assert all[|all| - 1] == second[|second| - 1];
      ConcatAppend(first, init);
    }
  }

  /** One page contributes its text and a line break. */
  lemma JoinLinesSingle(page: string)
    ensures JoinLines([page]) == page + "\n"
  {
  }
}
