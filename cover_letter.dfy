/** The cover-letter endpoint: validate the upload and the job description,
    read the PDF's pages, ask the text-generation service for a letter and
    return the part of its reply between the cover-letter tags. */
module CoverLetter {
  import opened Outcomes
  import opened Envelope
  import opened Decimal
  import opened TagExtraction
  import opened Documents

  const MIN_LENGTH: nat := 50
  const MAX_LENGTH: nat := 10000
  const RANGE_PREFIX: string := "Job description should be in the range of 50 to 10000 letters: "

  /** The rejection message of the f-string: the fixed text followed by the
      offending length in decimal, which can be read back from it. */
  function RangeMessage(length: nat): (r: string)
    ensures RANGE_PREFIX <= r
    ensures AllDigits(r[|RANGE_PREFIX|..]) && Value(r[|RANGE_PREFIX|..]) == length
  {
    var r := RANGE_PREFIX + Show(length);
    assert r[|RANGE_PREFIX|..] == Show(length);
    ValueOfShow(length);
    r
  }

  /** The answer the endpoint gives before touching the upload, if any: the
      content type is checked first, then the length of the job description. */
  function Validate(contentType: string, jobDescription: string): (r: Option<Response>)
    ensures contentType != PDF ==> r == Some(NotPdf())
    ensures (contentType == PDF && (|jobDescription| < MIN_LENGTH || |jobDescription| > MAX_LENGTH))
         ==> r == Some(Rejected(BAD_REQUEST, RangeMessage(|jobDescription|)))
    ensures r == None <==> contentType == PDF && MIN_LENGTH <= |jobDescription| <= MAX_LENGTH
  {
    if contentType != PDF then Some(NotPdf())
    else if |jobDescription| < MIN_LENGTH || |jobDescription| > MAX_LENGTH then
      Some(Rejected(BAD_REQUEST, RangeMessage(|jobDescription|)))
    else None
  }

  /** A PDF upload is let through exactly when the job description has between
      50 and 10000 characters, both ends included. */
  lemma LengthBoundsInclusive(jobDescription: string)
    ensures Validate(PDF, jobDescription).None? <==> 50 <= |jobDescription| <= 10000
  {
  }

  /** A length rejection names the length: the message is the fixed prefix
      followed by a decimal numeral that reads back as the length. */
  lemma RangeMessageNamesLength(contentType: string, jobDescription: string)
    requires contentType == PDF
    requires |jobDescription| < MIN_LENGTH || |jobDescription| > MAX_LENGTH
    ensures Validate(contentType, jobDescription).Some?
    ensures var m := Validate(contentType, jobDescription).value.message;
            && RANGE_PREFIX <= m
            && AllDigits(m[|RANGE_PREFIX|..])
            && Value(m[|RANGE_PREFIX|..]) == |jobDescription|
  {
  }

  /** The resume text: each page's text followed by a line break, accumulated
      page by page. */
  method ResumeText(pages: seq<string>) returns (text: string)
    ensures text == JoinLines(pages)
    ensures |text| == TotalLength(pages) + |pages|
  {
    text := "";
    var i := 0;
    while i < |pages|
      invariant 0 <= i <= |pages|
      invariant text == JoinLines(pages[..i])
    {
      assert pages[..i + 1][..i] == pages[..i];
      text := text + pages[i] + "\n";
      i := i + 1;
    }
    assert pages[..|pages|] == pages;
    JoinLinesLength(pages);
  }

  /** `letter_generator`. `document` is the outcome of reading and parsing the
      upload (its page texts, or the exception raised); `complete` stands for
      the text-generation service, applied to the resume text and the job
      description. `effects` lists the outside steps taken, in order. */
  method LetterGenerator(contentType: string, jobDescription: string,
                         document: Outcome<seq<string>>,
                         complete: (string, string) -> Outcome<string>)
    returns (resp: Response, effects: seq<Effect>)
    ensures Validate(contentType, jobDescription).Some? ==>
              resp == Validate(contentType, jobDescription).value && effects == []
    ensures Validate(contentType, jobDescription).None? && document.Raised? ==>
              resp == Rejected(INTERNAL_ERROR, document.message) && effects == [ReadUpload]
    ensures Validate(contentType, jobDescription).None? && document.Done? ==>
              var resume := JoinLines(document.value);
              && effects == [ReadUpload, Complete(resume, jobDescription)]
              && resp == match complete(resume, jobDescription)
                         case Raised(e) => Rejected(INTERNAL_ERROR, e)
                         case Done(reply) => Succeeded(Text(Extract(reply)))
    ensures resp.error <==> resp.status != OK
    ensures resp.error ==> resp.data == Text("")
    ensures resp.status == OK || resp.status == BAD_REQUEST || resp.status == INTERNAL_ERROR
  {
    var rejection := Validate(contentType, jobDescription);
    if rejection.Some? {
      return rejection.value, [];
    }
    effects := [ReadUpload];
    if document.Raised? {
      return Rejected(INTERNAL_ERROR, document.message), effects;
    }
    var resume := ResumeText(document.value);
    effects := effects + [Complete(resume, jobDescription)];
    var reply := complete(resume, jobDescription);
    if reply.Raised? {
      return Rejected(INTERNAL_ERROR, reply.message), effects;
    }
    resp := Succeeded(Text(Extract(reply.value)));
  }
}
