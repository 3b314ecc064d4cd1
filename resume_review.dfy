/** The resume-review endpoint: check that the upload is a PDF, read its
    pages, and return the text-generation service's reply as it is. */
module ResumeReview {
  import opened Outcomes
  import opened Envelope
  import opened Documents

  /** The answer the endpoint gives before touching the upload, if any: only
      the content type is checked, the job description never is. */
  function Validate(contentType: string): (r: Option<Response>)
    ensures r.Some? <==> contentType != PDF
    ensures r.Some? ==> r.value == NotPdf()
  {
    if contentType != PDF then Some(NotPdf()) else None
  }

  /** The resume text: the pages' texts concatenated page by page with no separator. */
  method ResumeText(pages: seq<string>) returns (text: string)
    ensures text == Concat(pages)
    ensures |text| == TotalLength(pages)
  {
    text := "";
    var i := 0;
    while i < |pages|
      invariant 0 <= i <= |pages|
      invariant text == Concat(pages[..i])
    {
      assert pages[..i + 1][..i] == pages[..i];
      text := text + pages[i];
      i := i + 1;
    }
    assert pages[..|pages|] == pages;
    ConcatLength(pages);
  }

  /** `resume_review`. `document` is the outcome of reading and parsing the
      upload; `complete` stands for the text-generation service, applied to the
      resume text and the job description. `effects` lists the outside steps
      taken, in order. */
  method Review(contentType: string, jobDescription: string,
                document: Outcome<seq<string>>,
                complete: (string, string) -> Outcome<string>)
    returns (resp: Response, effects: seq<Effect>)
    ensures contentType != PDF ==> resp == NotPdf() && effects == []
    ensures contentType == PDF ==> |effects| >= 1 && effects[0] == ReadUpload
    ensures contentType == PDF && document.Raised? ==>
              resp == Rejected(INTERNAL_ERROR, document.message) && effects == [ReadUpload]
    ensures contentType == PDF && document.Done? ==>
              var resume := Concat(document.value);
              && effects == [ReadUpload, Complete(resume, jobDescription)]
              && resp == match complete(resume, jobDescription)
                         case Raised(e) => Rejected(INTERNAL_ERROR, e)
                         case Done(reply) => Succeeded(Text(reply))
    ensures resp.error <==> resp.status != OK
    ensures resp.error ==> resp.data == Text("")
    ensures resp.status == OK || resp.status == BAD_REQUEST || resp.status == INTERNAL_ERROR
  {
    var rejection := Validate(contentType);
    if rejection.Some? {
      return rejection.value, [];
    }
    effects := [ReadUpload];
    if document.Raised? {
      return Rejected(INTERNAL_ERROR, document.message), effects;
    }
    var resume := ResumeText(document.value);
    effects := effects + [Complete(resume, jobDescription)];
    var reply := complete(resume, jobDescription);
    if reply.Raised? {
      return Rejected(INTERNAL_ERROR, reply.message), effects;
    }
    resp := Succeeded(Text(reply.value));
  }
}
