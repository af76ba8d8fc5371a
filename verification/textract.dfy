/**
 * The OCR side: keeping the LINE blocks of a Textract response
 * (`extract_text_from_response`) and driving an asynchronous text-detection job
 * to completion (`wait_for_job_completion`).
 *
 * The Textract client is replaced by the finite list of responses it gives to
 * successive `get_document_text_detection` calls; the model records the requests
 * made so that the token each page fetch passes can be stated. When the list
 * runs out before the Python loop would return, the outcome is `Blocked`: the
 * real call would still be waiting on the service.
 */
module Textract {
  import opened Wrappers

  /** One entry of a response's `Blocks` list. */
  datatype Block = Block(blockType: string, text: string)

  predicate IsLine(b: Block) {
    b.blockType == "LINE"
  }

  /** `extract_text_from_response`: the `Text` of every LINE block, in order. */
  function ExtractText(blocks: seq<Block>): (texts: seq<string>)
    ensures |texts| <= |blocks|
  {
    if blocks == [] then []
    else
      var rest := ExtractText(blocks[1..]);
      if IsLine(blocks[0]) then [blocks[0].text] + rest else rest
  }

  /**
   * The texts kept are exactly those of the LINE blocks, and every block is kept
   * exactly when every block is a LINE.
   */
  lemma {:induction false} ExtractTextContents(blocks: seq<Block>)
    ensures |ExtractText(blocks)| == |blocks| <==> forall i :: 0 <= i < |blocks| ==> IsLine(blocks[i])
    ensures forall t :: t in ExtractText(blocks) <==>
              exists i :: 0 <= i < |blocks| && IsLine(blocks[i]) && blocks[i].text == t
  {
    if blocks != [] {
      ExtractTextContents(blocks[1..]);
      assert forall i :: 1 <= i < |blocks| ==> blocks[i] == blocks[1..][i - 1];
    }
  }

  /** Order: the LINE texts of two block lists laid end to end are those of each, in turn. */
  lemma {:induction false} ExtractTextAppend(a: seq<Block>, b: seq<Block>)
    ensures ExtractText(a + b) == ExtractText(a) + ExtractText(b)
    decreases |a|
  {
    if a == [] {
      assert a + b == b;
    } else {
      assert (a + b)[1..] == a[1..] + b;
      ExtractTextAppend(a[1..], b);
    }
  }

  /** One answer of `get_document_text_detection`. */
  datatype JobResponse = JobResponse(
    status: string,
    blocks: seq<Block>,
    nextToken: Option<string>,
    statusMessage: Option<string>)

  /** One call of `get_document_text_detection(JobId=jobId[, NextToken=token])`. */
  datatype Request = Request(jobId: string, nextToken: Option<string>)

  datatype JobOutcome =
    | Succeeded(lines: seq<string>)
    | Failed(message: string)
    | Blocked

  /** What the call returned or raised, and the requests it made, one per response consumed. */
  datatype JobRun = JobRun(outcome: JobOutcome, requests: seq<Request>)

  const FailurePrefix: string := "Textract job failed: "
  const NoMessage: string := "No error message provided"

  predicate IsTerminal(r: JobResponse) {
    r.status == "SUCCEEDED" || r.status == "FAILED"
  }

  predicate IsLastPage(r: JobResponse) {
    r.nextToken.None?
  }

  /** Index of the first response at or after `from` that satisfies `p`, or `|rs|` if none does. */
  function FirstWhere(rs: seq<JobResponse>, from: nat, p: JobResponse -> bool): (k: nat)
    requires from <= |rs|
    ensures from <= k <= |rs|
    ensures forall j :: from <= j < k ==> !p(rs[j])
    ensures k < |rs| ==> p(rs[k])
    decreases |rs| - from
  {
    if from == |rs| || p(rs[from]) then from else FirstWhere(rs, from + 1, p)
  }

  /** LINE texts of the responses `provider[from..upto]`, page after page. */
  function PagesText(provider: seq<JobResponse>, from: nat, upto: nat): seq<string>
    requires from <= upto <= |provider|
    decreases upto
  {
    if upto == from then [] else PagesText(provider, from, upto - 1) + ExtractText(provider[upto - 1].blocks)
  }

  /** The blocks of the responses `provider[from..upto]`, laid end to end. */
  function PagesBlocks(provider: seq<JobResponse>, from: nat, upto: nat): seq<Block>
    requires from <= upto <= |provider|
    decreases upto
  {
    if upto == from then [] else PagesBlocks(provider, from, upto - 1) + provider[upto - 1].blocks
  }

  /** `n` status polls: no token. */
  function Polls(jobId: string, n: nat): (rs: seq<Request>)
    ensures |rs| == n && forall i :: 0 <= i < n ==> rs[i] == Request(jobId, None)
  {
    seq(n, _ => Request(jobId, None))
  }

  /** The page fetches made after reading `provider[from..upto]`, one per response read. */
  function Fetches(jobId: string, provider: seq<JobResponse>, from: nat, upto: nat): seq<Request>
    requires from <= upto <= |provider|
    decreases upto
  {
    if upto == from then [] else Fetches(jobId, provider, from, upto - 1) + [Request(jobId, provider[upto - 1].nextToken)]
  }

  /** Reading several pages gives the LINE texts of all their blocks together, in order. */
  lemma {:induction false} PagesTextIsExtract(provider: seq<JobResponse>, from: nat, upto: nat)
    requires from <= upto <= |provider|
    ensures PagesText(provider, from, upto) == ExtractText(PagesBlocks(provider, from, upto))
    decreases upto
  {
    if upto > from {
      PagesTextIsExtract(provider, from, upto - 1);
      ExtractTextAppend(PagesBlocks(provider, from, upto - 1), provider[upto - 1].blocks);
    }
  }

  /** The fetch after page `i` passes exactly the token page `i` returned. */
  lemma {:induction false} FetchesTokens(jobId: string, provider: seq<JobResponse>, from: nat, upto: nat)
    requires from <= upto <= |provider|
    ensures |Fetches(jobId, provider, from, upto)| == upto - from
    ensures forall i :: from <= i < upto ==> Fetches(jobId, provider, from, upto)[i - from] == Request(jobId, provider[i].nextToken)
    decreases upto
  {
    if upto > from {
      FetchesTokens(jobId, provider, from, upto - 1);
    }
  }

  /** Any index with the properties of `FirstWhere` is the one it returns. */
  lemma {:induction false} FirstWhereUnique(rs: seq<JobResponse>, from: nat, p: JobResponse -> bool, k: nat)
    requires from <= k <= |rs|
    requires forall j :: from <= j < k ==> !p(rs[j])
    requires k < |rs| ==> p(rs[k])
    ensures FirstWhere(rs, from, p) == k
    decreases k - from
  {
    if from < k {
      FirstWhereUnique(rs, from + 1, p, k);
    }
  }

  /** Where the page loop stops: at the first page without a token, or past the end of the responses. */
  lemma DrainEnd(provider: seq<JobResponse>, k: nat, n: nat)
    requires k < n <= |provider|
    requires forall j :: k <= j < n - 1 ==> !IsLastPage(provider[j])
    requires IsLastPage(provider[n - 1]) || n == |provider|
    ensures IsLastPage(provider[n - 1]) ==> FirstWhere(provider, k, IsLastPage) == n - 1
    ensures !IsLastPage(provider[n - 1]) ==> FirstWhere(provider, k, IsLastPage) == |provider|
  {
    if IsLastPage(provider[n - 1]) {
      FirstWhereUnique(provider, k, IsLastPage, n - 1);
    } else {
      FirstWhereUnique(provider, k, IsLastPage, n);
    }
  }

  /** Lines 23-29: poll until the status is SUCCEEDED or FAILED; `k` is the terminal response. */
  method PollStatus(provider: seq<JobResponse>) returns (k: nat)
    ensures k <= |provider|
    ensures forall j :: 0 <= j < k ==> !IsTerminal(provider[j])
    ensures k < |provider| ==> IsTerminal(provider[k])
  {
    k := 0;
    while k < |provider| && !IsTerminal(provider[k])
      invariant k <= |provider|
      invariant forall j :: 0 <= j < k ==> !IsTerminal(provider[j])
    {
      k := k + 1;
    }
  }

  /**
   * Lines 33-46, the loop: starting from the terminal response `provider[k]`,
   * fetch with the last response's token while it has one and responses remain.
   * On exit `provider[n - 1]` is the last response read; `text` holds the LINE
   * texts of `provider[k..n]` and `fetches` the requests that read them.
   */
  method FollowPages(jobId: string, provider: seq<JobResponse>, k: nat)
    returns (n: nat, text: seq<string>, fetches: seq<Request>)
    requires k < |provider|
    ensures k < n <= |provider|
    ensures forall j :: k <= j < n - 1 ==> !IsLastPage(provider[j])
    ensures IsLastPage(provider[n - 1]) || n == |provider|
    ensures text == PagesText(provider, k, n)
    ensures fetches == Fetches(jobId, provider, k, n - 1)
  {
    text := ExtractText(provider[k].blocks);
    fetches := [];
    n := k + 1;
    while provider[n - 1].nextToken.Some? && n < |provider|
      invariant k < n <= |provider|
      invariant forall j :: k <= j < n - 1 ==> !IsLastPage(provider[j])
      invariant text == PagesText(provider, k, n)
      invariant fetches == Fetches(jobId, provider, k, n - 1)
      decreases |provider| - n
    {
      assert forall j :: k <= j < n ==> !IsLastPage(provider[j]);
      fetches := fetches + [Request(jobId, provider[n - 1].nextToken)];
      text := text + ExtractText(provider[n].blocks);
      n := n + 1;
    }
  }

  /**
   * Lines 33-46: LINE texts of the terminal response `provider[k]`, then of each
   * page fetched with the previous response's token, until a response has no
   * token. `None` when the provider runs out first.
   */
  method DrainPages(jobId: string, provider: seq<JobResponse>, k: nat)
    returns (rawText: Option<seq<string>>, fetches: seq<Request>)
    requires k < |provider|
    ensures var m := FirstWhere(provider, k, IsLastPage);
      && (rawText.Some? <==> m < |provider|)
      && (rawText.Some? ==> rawText.value == PagesText(provider, k, m + 1) && fetches == Fetches(jobId, provider, k, m))
  {
    var n, text;
    n, text, fetches := FollowPages(jobId, provider, k);
    DrainEnd(provider, k, n);
    if IsLastPage(provider[n - 1]) {
      rawText := Some(text);
    } else {
      rawText := None;
    }
  }

  /**
   * `wait_for_job_completion(textract, job_id)` against a client that answers
   * successive calls with `provider`.
   *
   * It polls until the first SUCCEEDED or FAILED status (index `k`). On FAILED it
   * raises with the provider's message, or a placeholder, having fetched no page.
   * On SUCCEEDED it returns the LINE texts of the terminal response and then of
   * each page fetched with the previous response's `NextToken`, stopping at the
   * first response without one (index `m`); each of those responses is read once.
   */
  method WaitForJobCompletion(jobId: string, provider: seq<JobResponse>) returns (run: JobRun)
    ensures var k := FirstWhere(provider, 0, IsTerminal);
      && (run.outcome.Failed? <==> k < |provider| && provider[k].status == "FAILED")
      && (run.outcome.Failed? ==>
            && run.outcome.message == FailurePrefix + provider[k].statusMessage.GetOr(NoMessage)
            && run.requests == Polls(jobId, k + 1))
      && (run.outcome.Succeeded? <==>
            k < |provider| && provider[k].status == "SUCCEEDED" && FirstWhere(provider, k, IsLastPage) < |provider|)
      && (run.outcome.Succeeded? ==>
            var m := FirstWhere(provider, k, IsLastPage);
            && run.outcome.lines == PagesText(provider, k, m + 1)
            && run.requests == Polls(jobId, k + 1) + Fetches(jobId, provider, k, m))
  {
    var k := PollStatus(provider);
    FirstWhereUnique(provider, 0, IsTerminal, k);
    if k == |provider| {
      return JobRun(Blocked, Polls(jobId, k));
    }
    var response := provider[k];
    if response.status == "SUCCEEDED" {
      var rawText, fetches := DrainPages(jobId, provider, k);
      if rawText.None? {
        return JobRun(Blocked, Polls(jobId, k + 1) + fetches);
      }
      return JobRun(Succeeded(rawText.value), Polls(jobId, k + 1) + fetches);
    } else {
      var errorMessage := FailurePrefix + response.statusMessage.GetOr(NoMessage);
      return JobRun(Failed(errorMessage), Polls(jobId, k + 1));
    }
  }
}
