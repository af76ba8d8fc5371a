/**
 * The per-chunk loop shared by `process_with_bedrock_scraping` and
 * `process_with_bedrock_Analysis`: chunk the OCR text, send each chunk to the
 * model, keep the decoded body of every call that succeeded, in chunk order.
 *
 * The Bedrock client, the request body and the prompt are replaced by `call`,
 * which, given the task (it fixes the prompt), the chunk's position and the
 * chunk, yields the decoded response body or `None` when anything raised
 * (the call itself, reading the body, or decoding it).
 */
module Invoker {
  import opened Wrappers
  import opened Json
  import opened Chunker

  /** Which of the two prompts is sent. */
  datatype Task = Scraping | Analysis

  /** The bodies of the calls that succeeded, in order. */
  function Successes(outcomes: seq<Option<Value>>): seq<Value> {
    if outcomes == [] then []
    else
      var last := outcomes[|outcomes| - 1];
      Successes(outcomes[..|outcomes| - 1]) + (if last.Some? then [last.value] else [])
  }

  /** The outcome of every chunk's call, by position. */
  function Outcomes(task: Task, chunks: seq<string>, call: (Task, nat, string) -> Option<Value>): (os: seq<Option<Value>>)
    ensures |os| == |chunks|
    ensures forall i :: 0 <= i < |chunks| ==> os[i] == call(task, i, chunks[i])
  {
    seq(|chunks|, i requires 0 <= i < |chunks| => call(task, i, chunks[i]))
  }

  /**
   * Lines 91-159 (and 331-391): one call per chunk; a failed call is skipped and
   * the loop goes on; the result holds the successful bodies in chunk order.
   */
  method InvokeChunks(task: Task, chunks: seq<string>, call: (Task, nat, string) -> Option<Value>)
    returns (allResults: seq<Value>)
    ensures allResults == Successes(Outcomes(task, chunks, call))
  {
    allResults := [];
    var i := 0;
    while i < |chunks|
      invariant 0 <= i <= |chunks|
      invariant allResults == Successes(Outcomes(task, chunks[..i], call))
    {
      var outcome := call(task, i, chunks[i]);
      assert Outcomes(task, chunks[..i + 1], call)[..i] == Outcomes(task, chunks[..i], call);
      if outcome.Some? {
        allResults := allResults + [outcome.value];
      }
      i := i + 1;
    }
    assert chunks[..|chunks|] == chunks;
  }

  /** `process_with_bedrock_scraping` / `process_with_bedrock_Analysis` on `text`. */
  method ProcessWithBedrock(task: Task, text: string, call: (Task, nat, string) -> Option<Value>)
    returns (allResults: seq<Value>)
    ensures allResults == Successes(Outcomes(task, ChunkText(text, DefaultMaxChunkSize), call))
  {
    var chunks := ChunkText(text, DefaultMaxChunkSize);
    allResults := InvokeChunks(task, chunks, call);
  }

  /** Isolation: the successes of two runs of calls laid end to end are each run's, in turn. */
  lemma {:induction false} SuccessesAppend(a: seq<Option<Value>>, b: seq<Option<Value>>)
    ensures Successes(a + b) == Successes(a) + Successes(b)
    decreases |b|
  {
    if b == [] {
      assert a + b == a;
    } else {
      var init := b[..|b| - 1];
      assert (a + b)[..|a + b| - 1] == a + init;
      SuccessesAppend(a, init);
    }
  }

  /** No more results than chunks, and a body is a result exactly when some call returned it. */
  lemma {:induction false} SuccessesCount(outcomes: seq<Option<Value>>)
    ensures |Successes(outcomes)| <= |outcomes|
    ensures forall v :: v in Successes(outcomes) <==> Some(v) in outcomes
  {
    if outcomes != [] {
      var init := outcomes[..|outcomes| - 1];
      SuccessesCount(init);
      assert outcomes == init + [outcomes[|outcomes| - 1]];
    }
  }

  /** No result at all when every call fails; one per chunk, in order, when none fails. */
  lemma {:induction false} SuccessesAllOrNone(outcomes: seq<Option<Value>>)
    ensures (forall i :: 0 <= i < |outcomes| ==> outcomes[i].None?) ==> Successes(outcomes) == []
    ensures (forall i :: 0 <= i < |outcomes| ==> outcomes[i].Some?) ==>
              |Successes(outcomes)| == |outcomes| &&
              forall i :: 0 <= i < |outcomes| ==> Successes(outcomes)[i] == outcomes[i].value
  {
    if outcomes != [] {
      var init := outcomes[..|outcomes| - 1];
      SuccessesAllOrNone(init);
      assert forall i :: 0 <= i < |init| ==> init[i] == outcomes[i];
    }
  }

  /** Three chunks whose second call raises give the first and third bodies, in that order. */
  lemma MiddleChunkFails(task: Task, chunks: seq<string>, call: (Task, nat, string) -> Option<Value>)
    requires |chunks| == 3
    requires call(task, 0, chunks[0]).Some? && call(task, 2, chunks[2]).Some?
    requires call(task, 1, chunks[1]).None?
    ensures Successes(Outcomes(task, chunks, call)) ==
              [call(task, 0, chunks[0]).value, call(task, 2, chunks[2]).value]
  {
    var os := Outcomes(task, chunks, call);
    assert os == [os[0]] + [os[1]] + [os[2]];
    SuccessesAppend([os[0]] + [os[1]], [os[2]]);
    SuccessesAppend([os[0]], [os[1]]);
    assert Successes([os[0]]) == Successes([]) + [os[0].value];
    assert Successes([os[1]]) == Successes([]);
    assert Successes([os[2]]) == Successes([]) + [os[2].value];
  }
}
