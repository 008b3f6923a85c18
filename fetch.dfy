/**
 * One fetch run (main.py, fetch_emails and callback_fetch_email): the
 * module-level EMAIL_CACHE list is reset, one `get` request is queued per
 * listed message id, and every completion of the batch either appends one
 * record or, when it carries an exception, nothing. The batch's completion
 * order is not specified, so a run is given its completions as an arbitrary
 * sequence.
 */
module Fetch {
  import opened Wrappers
  import opened Mime

  /** The dictionary the callback builds: keys 'body', 'from', 'subject', 'to'. */
  datatype EmailRecord = EmailRecord(body: string, sender: Option<string>, subject: Option<string>,
                                     recipient: Option<string>)

  /** One callback invocation: the message id of the `get` it answers and either the parsed response or the exception. */
  datatype Completion = Delivered(id: string, msg: Message) | Raised(id: string, error: string)

  /** One `{'id': ...}` entry of the list response. */
  datatype MessageRef = MessageRef(id: string)

  /** The list response; `messages` is absent when nothing matched. */
  datatype ListResponse = ListResponse(messages: Option<seq<MessageRef>>)

  /** `gmail.users().messages().get(userId="me", id=..., format=...)` as queued in the batch. */
  datatype GetRequest = GetRequest(userId: string, id: string, format: string)

  /** The record the callback appends for a delivered message. */
  function ToRecord(m: Message, extract: Extractor): EmailRecord {
    EmailRecord(CallbackBody(m, extract), GetHeader(m.headers, "from"),
                GetHeader(m.headers, "subject"), GetHeader(m.headers, "to"))
  }

  /** The records a sequence of completions leaves behind, in completion order. */
  function Records(cs: seq<Completion>, extract: Extractor): seq<EmailRecord>
    decreases |cs|
  {
    if cs == [] then []
    else
      var last := cs[|cs| - 1];
      Records(cs[..|cs| - 1], extract) + (if last.Delivered? then [ToRecord(last.msg, extract)] else [])
  }

  /** How many completions carried an exception. */
  function CountRaised(cs: seq<Completion>): nat
    decreases |cs|
  {
    if cs == [] then 0
    else CountRaised(cs[..|cs| - 1]) + (if cs[|cs| - 1].Raised? then 1 else 0)
  }

  /** `results.get("messages", [])`, as a list of ids. */
  function MessageIds(listing: ListResponse): (ids: seq<string>)
    ensures listing.messages.None? ==> ids == []
    ensures listing.messages.Some? ==>
      (|ids| == |listing.messages.value| && forall k :: 0 <= k < |ids| ==> ids[k] == listing.messages.value[k].id)
  {
    match listing.messages
    case None => []
    case Some(refs) => seq(|refs|, k requires 0 <= k < |refs| => refs[k].id)
  }

  /** The ids the completions answer, in completion order. */
  function CompletionIds(cs: seq<Completion>): (ids: seq<string>)
    ensures |ids| == |cs| && forall k :: 0 <= k < |cs| ==> ids[k] == cs[k].id
  {
    seq(|cs|, k requires 0 <= k < |cs| => cs[k].id)
  }

  /** EMAIL_CACHE: the list callbacks append to. */
  class EmailCache {
    var records: seq<EmailRecord>

    /** `EMAIL_CACHE = []` at module load. */
    constructor ()
      ensures records == []
    {
      records := [];
    }

    /** `EMAIL_CACHE = []` at the start of fetch_emails. */
    method Reset()
      modifies this
      ensures records == []
    {
      records := [];
    }

    /**
     * callback_fetch_email: an exception leaves the list as it was; otherwise
     * exactly one record is appended, its body built from the html parts and
     * its headers copied (an absent header gives an absent value).
     */
    method OnComplete(c: Completion, extract: Extractor)
      modifies this
      ensures c.Raised? ==> records == old(records)
      ensures c.Delivered? ==> records == old(records) + [ToRecord(c.msg, extract)]
    {
      if c.Delivered? {
        var body := BuildBody(c.msg, extract);
        var record := EmailRecord(body, GetHeader(c.msg.headers, "from"),
                                  GetHeader(c.msg.headers, "subject"), GetHeader(c.msg.headers, "to"));
        records := records + [record];
      }
    }
  }

  /** The loop of fetch_emails that adds one raw-format `get` per listed id to the batch. */
  method QueueRequests(listing: ListResponse) returns (batch: seq<GetRequest>)
    ensures |batch| == |MessageIds(listing)|
    ensures forall k :: 0 <= k < |batch| ==> batch[k] == GetRequest("me", MessageIds(listing)[k], "raw")
  {
    var ids := MessageIds(listing);
    batch := [];
    for k := 0 to |ids|
      invariant |batch| == k
      invariant forall j :: 0 <= j < k ==> batch[j] == GetRequest("me", ids[j], "raw")
    {
      batch := batch + [GetRequest("me", ids[k], "raw")];
    }
  }

  /**
   * fetch_emails. The cache is reset before the list call, so a list failure
   * is re-raised with the cache already empty. Otherwise the batch runs the
   * callback once per completion and the cache, which then holds exactly this
   * run's records, is returned.
   */
  method FetchEmails(cache: EmailCache, listing: Result<ListResponse, string>,
                     completions: seq<Completion>, extract: Extractor)
      returns (r: Result<seq<EmailRecord>, string>)
    requires listing.Success? ==> multiset(CompletionIds(completions)) == multiset(MessageIds(listing.value))
    modifies cache
    ensures listing.Failure? ==> r == Failure(listing.error) && cache.records == []
    ensures listing.Success? ==> r == Success(Records(completions, extract)) && cache.records == r.value
    ensures listing.Success? ==> |r.value| == |MessageIds(listing.value)| - CountRaised(completions)
  {
    cache.Reset();
    if listing.Failure? {
      return Failure(listing.error);
    }
    var batch := QueueRequests(listing.value);
    var i := 0;
    while i < |completions|
      invariant 0 <= i <= |completions|
      invariant cache.records == Records(completions[..i], extract)
    {
      RecordsStep(completions, i, extract);
      cache.OnComplete(completions[i], extract);
      i := i + 1;
    }
    assert completions[..i] == completions;
    RecordsLength(completions, extract);
    assert |CompletionIds(completions)| == |multiset(CompletionIds(completions))|;
    r := Success(cache.records);
  }

  /** The records of the first `i + 1` completions: those of the first `i`, then completion `i`'s. */
  lemma RecordsStep(cs: seq<Completion>, i: int, extract: Extractor)
    requires 0 <= i < |cs|
    ensures Records(cs[..i + 1], extract)
         == Records(cs[..i], extract) + (if cs[i].Delivered? then [ToRecord(cs[i].msg, extract)] else [])
  {
    assert cs[..i + 1][..i] == cs[..i];
  }

  /** Records of consecutive runs of completions concatenate. */
  lemma {:induction false} RecordsAppend(a: seq<Completion>, b: seq<Completion>, extract: Extractor)
    ensures Records(a + b, extract) == Records(a, extract) + Records(b, extract)
    decreases |b|
  {
    if b == [] {
      assert a + b == a;
    } else {
      var b' := b[..|b| - 1];
      assert (a + b)[..|a + b| - 1] == a + b';
      assert (a + b)[|a + b| - 1] == b[|b| - 1];
      RecordsAppend(a, b', extract);
    }
  }

  /** One record per completion that received no exception. */
  lemma {:induction false} RecordsLength(cs: seq<Completion>, extract: Extractor)
    ensures |Records(cs, extract)| == |cs| - CountRaised(cs)
    ensures CountRaised(cs) <= |cs|
    decreases |cs|
  {
    if cs != [] {
      RecordsLength(cs[..|cs| - 1], extract);
    }
  }

  /** Completion `c` is a delivery whose callback appends `rec`. */
  ghost predicate Yields(c: Completion, extract: Extractor, rec: EmailRecord) {
    c.Delivered? && rec == ToRecord(c.msg, extract)
  }

  /** A run's records are those of its own delivered completions and nothing else. */
  lemma {:induction false} RecordsAreDelivered(cs: seq<Completion>, extract: Extractor, rec: EmailRecord)
    ensures rec in Records(cs, extract) <==> exists k :: 0 <= k < |cs| && Yields(cs[k], extract, rec)
    decreases |cs|
  {
    if cs != [] {
      var n := |cs| - 1;
      var init := cs[..n];
      RecordsLast(cs, extract, rec);
      RecordsAreDelivered(init, extract, rec);
      var p := (c: Completion) => c.Delivered? && rec == ToRecord(c.msg, extract);
      SomeInitOrLast(cs, init, p);
      assert forall c :: p(c) == Yields(c, extract, rec);
    }
  }

  /** Some element of a nonempty sequence satisfies `p` iff one before the last or the last one does. */
  lemma SomeInitOrLast<T>(s: seq<T>, init: seq<T>, p: T -> bool)
    requires s != [] && init == s[..|s| - 1]
    ensures (exists k :: 0 <= k < |s| && p(s[k]))
        <==> (exists k :: 0 <= k < |init| && p(init[k])) || p(s[|s| - 1])
  {
    if k :| 0 <= k < |s| && p(s[k]) {
      if k < |init| {
        assert init[k] == s[k];
      }
    }
    if k :| 0 <= k < |init| && p(init[k]) {
      assert s[k] == init[k];
    }
  }

  /** The last completion adds its record, if any, after the earlier ones'. */
  lemma RecordsLast(cs: seq<Completion>, extract: Extractor, rec: EmailRecord)
    requires cs != []
    ensures rec in Records(cs, extract)
        <==> rec in Records(cs[..|cs| - 1], extract) || Yields(cs[|cs| - 1], extract, rec)
  {
  }

  /**
   * Whatever order the batch completes in, the run yields the same records
   * (as a multiset) and so the same count.
   */
  lemma {:induction false} RecordsOrderIndependent(cs: seq<Completion>, cs': seq<Completion>, extract: Extractor)
    requires multiset(cs) == multiset(cs')
    ensures multiset(Records(cs, extract)) == multiset(Records(cs', extract))
    ensures |Records(cs, extract)| == |Records(cs', extract)|
    decreases |cs'|
  {
    if cs' == [] {
      assert |cs| == |multiset(cs)| == 0;
    } else {
      var n := |cs'| - 1;
      var x := cs'[n];
      assert x in multiset(cs') by {
        assert cs'[n] in cs';
      }
      var k :| 0 <= k < |cs| && cs[k] == x;
      var a, b := cs[..k], cs[k + 1..];
      RemoveOne(cs, k);
      RemoveOne(cs', n);
      assert cs'[..n] + cs'[n + 1..] == cs'[..n];
      RecordsOrderIndependent(a + b, cs'[..n], extract);
      RecordsMultisetSplit(a, b, x, extract);
      RecordsMultisetSplit(cs'[..n], [], x, extract);
      assert cs'[..n] + [x] + [] == cs';
    }
    assert |Records(cs, extract)| == |multiset(Records(cs, extract))|;
    assert |Records(cs', extract)| == |multiset(Records(cs', extract))|;
  }

  /** Taking element `k` out of `s` takes one copy of it out of its multiset. */
  lemma RemoveOne(s: seq<Completion>, k: int)
    requires 0 <= k < |s|
    ensures s == s[..k] + [s[k]] + s[k + 1..]
    ensures multiset(s[..k] + s[k + 1..]) == multiset(s) - multiset{s[k]}
  {
    assert s == s[..k] + [s[k]] + s[k + 1..];
  }

  /** Moving one completion out of the middle of a run keeps its records' multiset. */
  lemma RecordsMultisetSplit(a: seq<Completion>, b: seq<Completion>, x: Completion, extract: Extractor)
    ensures multiset(Records(a + [x] + b, extract))
         == multiset(Records(a + b, extract)) + multiset(Records([x], extract))
  {
    RecordsAppend(a + [x], b, extract);
    RecordsAppend(a, [x], extract);
    RecordsAppend(a, b, extract);
  }
}
