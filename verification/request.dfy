/** `request_extract_keyword` in utils/worker_thread_chat_completion.py: up
    to three attempts per image, each one a service call whose reply is
    searched for JSON, validated and turned into a result record; failures
    are classified by their message text and waited out before the next
    attempt. The service, the image file and `time.sleep` are outside the
    model: replies are given per attempt, and waits are recorded. */
module Request {
  import opened Wrappers
  import opened Text
  import Json
  import Extraction
  import Captions

  /** `max_retries`. */
  const MaxRetries: nat := 3

  /** `retry_delay`, in seconds. */
  const RetryDelay: nat := 2

  /** What one attempt got back from the service: an exception with this
      message (from the API, from reading the image, or anything else raised
      inside the attempt), or a response whose first block has this text. */
  datatype Reply = Raised(message: string) | Replied(text: string)

  /** The normalised `text` part of a result. */
  datatype CaptionText = CaptionText(english: string, korean: string)

  /** `formatted_result`: `{content, image_path, text}`. */
  datatype Record = Record(content: string, imagePath: string, text: CaptionText)

  /** How one attempt ends: with a value to return, by `continue` after the
      "missing fields" check, or by an exception with this message. */
  datatype AttemptEnd = Done(result: Option<Record>) | Missing | Failed(message: string)

  /** How the whole request ends: a returned value, or the exception of the
      last attempt re-raised to the caller. */
  datatype Outcome = Returned(result: Option<Record>) | Reraised(message: string)

  /** The outcome plus the seconds slept after each attempt made (0 when
      the next attempt follows at once or there is none). */
  datatype Report = Report(outcome: Outcome, waits: seq<nat>)

  /** The record built from a validated response: the captions are the
      response's own, stripped and cut to their first three sentences. */
  function MakeRecord(path: string, english: string, korean: string): (r: Record)
    ensures r.content == Basename(path)
    ensures '\\' !in r.imagePath && |r.imagePath| == |path|
    ensures forall i :: 0 <= i < |path| ==> r.imagePath[i] == if path[i] == '\\' then '/' else path[i]
    ensures r.text == CaptionText(Captions.Normalise(english), Captions.Normalise(korean))
    ensures var ss := Captions.Sentences(Strip(english));
            Captions.Sentences(r.text.english) == if |ss| > Captions.MaxSentences then ss[..Captions.MaxSentences] else ss
    ensures var ss := Captions.Sentences(Strip(korean));
            Captions.Sentences(r.text.korean) == if |ss| > Captions.MaxSentences then ss[..Captions.MaxSentences] else ss
    ensures Stripped(r.text.english) && Stripped(r.text.korean)
    ensures |Captions.Sentences(r.text.english)| <= Captions.MaxSentences
    ensures |Captions.Sentences(r.text.korean)| <= Captions.MaxSentences
  {
    Captions.NormaliseKeepsFirstSentences(english);
    Captions.NormaliseKeepsFirstSentences(korean);
    Captions.NormaliseIdempotent(english);
    Captions.NormaliseIdempotent(korean);
    NormalisedIsStripped(english);
    NormalisedIsStripped(korean);
    Record(Basename(path), ReplaceChar(path, '\\', '/'),
           CaptionText(Captions.Normalise(english), Captions.Normalise(korean)))
  }

  lemma NormalisedIsStripped(c: string)
    ensures Stripped(Captions.Normalise(c))
  {
    if |Captions.Sentences(Strip(c))| > Captions.MaxSentences {
      Captions.TruncatedIsStripped(c);
    }
  }

  /** The response carries both captions as non-empty strings inside a
      `text` object: the shape the validation lets through. */
  predicate WellFormed(v: Json.Value) {
    && v.Obj? && "text" in v.fields
    && var t := v.fields["text"];
    && t.Obj?
    && "english_caption" in t.fields && t.fields["english_caption"].Str? && t.fields["english_caption"].s != []
    && "korean_caption" in t.fields && t.fields["korean_caption"].Str? && t.fields["korean_caption"].s != []
  }

  /** The captions a well-formed response asks for, each normalised. */
  function ReplyCaptions(v: Json.Value): CaptionText
    requires WellFormed(v)
  {
    var t := v.fields["text"];
    CaptionText(Captions.Normalise(t.fields["english_caption"].s), Captions.Normalise(t.fields["korean_caption"].s))
  }

  /** The captions a reply asks for, normalised, when it holds a
      well-formed response. */
  function RequestedCaptions(x: Extraction.Extractors, reply: Reply): Option<CaptionText> {
    match reply
    case Raised(_) => None
    case Replied(text) =>
      var v := Extraction.Extract(x, text).Value();
      if WellFormed(v) then Some(ReplyCaptions(v)) else None
  }

  /** The validation and record building for a truthy extracted value,
      with Python's evaluation order: `.get` on something that is not a dict
      and `.strip` on a caption that is not a str raise `AttributeError`. */
  function Validate(path: string, v: Json.Value): (r: AttemptEnd)
    ensures r.Done? ==> r.result.Some?
    ensures r.Done? <==> WellFormed(v)
  {
    if !v.Obj? then Failed(Json.NoAttribute(v, "get"))
    else
      var t := Json.Get(v.fields, "text");
      if !Json.Truthy(t) then Missing
      else if !t.Obj? then Failed(Json.NoAttribute(t, "get"))
      else
        var en := Json.Get(t.fields, "english_caption");
        if !Json.Truthy(en) then Missing
        else
          var ko := Json.Get(t.fields, "korean_caption");
          if !Json.Truthy(ko) then Missing
          else if !en.Str? then Failed(Json.NoAttribute(en, "strip"))
          else if !ko.Str? then Failed(Json.NoAttribute(ko, "strip"))
          else Done(Some(MakeRecord(path, en.s, ko.s)))
  }

  /** One attempt: an exception fails it; an empty or falsy extraction
      returns `None` at once; anything else is validated. */
  function Step(x: Extraction.Extractors, path: string, reply: Reply): (r: AttemptEnd)
    ensures reply.Raised? ==> r == Failed(reply.message)
    ensures reply == Replied([]) ==> r == Done(None)
    ensures r == Done(None) ==> reply.Replied? && !Json.Truthy(Extraction.Extract(x, reply.text).Value())
    ensures r.Done? && r.result.Some? ==> reply.Replied? && WellFormed(Extraction.Extract(x, reply.text).Value())
    ensures r.Failed? ==>
              reply == Raised(r.message) || (reply.Replied? && !WellFormed(Extraction.Extract(x, reply.text).Value()))
  {
    match reply
    case Raised(m) => Failed(m)
    case Replied(t) =>
      var v := Extraction.Extract(x, t).Value();
      if !Json.Truthy(v) then Done(None) else Validate(path, v)
  }

  /** The error texts treated as an overloaded or timed-out service. */
  predicate IsTransient(message: string) {
    || Contains(message, "529")
    || Contains(Lower(message), "overloaded")
    || Contains(Lower(message), "timeout")
  }

  function Pow2(k: nat): (r: nat)
    ensures r >= 1
  {
    if k == 0 then 1 else 2 * Pow2(k - 1)
  }

  /** The sleep after a failed attempt `k` that is not the last one. */
  function Backoff(message: string, k: nat): nat {
    if IsTransient(message) then RetryDelay * Pow2(k) else RetryDelay
  }

  /** The retry policy from attempt `k` on, given how each attempt ends. */
  function Attempts(ends: nat -> AttemptEnd, k: nat): (r: Report)
    requires k <= MaxRetries
    ensures |r.waits| <= MaxRetries - k
    ensures k < MaxRetries ==> |r.waits| >= 1 && r.waits[|r.waits| - 1] == 0
    ensures forall i :: 0 <= i < |r.waits| ==> r.waits[i] in {0, 2, 4}
    ensures r.outcome.Reraised? ==>
              |r.waits| == MaxRetries - k && ends(MaxRetries - 1) == Failed(r.outcome.message)
    ensures forall i :: k <= i < k + |r.waits| - 1 ==> !ends(i).Done?
    ensures r.outcome.Returned? && r.outcome.result.Some? ==>
              |r.waits| >= 1 && ends(k + |r.waits| - 1) == Done(r.outcome.result)
    decreases MaxRetries - k
  {
    if k == MaxRetries then Report(Returned(None), [])
    else
      match ends(k)
      case Done(res) => Report(Returned(res), [0])
      case Missing =>
        var rest := Attempts(ends, k + 1);
        Report(rest.outcome, [0] + rest.waits)
      case Failed(m) =>
        if k < MaxRetries - 1 then
          var rest := Attempts(ends, k + 1);
          Report(rest.outcome, [Backoff(m, k)] + rest.waits)
        else Report(Reraised(m), [0])
  }

  /** The whole retry loop, given how each attempt ends. */
  function Retry(ends: nat -> AttemptEnd): (r: Report)
    ensures 1 <= |r.waits| <= MaxRetries
    ensures r.waits[|r.waits| - 1] == 0
  {
    Attempts(ends, 0)
  }

  /** How each attempt of a request ends, given the service's replies. */
  function Ends(x: Extraction.Extractors, path: string, replies: nat -> Reply): (r: nat -> AttemptEnd)
    ensures forall j: nat :: replies(j).Raised? ==> r(j) == Failed(replies(j).message)
    ensures forall j: nat :: replies(j) == Replied([]) ==> r(j) == Done(None)
    ensures forall j: nat :: r(j).Done? && r(j).result.Some? ==>
              replies(j).Replied? && WellFormed(Extraction.Extract(x, replies(j).text).Value())
  {
    (j: nat) => Step(x, path, replies(j))
  }

  /** `request_extract_keyword(image_path)` given the reply of each
      attempt. A returned record comes from the last attempt made, whose
      reply held a well-formed response; an exception is passed on only
      after three attempts, and it is the third reply's own exception or
      one raised while validating a malformed third response; an empty
      first reply ends the request at once with `None`. */
  function Request(x: Extraction.Extractors, path: string, replies: nat -> Reply): (r: Report)
    ensures 1 <= |r.waits| <= MaxRetries
    ensures forall i :: 0 <= i < |r.waits| ==> r.waits[i] in {0, 2, 4}
    ensures r.outcome.Returned? && r.outcome.result.Some? ==>
              var j := |r.waits| - 1;
              replies(j).Replied? && WellFormed(Extraction.Extract(x, replies(j).text).Value())
    ensures r.outcome.Reraised? ==>
              && |r.waits| == MaxRetries
              && (replies(MaxRetries - 1) == Raised(r.outcome.message)
                  || (replies(MaxRetries - 1).Replied?
                      && !WellFormed(Extraction.Extract(x, replies(MaxRetries - 1).text).Value())))
    ensures replies(0) == Replied([]) ==> r == Report(Returned(None), [0])
  {
    var ends := Ends(x, path, replies);
    var r := Attempts(ends, 0);
    assert r.outcome.Reraised? ==> ends(MaxRetries - 1) == Failed(r.outcome.message);
    assert replies(0) == Replied([]) ==> ends(0) == Done(None);
    r
  }

  /** The first attempt that returns decides the outcome, after exactly
      that many attempts. */
  lemma FirstDoneDecides(ends: nat -> AttemptEnd, i: nat)
    requires i < MaxRetries && ends(i).Done?
    requires forall j :: 0 <= j < i ==> !ends(j).Done?
    ensures Retry(ends).outcome == Returned(ends(i).result)
    ensures |Retry(ends).waits| == i + 1
  {
    FromAttempt(ends, 0, i);
  }

  lemma {:induction false} FromAttempt(ends: nat -> AttemptEnd, k: nat, i: nat)
    requires k <= i < MaxRetries && ends(i).Done?
    requires forall j :: k <= j < i ==> !ends(j).Done?
    ensures Attempts(ends, k).outcome == Returned(ends(i).result)
    ensures |Attempts(ends, k).waits| == i - k + 1
    decreases i - k
  {
    if k < i {
      FromAttempt(ends, k + 1, i);
    }
  }

  /** The exception reaches the caller exactly when no attempt returned
      and the third attempt failed; it is the third attempt's exception. */
  lemma ReraisedIff(ends: nat -> AttemptEnd, m: string)
    ensures Retry(ends).outcome == Reraised(m) <==>
            !ends(0).Done? && !ends(1).Done? && ends(2) == Failed(m)
  {
    if !ends(0).Done? && !ends(1).Done? && ends(2) == Failed(m) {
      assert Attempts(ends, 2).outcome == Reraised(m);
      assert Attempts(ends, 1).outcome == Reraised(m);
    }
  }

  /** Three attempts that all miss a required field end with `None`,
      without any wait. */
  lemma AllMissingGivesNone(ends: nat -> AttemptEnd)
    requires ends(0) == Missing && ends(1) == Missing && ends(2) == Missing
    ensures Retry(ends) == Report(Returned(None), [0, 0, 0])
  {
    assert Attempts(ends, 2) == Report(Returned(None), [0]);
  }

  /** The sleep after each attempt that is followed by another: none after
      a missing field, 2 s then 4 s after transient failures, 2 s after any
      other failure. */
  lemma WaitAfterAttempt(ends: nat -> AttemptEnd, j: nat)
    requires j < |Retry(ends).waits| - 1
    ensures ends(j).Missing? ==> Retry(ends).waits[j] == 0
    ensures ends(j).Failed? && IsTransient(ends(j).message) ==> Retry(ends).waits[j] == if j == 0 then 2 else 4
    ensures ends(j).Failed? && !IsTransient(ends(j).message) ==> Retry(ends).waits[j] == 2
  {
    WaitAt(ends, 0, j);
  }

  lemma {:induction false} WaitAt(ends: nat -> AttemptEnd, k: nat, j: nat)
    requires k <= j < MaxRetries
    requires j - k < |Attempts(ends, k).waits| - 1
    ensures var w := Attempts(ends, k).waits[j - k];
            && (ends(j).Missing? ==> w == 0)
            && (ends(j).Failed? ==> w == Backoff(ends(j).message, j))
    decreases j - k
  {
    AttemptsUnfold(ends, k);
    if k < j {
      var w := Attempts(ends, k).waits;
      assert w[j - k] == w[1..][j - (k + 1)];
      WaitAt(ends, k + 1, j);
    }
  }

  /** One attempt that does not return: its wait, then the remaining
      attempts. */
  lemma AttemptsUnfold(ends: nat -> AttemptEnd, k: nat)
    requires k < MaxRetries && |Attempts(ends, k).waits| > 1
    ensures !ends(k).Done?
    ensures Attempts(ends, k).waits[1..] == Attempts(ends, k + 1).waits
    ensures ends(k).Missing? ==> Attempts(ends, k).waits[0] == 0
    ensures ends(k).Failed? ==> Attempts(ends, k).waits[0] == Backoff(ends(k).message, k)
  {
    var r := Attempts(ends, k);
    match ends(k)
    case Done(_) =>
    case Missing =>
      assert r.waits == [0] + Attempts(ends, k + 1).waits;
    case Failed(m) =>
      assert r.waits == [Backoff(m, k)] + Attempts(ends, k + 1).waits;
  }

  function Sum(s: seq<nat>): nat {
    if s == [] then 0 else s[0] + Sum(s[1..])
  }

  lemma SumOfThree(w: seq<nat>)
    requires |w| == 3
    ensures Sum(w) == w[0] + w[1] + w[2]
  {
    assert w[1..][1..] == w[2..];
    assert w[2..][1..] == [];
    assert Sum(w[2..]) == w[2];
    assert Sum(w[1..]) == w[1] + w[2];
  }

  lemma SumOfTwo(w: seq<nat>)
    requires |w| == 2
    ensures Sum(w) == w[0] + w[1]
  {
    assert w[1..][1..] == [];
    assert Sum(w[1..]) == w[1];
  }

  /** A request never sleeps more than 6 s in total. */
  lemma TotalWaitAtMostSix(ends: nat -> AttemptEnd)
    ensures Sum(Retry(ends).waits) <= 6
  {
    var w := Retry(ends).waits;
    if |w| == 1 {
      assert w[1..] == [];
    } else if |w| == 2 {
      SumOfTwo(w);
    } else {
      SumOfThree(w);
      WaitAt(ends, 0, 0);
    }
  }

  /** An empty reply ends the request with `None` after one attempt. */
  lemma EmptyReplyNoRetry(x: Extraction.Extractors, path: string, replies: nat -> Reply)
    requires replies(0) == Replied([])
    ensures Request(x, path, replies) == Report(Returned(None), [0])
  {
    assert Ends(x, path, replies)(0) == Done(None);
  }

  /** A service that keeps answering "529 overloaded" is tried three times,
      with waits of 2 s and 4 s, and its error is re-raised. */
  lemma AlwaysOverloaded(x: Extraction.Extractors, path: string, replies: nat -> Reply, m: string)
    requires Contains(m, "529")
    requires forall j :: replies(j) == Raised(m)
    ensures Request(x, path, replies) == Report(Reraised(m), [2, 4, 0])
  {
    var ends := Ends(x, path, replies);
    assert ends(0) == Failed(m) && ends(1) == Failed(m) && ends(2) == Failed(m);
    assert Attempts(ends, 2) == Report(Reraised(m), [0]);
    assert Attempts(ends, 1) == Report(Reraised(m), [4, 0]);
  }

  /** A returned record names the image by its base name, carries the path
      with forward slashes only, and has captions that a second
      normalisation leaves unchanged. */
  lemma RecordShape(x: Extraction.Extractors, path: string, replies: nat -> Reply)
    requires Request(x, path, replies).outcome.Returned?
    requires Request(x, path, replies).outcome.result.Some?
    ensures var rec := Request(x, path, replies).outcome.result.value;
            && rec.content == Basename(path)
            && rec.imagePath == ReplaceChar(path, '\\', '/')
            && Captions.Normalise(rec.text.english) == rec.text.english
            && Captions.Normalise(rec.text.korean) == rec.text.korean
  {
    var ends := Ends(x, path, replies);
    var res := Retry(ends).outcome.result;
    DoneSomewhere(ends, 0);
    var i :| 0 <= i < MaxRetries && ends(i) == Done(res);
    RecordFields(x, path, replies(i), res.value);
  }

  lemma {:induction false} DoneSomewhere(ends: nat -> AttemptEnd, k: nat)
    requires k <= MaxRetries
    requires Attempts(ends, k).outcome.Returned?
    requires Attempts(ends, k).outcome.result.Some?
    ensures exists i :: k <= i < MaxRetries && ends(i) == Done(Attempts(ends, k).outcome.result)
    decreases MaxRetries - k
  {
    if k < MaxRetries && !ends(k).Done? {
      DoneSomewhere(ends, k + 1);
    }
  }

  /** When attempt `i` is the first to end, with a record, the request
      returns that record after `i + 1` attempts, and its captions are those
      that attempt's reply asked for, stripped and cut to three sentences. */
  lemma RecordOfFirstSuccess(x: Extraction.Extractors, path: string, replies: nat -> Reply, i: nat, rec: Record)
    requires i < MaxRetries
    requires Step(x, path, replies(i)) == Done(Some(rec))
    requires forall j :: 0 <= j < i ==> !Step(x, path, replies(j)).Done?
    ensures Request(x, path, replies) == Report(Returned(Some(rec)), Request(x, path, replies).waits)
    ensures |Request(x, path, replies).waits| == i + 1
    ensures RequestedCaptions(x, replies(i)) == Some(rec.text)
  {
    var ends := Ends(x, path, replies);
    assert forall j :: 0 <= j < i ==> !ends(j).Done?;
    FirstDoneDecides(ends, i);
    ValidatedCaptions(x, path, replies(i), rec);
  }

  /** A record built by one attempt holds the captions its reply asked for. */
  lemma ValidatedCaptions(x: Extraction.Extractors, path: string, reply: Reply, rec: Record)
    requires Step(x, path, reply) == Done(Some(rec))
    ensures RequestedCaptions(x, reply) == Some(rec.text)
  {
    var v := Extraction.Extract(x, reply.text).Value();
    assert Json.Truthy(v) && Step(x, path, reply) == Validate(path, v);
  }

  /** A record produced by one attempt holds that reply's normalised
      captions, the image's base name and its slash-normalised path. */
  lemma ValidatedRecord(x: Extraction.Extractors, path: string, reply: Reply, rec: Record)
    requires Step(x, path, reply) == Done(Some(rec))
    ensures rec.content == Basename(path)
    ensures rec.imagePath == ReplaceChar(path, '\\', '/')
    ensures RequestedCaptions(x, reply) == Some(rec.text)
    ensures Captions.Normalise(rec.text.english) == rec.text.english
    ensures Captions.Normalise(rec.text.korean) == rec.text.korean
  {
    RecordFields(x, path, reply, rec);
    ValidatedCaptions(x, path, reply, rec);
  }

  lemma RecordFields(x: Extraction.Extractors, path: string, reply: Reply, rec: Record)
    requires Step(x, path, reply) == Done(Some(rec))
    ensures rec.content == Basename(path)
    ensures rec.imagePath == ReplaceChar(path, '\\', '/')
    ensures Captions.Normalise(rec.text.english) == rec.text.english
    ensures Captions.Normalise(rec.text.korean) == rec.text.korean
  {
    var v := Extraction.Extract(x, reply.text).Value();
    var t := v.fields["text"];
    var en := t.fields["english_caption"].s;
    var ko := t.fields["korean_caption"].s;
    assert Json.Truthy(v) && Step(x, path, reply) == Validate(path, v);
    assert rec == MakeRecord(path, en, ko);
    Captions.NormaliseIdempotent(en);
    Captions.NormaliseIdempotent(ko);
  }


  /** An attempt that neither returns nor re-raises leaves the outcome to
      the attempts after it. */
  lemma OutcomePassesOn(ends: nat -> AttemptEnd, k: nat)
    requires k < MaxRetries && !ends(k).Done?
    requires Attempts(ends, k).outcome.Returned?
    ensures Attempts(ends, k).outcome == Attempts(ends, k + 1).outcome
  {
  }
}
