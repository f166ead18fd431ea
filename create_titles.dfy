/**
 * The title generator's batch: for every listed document, in listing order,
 * skip it when a note carries the `Processed(v2)` marker, otherwise ask the
 * language model for a title, parse it, and send the document back with only
 * its title replaced when the title is non-empty and at most 120 code units.
 *
 * The two remote services are parameters: `complete` maps a document's content
 * to the inference service's response, and `accept` says whether the document
 * service answers a full-record update with success. Any failure of either
 * call (a non-success status, a network error, an answer that is not JSON)
 * throws in the source, which ends the whole run.
 */
module CreateTitles {
  import opened Wrappers
  import opened Text
  import opened TitleParser

  /** Longest title, in code units, that is sent back. */
  const MaxTitleLength := 120

  /** The note text that marks a document as already handled. */
  const ProcessedMarker: Str := Units("Processed(v2)")

  datatype Note = Note(note: Str)

  /** A document as listed by the document service. `rest` stands for every
    * other field of the record (tags, dates, correspondent, ...), which the
    * update passes back untouched. */
  datatype Document = Document(id: nat, title: Str, content: Str, notes: seq<Note>, rest: map<Str, Str>)

  /** The inference service's answer: the generated text, or a non-success status. */
  datatype Response = Ok(body: Str) | NotOk

  /** A request the run makes: a completion for some content, or a full update of a document. */
  datatype Call = Complete(content: Str) | Put(doc: Document)

  /** What one iteration of the loop does with one document. */
  datatype Outcome =
    | Skipped                      // a note carries the marker
    | CompletionFailed             // the inference service failed: the run stops
    | Unparseable                  // no `Title: "..."` in the reply
    | EmptyTitle                   // `Title: ""`: the empty string is falsy
    | TooLong(title: Str)          // rejected and logged
    | Updated(doc: Document)       // update sent and accepted
    | UpdateFailed(doc: Document)  // update sent and refused: the run stops
  {
    predicate Aborts() { CompletionFailed? || UpdateFailed? }
    predicate SendsUpdate() { Updated? || UpdateFailed? }
  }

  /** Reference meaning of "already processed". */
  ghost predicate HasMarkedNote(d: Document) {
    exists k :: 0 <= k < |d.notes| && Contains(d.notes[k].note, ProcessedMarker)
  }

  /** `notes.some(({ note }) => note.includes(marker))`. */
  function AnyNoteIncludes(notes: seq<Note>, marker: Str): (b: bool)
    ensures b <==> exists k :: 0 <= k < |notes| && Contains(notes[k].note, marker)
  {
    if notes == [] then false
    else Includes(notes[0].note, marker) || AnyNoteIncludes(notes[1..], marker)
  }

  /** The skip test of the loop: some note of `d` contains `Processed(v2)`. */
  function IsProcessed(d: Document): (b: bool)
    ensures b <==> HasMarkedNote(d)
  {
    AnyNoteIncludes(d.notes, ProcessedMarker)
  }

  /** `u` is `d` with at most its title changed. */
  predicate IsRetitled(u: Document, d: Document) {
    u.id == d.id && u.content == d.content && u.notes == d.notes && u.rest == d.rest
  }

  /** The update `u` is what the run may send for `d`: `d` is not processed,
    * the model's reply for `d`'s content yields exactly `u`'s title, that title
    * is non-empty and at most 120 code units, and nothing but the title changed. */
  ghost predicate IsValidUpdate(d: Document, u: Document, complete: Str -> Response) {
    && !HasMarkedNote(d)
    && IsRetitled(u, d)
    && 0 < |u.title| <= MaxTitleLength
    && complete(d.content).Ok?
    && ExtractTitle(complete(d.content).body) == Some(u.title)
  }

  /** One iteration of the loop over the listing, case by case: skipped
    * exactly when a note carries the marker; the run fails exactly on a
    * failed completion or a refused update; an update is sent exactly when
    * the reply parses to a non-empty title of at most 120 code units, and then
    * it is a valid update; rejected as too long exactly when the parsed title
    * is longer. */
  function Handle(d: Document, complete: Str -> Response, accept: Document -> bool): (o: Outcome)
    ensures var r := complete(d.content);
            && (o.Skipped? <==> HasMarkedNote(d))
            && (o.CompletionFailed? <==> !HasMarkedNote(d) && r.NotOk?)
            && (o.Unparseable? <==> !HasMarkedNote(d) && r.Ok? && ExtractTitle(r.body).None?)
            && (o.EmptyTitle? <==> !HasMarkedNote(d) && r.Ok? && ExtractTitle(r.body) == Some([]))
            && (o.TooLong? <==>
                  !HasMarkedNote(d) && r.Ok? && ExtractTitle(r.body).Some? &&
                  |ExtractTitle(r.body).value| > MaxTitleLength)
            && (o.TooLong? ==> ExtractTitle(r.body) == Some(o.title))
            && (o.SendsUpdate() <==>
                  !HasMarkedNote(d) && r.Ok? && ExtractTitle(r.body).Some? &&
                  0 < |ExtractTitle(r.body).value| <= MaxTitleLength)
            && (o.SendsUpdate() ==> IsValidUpdate(d, o.doc, complete))
            && (o.SendsUpdate() ==> (o.Updated? <==> accept(o.doc)))
  {
    if IsProcessed(d) then Skipped
    else
      match complete(d.content)
      case NotOk => CompletionFailed
      case Ok(reply) =>
        match ExtractTitle(reply)
        case None => Unparseable
        case Some(t) =>
          if |t| == 0 then EmptyTitle
          else if |t| > MaxTitleLength then TooLong(t)
          else
            var u := d.(title := t);
            if accept(u) then Updated(u) else UpdateFailed(u)
  }

  /** The requests one iteration makes, in the order it makes them. */
  function CallsOf(d: Document, o: Outcome): (calls: seq<Call>)
    ensures o.Skipped? <==> calls == []
    ensures forall c :: c in calls && c.Put? ==> o.SendsUpdate() && c == Put(o.doc)
  {
    match o
    case Skipped => []
    case Updated(u) => [Complete(d.content), Put(u)]
    case UpdateFailed(u) => [Complete(d.content), Put(u)]
    case _ => [Complete(d.content)]
  }

  /** One iteration of the loop for the given services, as a function of the document. */
  function Handler(complete: Str -> Response, accept: Document -> bool): Document -> Outcome {
    d => Handle(d, complete, accept)
  }

  /** `outs` are what `step` does with the first `|outs|` documents. */
  ghost predicate Consistent(docs: seq<Document>, outs: seq<Outcome>, step: Document -> Outcome) {
    |outs| <= |docs| && forall k :: 0 <= k < |outs| ==> outs[k] == step(docs[k])
  }

  /** The loop has stopped: its last iteration made a request that failed. */
  predicate Stopped(outs: seq<Outcome>) {
    |outs| > 0 && outs[|outs| - 1].Aborts()
  }

  /** The outcomes of the loop over the first `n` documents of the listing, in
    * listing order: once an iteration fails, nothing after it is handled. */
  function RunTo(docs: seq<Document>, n: nat, step: Document -> Outcome): (outs: seq<Outcome>)
    requires n <= |docs|
    ensures |outs| <= n
  {
    if n == 0 then []
    else
      var prev := RunTo(docs, n - 1, step);
      if Stopped(prev) then prev else prev + [step(docs[n - 1])]
  }

  /** The outcomes of the whole run: they belong to a prefix of the listing,
    * in order, each as one iteration decides; every outcome but the last lets
    * the loop go on; and the run stops before the end of the listing only
    * because the last request it made failed. */
  function Outcomes(docs: seq<Document>, complete: Str -> Response, accept: Document -> bool): (outs: seq<Outcome>)
    ensures Consistent(docs, outs, Handler(complete, accept))
    ensures forall k :: 0 <= k < |outs| - 1 ==> !outs[k].Aborts()
    ensures |outs| < |docs| ==> Stopped(outs)
  {
    RunToFacts(docs, |docs|, Handler(complete, accept));
    RunTo(docs, |docs|, Handler(complete, accept))
  }

  /** The requests made for the first `|outs|` documents, in order. */
  function Trace(docs: seq<Document>, outs: seq<Outcome>): seq<Call>
    requires |outs| <= |docs|
    decreases |outs|
  {
    if outs == [] then []
    else Trace(docs, outs[..|outs| - 1]) + CallsOf(docs[|outs| - 1], outs[|outs| - 1])
  }

  /** The body of the loop for one document, as the source writes it: returns
    * the requests it makes and whether a failed request throws. */
  method HandleDocument(d: Document, complete: Str -> Response, accept: Document -> bool)
    returns (calls: seq<Call>, aborts: bool)
    ensures var o := Handler(complete, accept)(d);
            calls == CallsOf(d, o) && aborts == o.Aborts()
  {
    calls, aborts := [], false;
    if IsProcessed(d) {
      return;
    }
    calls := [Complete(d.content)];
    var response := complete(d.content);
    if response.NotOk? {
      aborts := true;
      return;
    }
    var title := ExtractTitle(response.body);
    if title.Some? && |title.value| > 0 {
      if |title.value| > MaxTitleLength {
        // logged as too long; nothing is sent
        return;
      }
      var updated := d.(title := title.value);
      calls := calls + [Put(updated)];
      aborts := !accept(updated);
    }
  }

  /** Appending one iteration's outcome appends its requests to the trace. */
  lemma TraceStep(docs: seq<Document>, outs: seq<Outcome>, o: Outcome)
    requires |outs| < |docs|
    ensures Trace(docs, outs + [o]) == Trace(docs, outs) + CallsOf(docs[|outs|], o)
  {
    assert (outs + [o])[..|outs|] == outs;
  }

  /** One more turn of a loop that has not stopped: the outcome of the next
    * document is appended, the loop stops exactly when that outcome fails, and
    * the requests of that turn are appended to the trace. */
  lemma RunStep(docs: seq<Document>, i: nat, step: Document -> Outcome)
    requires i < |docs|
    requires var outs := RunTo(docs, i, step); !Stopped(outs) && |outs| == i
    ensures var outs, o := RunTo(docs, i, step), step(docs[i]);
            && RunTo(docs, i + 1, step) == outs + [o]
            && (Stopped(outs + [o]) <==> o.Aborts())
            && Trace(docs, outs + [o]) == Trace(docs, outs) + CallsOf(docs[i], o)
  {
    TraceStep(docs, RunTo(docs, i, step), step(docs[i]));
  }

  /** Once the loop has stopped, handling more of the listing adds nothing. */
  lemma {:induction false} StoppedRunIsFinal(docs: seq<Document>, i: nat, n: nat, step: Document -> Outcome)
    requires i <= n <= |docs|
    requires Stopped(RunTo(docs, i, step))
    ensures RunTo(docs, n, step) == RunTo(docs, i, step)
    decreases n - i
  {
    if i < n {
      assert RunTo(docs, i + 1, step) == RunTo(docs, i, step);
      StoppedRunIsFinal(docs, i + 1, n, step);
    }
  }

  /** The loop over the listing in the callback the source hands to
    * `Promise.resolve().then`. Returns the requests it
    * makes, in order, and whether it ended by a thrown error. */
  method GenerateTitles(docs: seq<Document>, complete: Str -> Response, accept: Document -> bool)
    returns (calls: seq<Call>, aborted: bool)
    ensures var outs := Outcomes(docs, complete, accept);
            calls == Trace(docs, outs) && aborted == Stopped(outs)
  {
    calls, aborted := [], false;
    ghost var step := Handler(complete, accept);
    ghost var outs: seq<Outcome> := [];
    var i := 0;
    while i < |docs| && !aborted
      invariant 0 <= i <= |docs|
      invariant outs == RunTo(docs, i, step)
      invariant aborted == Stopped(outs)
      invariant !aborted ==> |outs| == i
      invariant calls == Trace(docs, outs)
    {
      var made, stop := HandleDocument(docs[i], complete, accept);
      ghost var o := step(docs[i]);
      RunStep(docs, i, step);
      calls := calls + made;
      aborted := stop;
      outs := outs + [o];
      i := i + 1;
    }
    if aborted {
      StoppedRunIsFinal(docs, i, |docs|, step);
    }
  }

  /** The run handles a prefix of the listing in order, each document as
    * `step` says; every outcome but the last lets the loop go on; and the run
    * ends before the listing does only because the last request failed. */
  lemma {:induction false} RunToFacts(docs: seq<Document>, n: nat, step: Document -> Outcome)
    requires n <= |docs|
    ensures var outs := RunTo(docs, n, step);
            && Consistent(docs, outs, step)
            && (forall k :: 0 <= k < |outs| - 1 ==> !outs[k].Aborts())
            && (|outs| < n ==> Stopped(outs))
  {
    if n > 0 {
      RunToFacts(docs, n - 1, step);
      var prev := RunTo(docs, n - 1, step);
      if !Stopped(prev) {
        var outs := prev + [step(docs[n - 1])];
        assert forall k :: 0 <= k < |prev| ==> outs[k] == prev[k];
      }
    }
  }

  /** When both services always succeed, every document of the listing is handled. */
  lemma NoFailureHandlesEveryDocument(docs: seq<Document>, complete: Str -> Response, accept: Document -> bool)
    requires forall c :: complete(c).Ok?
    requires forall u :: accept(u)
    ensures var outs := Outcomes(docs, complete, accept);
            |outs| == |docs| && forall k :: 0 <= k < |outs| ==> !outs[k].Aborts()
  {
    var outs := Outcomes(docs, complete, accept);
    forall k | 0 <= k < |outs| ensures !outs[k].Aborts() {
      assert outs[k] == Handle(docs[k], complete, accept);
    }
  }

  /** The contents sent to the inference service, in order. */
  function Requests(calls: seq<Call>): seq<Str> {
    if calls == [] then []
    else (if calls[0].Complete? then [calls[0].content] else []) + Requests(calls[1..])
  }

  /** The documents sent to the update endpoint, in order. */
  function Updates(calls: seq<Call>): seq<Document> {
    if calls == [] then []
    else (if calls[0].Put? then [calls[0].doc] else []) + Updates(calls[1..])
  }

  lemma {:induction false} RequestsAppend(a: seq<Call>, b: seq<Call>)
    ensures Requests(a + b) == Requests(a) + Requests(b)
  {
    if a == [] {
      assert a + b == b;
    } else {
      var head := if a[0].Complete? then [a[0].content] else [];
      assert (a + b)[0] == a[0] && (a + b)[1..] == a[1..] + b;
      RequestsAppend(a[1..], b);
      assert Requests(a + b) == head + (Requests(a[1..]) + Requests(b));
      assert head + (Requests(a[1..]) + Requests(b)) == (head + Requests(a[1..])) + Requests(b);
    }
  }

  lemma {:induction false} UpdatesAppend(a: seq<Call>, b: seq<Call>)
    ensures Updates(a + b) == Updates(a) + Updates(b)
  {
    if a == [] {
      assert a + b == b;
    } else {
      var head := if a[0].Put? then [a[0].doc] else [];
      assert (a + b)[0] == a[0] && (a + b)[1..] == a[1..] + b;
      UpdatesAppend(a[1..], b);
      assert Updates(a + b) == head + (Updates(a[1..]) + Updates(b));
      assert head + (Updates(a[1..]) + Updates(b)) == (head + Updates(a[1..])) + Updates(b);
    }
  }

  /** The contents of the documents that are not already processed, in listing order. */
  function UnprocessedContents(docs: seq<Document>): seq<Str>
    decreases |docs|
  {
    if docs == [] then []
    else
      var d := docs[|docs| - 1];
      UnprocessedContents(docs[..|docs| - 1]) + if IsProcessed(d) then [] else [d.content]
  }

  /** The inference service is asked exactly once for every handled document
    * that is not already processed, in listing order, and never for a
    * processed one. */
  lemma RequestsAreUnprocessedContents(docs: seq<Document>, outs: seq<Outcome>, complete: Str -> Response, accept: Document -> bool)
    requires Consistent(docs, outs, Handler(complete, accept))
    ensures Requests(Trace(docs, outs)) == UnprocessedContents(docs[..|outs|])
  {
    forall k | 0 <= k < |outs| ensures outs[k].Skipped? <==> IsProcessed(docs[k]) {
      assert outs[k] == Handle(docs[k], complete, accept);
    }
    RequestsFollowSkips(docs, outs);
  }

  /** When the skipped iterations are exactly those of processed documents,
    * the requests are the contents of the unprocessed documents. */
  lemma {:induction false} RequestsFollowSkips(docs: seq<Document>, outs: seq<Outcome>)
    requires |outs| <= |docs|
    requires forall k :: 0 <= k < |outs| ==> (outs[k].Skipped? <==> IsProcessed(docs[k]))
    ensures Requests(Trace(docs, outs)) == UnprocessedContents(docs[..|outs|])
    decreases |outs|
  {
    var n := |outs|;
    if n == 0 {
      assert docs[..0] == [];
    } else {
      RequestsFollowSkips(docs, outs[..n - 1]);
      TraceRequestsStep(docs, outs);
      UnprocessedContentsStep(docs, n);
      RequestsOfOne(docs[n - 1], outs[n - 1]);
    }
  }

  /** The requests of the first `|outs|` iterations: those of all but the last,
    * then those of the last. */
  lemma TraceRequestsStep(docs: seq<Document>, outs: seq<Outcome>)
    requires 0 < |outs| <= |docs|
    ensures var n := |outs|;
            Requests(Trace(docs, outs)) ==
            Requests(Trace(docs, outs[..n - 1])) + Requests(CallsOf(docs[n - 1], outs[n - 1]))
  {
    var n := |outs|;
    RequestsAppend(Trace(docs, outs[..n - 1]), CallsOf(docs[n - 1], outs[n - 1]));
  }

  /** The unprocessed contents of the first `n` documents: those of the first
    * `n - 1`, then document `n - 1`'s if it is not processed. */
  lemma UnprocessedContentsStep(docs: seq<Document>, n: nat)
    requires 0 < n <= |docs|
    ensures UnprocessedContents(docs[..n]) ==
            UnprocessedContents(docs[..n - 1]) + (if IsProcessed(docs[n - 1]) then [] else [docs[n - 1].content])
  {
    var prefix := docs[..n];
    assert prefix[..n - 1] == docs[..n - 1] && prefix[n - 1] == docs[n - 1];
  }

  /** One iteration asks for a completion of the document's content unless it is skipped. */
  lemma RequestsOfOne(d: Document, o: Outcome)
    ensures Requests(CallsOf(d, o)) == if o.Skipped? then [] else [d.content]
  {
    if o.SendsUpdate() {
      assert Requests([Put(o.doc)]) == [];
    }
  }

  /** The positions, in `outs`, of the outcomes that send an update, in increasing order. */
  function SentIndices(outs: seq<Outcome>): (idx: seq<nat>)
    ensures forall m :: 0 <= m < |idx| ==> idx[m] < |outs| && outs[idx[m]].SendsUpdate()
    ensures forall m, n :: 0 <= m < n < |idx| ==> idx[m] < idx[n]
    ensures forall k :: 0 <= k < |outs| && outs[k].SendsUpdate() ==> k in idx
    decreases |outs|
  {
    if outs == [] then []
    else
      var p := outs[..|outs| - 1];
      SentIndices(p) + if outs[|outs| - 1].SendsUpdate() then [|outs| - 1] else []
  }

  /** The updates in the trace are the documents of the sending outcomes, in order. */
  lemma {:induction false} UpdatesFollowSentIndices(docs: seq<Document>, outs: seq<Outcome>)
    requires |outs| <= |docs|
    ensures var us, idx := Updates(Trace(docs, outs)), SentIndices(outs);
            |us| == |idx| && forall m :: 0 <= m < |us| ==> us[m] == outs[idx[m]].doc
    decreases |outs|
  {
    var n := |outs|;
    if n > 0 {
      var p, o := outs[..n - 1], outs[n - 1];
      UpdatesFollowSentIndices(docs, p);
      TraceUpdatesStep(docs, outs);
      UpdatesOfOne(docs[n - 1], o);
      var us, idx := Updates(Trace(docs, p)), SentIndices(p);
      var last, tail := if o.SendsUpdate() then [o.doc] else [], if o.SendsUpdate() then [n - 1] else [];
      assert SentIndices(outs) == idx + tail;
      forall m | 0 <= m < |us + last| ensures (us + last)[m] == outs[(idx + tail)[m]].doc {
        if m < |us| {
          assert (us + last)[m] == us[m] && (idx + tail)[m] == idx[m];
          assert outs[idx[m]] == p[idx[m]];
        }
      }
    }
  }

  /** The updates of the first `|outs|` iterations: those of all but the last,
    * then those of the last. */
  lemma TraceUpdatesStep(docs: seq<Document>, outs: seq<Outcome>)
    requires 0 < |outs| <= |docs|
    ensures var n := |outs|;
            Updates(Trace(docs, outs)) ==
            Updates(Trace(docs, outs[..n - 1])) + Updates(CallsOf(docs[n - 1], outs[n - 1]))
  {
    var n := |outs|;
    UpdatesAppend(Trace(docs, outs[..n - 1]), CallsOf(docs[n - 1], outs[n - 1]));
  }

  /** One iteration sends its outcome's document exactly when the outcome sends an update. */
  lemma UpdatesOfOne(d: Document, o: Outcome)
    ensures Updates(CallsOf(d, o)) == if o.SendsUpdate() then [o.doc] else []
  {
    if o.SendsUpdate() {
      assert Updates([Put(o.doc)]) == [o.doc];
    } else if !o.Skipped? {
      assert Updates([Complete(d.content)]) == [];
    }
  }

  /** What is sent to the update endpoint: one record per document whose reply
    * holds a non-empty title of at most 120 code units, in listing order, each
    * the listed document with only its title replaced by the extracted title;
    * nothing for a processed document, an unparseable reply, an empty title or
    * a title that is too long. */
  lemma UpdatesAreValidRetitlesInListingOrder(docs: seq<Document>, outs: seq<Outcome>, complete: Str -> Response, accept: Document -> bool)
    requires Consistent(docs, outs, Handler(complete, accept))
    ensures var us, idx := Updates(Trace(docs, outs)), SentIndices(outs);
            && |us| == |idx|
            && (forall m :: 0 <= m < |us| ==> idx[m] < |outs| && IsValidUpdate(docs[idx[m]], us[m], complete))
            && (forall m, n :: 0 <= m < n < |idx| ==> idx[m] < idx[n])
            && (forall k :: 0 <= k < |outs| ==> (k in idx <==> Handle(docs[k], complete, accept).SendsUpdate()))
  {
    UpdatesFollowSentIndices(docs, outs);
    var us, idx := Updates(Trace(docs, outs)), SentIndices(outs);
    forall m | 0 <= m < |us| ensures IsValidUpdate(docs[idx[m]], us[m], complete) {
      assert outs[idx[m]] == Handle(docs[idx[m]], complete, accept);
    }
  }

  /** The batch as a whole: the requests `GenerateTitles` makes for the listing. */
  lemma RunGuarantees(docs: seq<Document>, complete: Str -> Response, accept: Document -> bool)
    ensures var outs := Outcomes(docs, complete, accept);
            var calls := Trace(docs, outs);
            && Requests(calls) == UnprocessedContents(docs[..|outs|])
            && (forall u :: u in Updates(calls) ==> |u.title| <= MaxTitleLength)
            && (forall u :: u in Updates(calls) ==> exists k :: 0 <= k < |outs| && IsValidUpdate(docs[k], u, complete))
  {
    var outs := Outcomes(docs, complete, accept);
    RequestsAreUnprocessedContents(docs, outs, complete, accept);
    EveryUpdateIsValid(docs, outs, complete, accept);
  }

  /** Every update sent is a valid update for one of the handled documents. */
  lemma EveryUpdateIsValid(docs: seq<Document>, outs: seq<Outcome>, complete: Str -> Response, accept: Document -> bool)
    requires Consistent(docs, outs, Handler(complete, accept))
    ensures forall u :: u in Updates(Trace(docs, outs)) ==> exists k :: 0 <= k < |outs| && IsValidUpdate(docs[k], u, complete)
  {
    UpdatesAreValidRetitlesInListingOrder(docs, outs, complete, accept);
    var us, idx := Updates(Trace(docs, outs)), SentIndices(outs);
    forall u | u in us ensures exists k :: 0 <= k < |outs| && IsValidUpdate(docs[k], u, complete) {
      var m :| 0 <= m < |us| && us[m] == u;
      assert IsValidUpdate(docs[idx[m]], u, complete);
    }
  }

  /** A document with a note `Processed(v2) done` gets no request at all. */
  lemma MarkedDocumentIsSkipped(d: Document, complete: Str -> Response, accept: Document -> bool)
    requires d.notes == [Note(Units("Processed(v2) done"))]
    ensures Handle(d, complete, accept) == Skipped
    ensures CallsOf(d, Handle(d, complete, accept)) == []
  {
    var note := d.notes[0].note;
    assert note[..|ProcessedMarker|] == ProcessedMarker;
    assert OccursAt(note, ProcessedMarker, 0);
  }
}
