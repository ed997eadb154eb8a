/** Progress reporting while the research run is being polled
    (`DeepResearcher.fetch_response` and the polling loop of
    `DeepResearcher.send_message`). The progress file is modelled as the
    string of blocks appended to it; the remote service is modelled by the
    run status and last agent message it returns on each poll. */
module Progress {
  import opened Text
  import opened Messages
  import Summary

  /** Sentinel that starts an intermediate reasoning segment. */
  const Marker := "cot_summary:"
  /** What every occurrence of the sentinel is rewritten to. */
  const ReasoningLabel := "Reasoning:"
  const AgentHeader := "\nAGENT>\n"

  /** Some text segment of the message starts with the sentinel
      (`any(t.text.value.startswith("cot_summary:") ...)`). */
  predicate IsReasoningUpdate(m: Message)
  {
    exists i :: 0 <= i < |m.segments| && StartsWith(m.segments[i], Marker)
  }

  /** Every segment with each sentinel occurrence rewritten. */
  function RelabeledSegments(segments: seq<string>): seq<string>
  {
    seq(|segments|, i requires 0 <= i < |segments| => ReplaceAll(segments[i], Marker, ReasoningLabel))
  }

  /** The relabelled segments joined by newlines. */
  function AgentText(m: Message): string
  {
    Join("\n", RelabeledSegments(m.segments))
  }

  /** Python's f-string rendering of an optional title: `None` prints as
      the word None. */
  function ShowTitle(t: Option<string>): (r: string)
    ensures t.None? ==> r == "None"
    ensures t.Some? ==> r == t.value
  {
    match t
    case Some(s) => s
    case None => "None"
  }

  /** `Citation: [title](url)` on a line of its own. */
  function CitationLine(a: Annotation): (r: string)
    ensures |r| == |ShowTitle(a.title)| + |a.url| + 15
    ensures StartsWith(r, "Citation: [") && r[|r| - 1] == '\n'
    ensures r[11..11 + |ShowTitle(a.title)|] == ShowTitle(a.title)
    ensures r[11 + |ShowTitle(a.title)|..13 + |ShowTitle(a.title)|] == "]("
    ensures r[|r| - |a.url| - 2..] == a.url + ")\n"
  {
    "Citation: [" + ShowTitle(a.title) + "](" + a.url + ")\n"
  }

  /** One citation line per annotation, in order, duplicates included. */
  function CitationLines(anns: seq<Annotation>): string
    decreases |anns|
  {
    if anns == [] then "" else CitationLine(anns[0]) + CitationLines(anns[1..])
  }

  /** Citation lines follow the annotations in order: one more annotation
      appends its line at the end. */
  lemma {:induction false} CitationLinesAppend(anns: seq<Annotation>, a: Annotation)
    ensures CitationLines(anns + [a]) == CitationLines(anns) + CitationLine(a)
    decreases |anns|
  {
    if anns == [] {
      assert CitationLines([a]) == CitationLine(a) + CitationLines([]);
    } else {
      assert (anns + [a])[1..] == anns[1..] + [a];
      CitationLinesAppend(anns[1..], a);
    }
  }

  /** The text appended to the progress file for one reasoning update. */
  function Block(m: Message): string
  {
    AgentHeader + AgentText(m) + "\n" + CitationLines(m.annotations)
  }

  /** How a block is laid out: the header, the reasoning text, which holds
      no sentinel, a newline, then the citation lines. */
  lemma BlockLayout(m: Message)
    ensures var r, h, n := Block(m), |AgentHeader|, |AgentText(m)|;
            && h + n + 1 <= |r|
            && r[..h] == AgentHeader
            && r[h..h + n] == AgentText(m) && !Contains(r[h..h + n], Marker)
            && r[h + n] == '\n'
            && r[h + n + 1..] == CitationLines(m.annotations)
  {
    AgentTextHasNoMarker(m);
  }

  /** The result of one `fetch_response` call: the new watermark and the
      block appended to the progress file, if any. */
  datatype Fetched = Fetched(watermark: Option<string>, block: Option<string>)

  /** `fetch_response(last_message_id)` given the last agent message the
      service returned. Nothing is written and the watermark is kept when
      there is no message, the message is the one already processed, or no
      segment starts with the sentinel; otherwise one block is written and
      the watermark moves to the message's id. */
  function FetchResponse(last: Option<string>, response: Option<Message>): (r: Fetched)
    ensures r.block.None? <==>
              response.None? || Some(response.value.id) == last || !IsReasoningUpdate(response.value)
    ensures r.block.None? ==> r.watermark == last
    ensures r.block.Some? ==> r.watermark == Some(response.value.id) && r.block.value == Block(response.value)
  {
    match response
    case None => Fetched(last, None)
    case Some(m) =>
      if Some(m.id) == last || !IsReasoningUpdate(m) then Fetched(last, None)
      else Fetched(Some(m.id), Some(Block(m)))
  }

  /** Calling again with the returned watermark on the same message writes
      nothing and keeps the watermark. */
  lemma FetchIsIdempotent(last: Option<string>, response: Option<Message>)
    ensures FetchResponse(FetchResponse(last, response).watermark, response)
            == Fetched(FetchResponse(last, response).watermark, None)
  {
  }

  /** A text that starts with the sentinel starts with the label once
      rewritten. */
  lemma RelabelStartsWithLabel(t: string)
    requires StartsWith(t, Marker)
    ensures StartsWith(ReplaceAll(t, Marker, ReasoningLabel), ReasoningLabel)
  {
    assert t[..|Marker|] == Marker;
  }

  /** Once rewritten, a text that starts with the sentinel does not start
      with anything whose first letter differs from the label's. */
  lemma LabelPrefixExcludes(t: string, q: string)
    requires StartsWith(t, Marker)
    requires q != [] && q[0] != ReasoningLabel[0]
    ensures !StartsWith(ReplaceAll(t, Marker, ReasoningLabel), q)
  {
    RelabelStartsWithLabel(t);
    var r := ReplaceAll(t, Marker, ReasoningLabel);
    if |q| <= |r| {
      assert r[..|q|][0] == r[0] == ReasoningLabel[0];
    }
  }

  /** If the rewritten text starts with `q`, and `q` has no 'R' (the first
      letter of the label), then the original text starts with `q`. */
  lemma {:induction false} PrefixSurvivesRelabel(t: string, q: string)
    requires forall k :: 0 <= k < |q| ==> q[k] != 'R'
    requires StartsWith(ReplaceAll(t, Marker, ReasoningLabel), q)
    ensures StartsWith(t, q)
    decreases |t|
  {
    var r := ReplaceAll(t, Marker, ReasoningLabel);
    if q == [] {
    } else if |t| < |Marker| {
      assert r == t;
    } else if t[..|Marker|] == Marker {
      LabelPrefixExcludes(t, q);
      assert false;
    } else {
      var rt := ReplaceAll(t[1..], Marker, ReasoningLabel);
      assert r == [t[0]] + rt;
      assert rt[..|q| - 1] == r[..|q|][1..];
      PrefixSurvivesRelabel(t[1..], q[1..]);
      assert t[..|q|] == [t[0]] + t[1..][..|q| - 1];
    }
  }

  /** No sentinel straddles or follows a label produced by the rewrite. */
  lemma NoMarkerAfterLabel(rt: string)
    requires !Contains(rt, Marker)
    ensures !Contains(ReasoningLabel + rt, Marker)
  {
    var r := ReasoningLabel + rt;
    forall i | 0 <= i && i + |Marker| <= |r| ensures !OccursAt(r, Marker, i) {
      if i >= |ReasoningLabel| {
        OccursAfterPrefix(ReasoningLabel, rt, Marker, i);
      } else {
        assert r[i..i + |Marker|][9 - i] == r[9] == ':';
        assert Marker[9 - i] != ':';
      }
    }
  }

  /** A character kept by the rewrite (no sentinel started there) does not
      begin a sentinel in the output. */
  lemma KeptCharStartsNoMarker(s: string)
    requires |s| >= |Marker| && s[..|Marker|] != Marker
    ensures !StartsWith([s[0]] + ReplaceAll(s[1..], Marker, ReasoningLabel), Marker)
  {
    var rt := ReplaceAll(s[1..], Marker, ReasoningLabel);
    var r := [s[0]] + rt;
    if StartsWith(r, Marker) {
      assert rt[..|Marker| - 1] == r[1..|Marker|] == Marker[1..];
      PrefixSurvivesRelabel(s[1..], Marker[1..]);
      assert false;
    }
  }

  /** Nor can a sentinel start later in the output. */
  lemma NoMarkerAfterKept(s: string)
    requires |s| >= |Marker| && s[..|Marker|] != Marker
    requires !Contains(ReplaceAll(s[1..], Marker, ReasoningLabel), Marker)
    ensures !Contains([s[0]] + ReplaceAll(s[1..], Marker, ReasoningLabel), Marker)
  {
    var rt := ReplaceAll(s[1..], Marker, ReasoningLabel);
    var r := [s[0]] + rt;
    KeptCharStartsNoMarker(s);
    forall i | 0 <= i && i + |Marker| <= |r| ensures !OccursAt(r, Marker, i) {
      if i >= 1 {
        OccursAfterPrefix([s[0]], rt, Marker, i);
      }
    }
  }

  /** After the rewrite no sentinel is left in a segment: `str.replace`
      rewrites every occurrence, and the label cannot combine with the
      surrounding text into a new one. */
  lemma {:induction false} RelabelRemovesMarker(s: string)
    ensures !Contains(ReplaceAll(s, Marker, ReasoningLabel), Marker)
    decreases |s|
  {
    var r := ReplaceAll(s, Marker, ReasoningLabel);
    if |s| < |Marker| {
      forall i ensures !OccursAt(r, Marker, i) {
      }
    } else if s[..|Marker|] == Marker {
      RelabelRemovesMarker(s[|Marker|..]);
      NoMarkerAfterLabel(ReplaceAll(s[|Marker|..], Marker, ReasoningLabel));
    } else {
      RelabelRemovesMarker(s[1..]);
      NoMarkerAfterKept(s);
    }
  }

  /** The reasoning text of a block contains no sentinel at all. */
  lemma AgentTextHasNoMarker(m: Message)
    ensures !Contains(AgentText(m), Marker)
  {
    var parts := RelabeledSegments(m.segments);
    forall j | 0 <= j < |parts| ensures !Contains(parts[j], Marker) {
      RelabelRemovesMarker(m.segments[j]);
    }
    JoinWithoutPattern('\n', parts, Marker);
  }

  /** A segment that starts with the sentinel starts with the label after
      the rewrite; a segment without the sentinel is kept as it is. */
  lemma RelabelOfSegment(s: string)
    ensures StartsWith(s, Marker) ==> StartsWith(ReplaceAll(s, Marker, ReasoningLabel), ReasoningLabel)
    ensures !Contains(s, Marker) ==> ReplaceAll(s, Marker, ReasoningLabel) == s
  {
    if StartsWith(s, Marker) {
      RelabelStartsWithLabel(s);
    }
    if !Contains(s, Marker) {
      ReplaceAllWithoutPattern(s, Marker, ReasoningLabel);
    }
  }

  /** The watermark and the blocks written so far. */
  datatype Tracked = Tracked(watermark: Option<string>, blocks: seq<string>)

  /** The watermark threaded through `fetch_response` over the last agent
      messages seen on successive polls, starting from `None`. */
  function Track(observed: seq<Option<Message>>): (r: Tracked)
    ensures |r.blocks| <= |observed|
    ensures r.blocks != [] ==> r.watermark.Some?
    decreases |observed|
  {
    if observed == [] then Tracked(None, [])
    else
      var t := Track(observed[..|observed| - 1]);
      var f := FetchResponse(t.watermark, observed[|observed| - 1]);
      Tracked(f.watermark, t.blocks + if f.block.Some? then [f.block.value] else [])
  }

  /** The progress file: the blocks in the order they were appended. */
  function Concat(blocks: seq<string>): string
    decreases |blocks|
  {
    if blocks == [] then "" else Concat(blocks[..|blocks| - 1]) + blocks[|blocks| - 1]
  }

  lemma ConcatAppend(blocks: seq<string>, b: string)
    ensures Concat(blocks + [b]) == Concat(blocks) + b
  {
    assert (blocks + [b])[..|blocks|] == blocks;
  }

  lemma TrackAppend(observed: seq<Option<Message>>, x: Option<Message>)
    ensures Track(observed + [x]).watermark == FetchResponse(Track(observed).watermark, x).watermark
    ensures Track(observed + [x]).blocks
            == Track(observed).blocks
               + if FetchResponse(Track(observed).watermark, x).block.Some?
                 then [FetchResponse(Track(observed).watermark, x).block.value] else []
  {
    assert (observed + [x])[..|observed|] == observed;
  }

  /** Seeing the same last message on two consecutive polls writes at most
      one block for it. */
  lemma RepeatedObservationAddsNothing(observed: seq<Option<Message>>, x: Option<Message>)
    ensures Track(observed + [x, x]) == Track(observed + [x])
  {
    TrackAppend(observed, x);
    assert observed + [x, x] == (observed + [x]) + [x];
    TrackAppend(observed + [x], x);
    FetchIsIdempotent(Track(observed).watermark, x);
  }

  /** Two messages with one id on consecutive polls, the first a reasoning
      update: the second adds no block. */
  lemma SameIdWrittenOnce(observed: seq<Option<Message>>, m1: Message, m2: Message)
    requires m1.id == m2.id && IsReasoningUpdate(m1)
    ensures Track(observed + [Some(m1), Some(m2)]).blocks == Track(observed + [Some(m1)]).blocks
  {
    TrackAppend(observed, Some(m1));
    assert observed + [Some(m1), Some(m2)] == (observed + [Some(m1)]) + [Some(m2)];
    TrackAppend(observed + [Some(m1)], Some(m2));
  }

  /** A reasoning update whose id differs from the watermark is written
      and becomes the watermark. */
  lemma NewUpdateWritten(observed: seq<Option<Message>>, m: Message)
    requires IsReasoningUpdate(m) && Track(observed).watermark != Some(m.id)
    ensures Track(observed + [Some(m)]) == Tracked(Some(m.id), Track(observed).blocks + [Block(m)])
  {
    TrackAppend(observed, Some(m));
  }

  /** Only the last id is remembered: a reasoning update whose id comes back
      after a different one is written a second time. */
  lemma ReturningIdWrittenAgain(observed: seq<Option<Message>>, m1: Message, m2: Message)
    requires IsReasoningUpdate(m1) && IsReasoningUpdate(m2)
    requires m1.id != m2.id && Track(observed).watermark != Some(m1.id)
    ensures Track(observed + [Some(m1), Some(m2), Some(m1)]).blocks
            == Track(observed).blocks + [Block(m1), Block(m2), Block(m1)]
  {
    var o1 := observed + [Some(m1)];
    var o2 := o1 + [Some(m2)];
    NewUpdateWritten(observed, m1);
    NewUpdateWritten(o1, m2);
    NewUpdateWritten(o2, m1);
    assert observed + [Some(m1), Some(m2), Some(m1)] == o2 + [Some(m1)];
  }

  /** Some observed message has this id. */
  ghost predicate WasObserved(observed: seq<Option<Message>>, id: string)
  {
    exists i :: 0 <= i < |observed| && observed[i].Some? && observed[i].value.id == id
  }

  /** The watermark is either still `None` or the id of a message that was
      observed; it is never invented. */
  lemma {:induction false} WatermarkWasObserved(observed: seq<Option<Message>>)
    ensures Track(observed).watermark.Some? ==> WasObserved(observed, Track(observed).watermark.value)
    decreases |observed|
  {
    if observed != [] {
      var n := |observed|;
      var prev := observed[..n - 1];
      var x := observed[n - 1];
      WatermarkWasObserved(prev);
      TrackAppend(prev, x);
      assert observed == prev + [x];
      var w := Track(observed).watermark;
      if w != Track(prev).watermark {
        assert x.Some? && x.value.id == w.value;
        assert observed[n - 1] == x;
      } else if w.Some? {
        var i :| 0 <= i < |prev| && prev[i].Some? && prev[i].value.id == w.value;
        assert observed[i] == prev[i];
      }
    }
  }

  /** At most one block per poll, and every block is the block of a
      reasoning update that was observed. */
  lemma {:induction false} BlocksComeFromUpdates(observed: seq<Option<Message>>)
    ensures |Track(observed).blocks| <= |observed|
    ensures forall b :: b in Track(observed).blocks ==>
              exists i :: 0 <= i < |observed| && observed[i].Some?
                          && IsReasoningUpdate(observed[i].value) && b == Block(observed[i].value)
    decreases |observed|
  {
    if observed != [] {
      var prev := observed[..|observed| - 1];
      var x := observed[|observed| - 1];
      BlocksComeFromUpdates(prev);
      TrackAppend(prev, x);
      assert observed == prev + [x];
      forall b | b in Track(observed).blocks
        ensures exists i :: 0 <= i < |observed| && observed[i].Some?
                            && IsReasoningUpdate(observed[i].value) && b == Block(observed[i].value)
      {
        if b in Track(prev).blocks {
          var i :| 0 <= i < |prev| && prev[i].Some? && IsReasoningUpdate(prev[i].value) && b == Block(prev[i].value);
          assert observed[i] == prev[i];
        } else {
          assert observed[|observed| - 1] == x;
        }
      }
    }
  }

  /** One poll of the run: the status the service reports and its last
      agent message at that moment. */
  datatype Tick = Tick(status: string, lastAgentMessage: Option<Message>)

  /** The statuses that keep the loop polling. */
  predicate Active(status: string)
  {
    status == "queued" || status == "in_progress"
  }

  /** The run status known before poll `j`: the status of run creation,
      then the status of the previous poll. */
  function StatusBefore(initial: string, ticks: seq<Tick>, j: nat): string
    requires j <= |ticks|
  {
    if j == 0 then initial else ticks[j - 1].status
  }

  function Observed(ticks: seq<Tick>): seq<Option<Message>>
  {
    seq(|ticks|, i requires 0 <= i < |ticks| => ticks[i].lastAgentMessage)
  }

  lemma ObservedStep(ticks: seq<Tick>, n: nat)
    requires n < |ticks|
    ensures Observed(ticks[..n + 1]) == Observed(ticks[..n]) + [ticks[n].lastAgentMessage]
  {
  }

  /** The polling loop of `send_message`: while the status is queued or in
      progress, poll the run and pass the watermark through
      `fetch_response`. It stops at the first other status; the model also
      stops when the given polls run out. */
  method PollRun(initial: string, ticks: seq<Tick>)
    returns (status: string, polls: nat, watermark: Option<string>, log: string)
    ensures polls <= |ticks|
    ensures status == StatusBefore(initial, ticks, polls)
    ensures forall j :: 0 <= j < polls ==> Active(StatusBefore(initial, ticks, j))
    ensures !Active(status) || polls == |ticks|
    ensures watermark == Track(Observed(ticks[..polls])).watermark
    ensures log == Concat(Track(Observed(ticks[..polls])).blocks)
  {
    status, polls, watermark, log := initial, 0, None, "";
    while Active(status) && polls < |ticks|
      invariant polls <= |ticks|
      invariant status == StatusBefore(initial, ticks, polls)
      invariant forall j :: 0 <= j < polls ==> Active(StatusBefore(initial, ticks, j))
      invariant watermark == Track(Observed(ticks[..polls])).watermark
      invariant log == Concat(Track(Observed(ticks[..polls])).blocks)
    {
      ghost var before := Observed(ticks[..polls]);
      var tick := ticks[polls];
      status := tick.status;
      var f := FetchResponse(watermark, tick.lastAgentMessage);
      watermark := f.watermark;
      TrackAppend(before, tick.lastAgentMessage);
      ObservedStep(ticks, polls);
      ghost var blocks := Track(before).blocks;
      if f.block.Some? {
        ConcatAppend(blocks, f.block.value);
        log := log + f.block.value;
      } else {
        assert blocks + [] == blocks;
      }
      polls := polls + 1;
    }
  }

  /** How the workflow ends once polling stops. */
  datatype Outcome =
    | StillRunning          // the given polls ran out with the run active
    | RunFailed             // the run failed: nothing written, agent kept
    | NoFinalMessage        // no agent message to summarise
    | Summarized(text: string)

  /** The remote agent is deleted on the paths that reach the end of
      `send_message`, and left behind when the run failed. */
  predicate DeletesAgent(o: Outcome)
  {
    o.NoFinalMessage? || o.Summarized?
  }

  /** What happens after the loop: a failed run stops the workflow, a
      missing final message writes nothing, otherwise the summary file is
      written. */
  function AfterRun(status: string, final: Option<Message>): (o: Outcome)
    ensures o.StillRunning? <==> Active(status)
    ensures o.RunFailed? <==> status == "failed"
    ensures o.NoFinalMessage? <==> !Active(status) && status != "failed" && final.None?
    ensures o.Summarized? <==> !Active(status) && status != "failed" && final.Some?
    ensures o.Summarized? ==> o.text == Summary.SummaryText(final.value)
    ensures DeletesAgent(o) <==> !Active(status) && status != "failed"
  {
    if Active(status) then StillRunning
    else if status == "failed" then RunFailed
    else match final
      case None => NoFinalMessage
      case Some(m) => Summarized(Summary.SummaryText(m))
  }

  /** `send_message` after the user message is posted: poll, then act on
      the final status; `final` is the last agent message fetched once
      polling has stopped. */
  method SendMessage(initial: string, ticks: seq<Tick>, final: Option<Message>)
    returns (progress: string, outcome: Outcome)
    ensures exists polls :: 0 <= polls <= |ticks|
              && progress == Concat(Track(Observed(ticks[..polls])).blocks)
              && outcome == AfterRun(StatusBefore(initial, ticks, polls), final)
              && (forall j :: 0 <= j < polls ==> Active(StatusBefore(initial, ticks, j)))
              && (!Active(StatusBefore(initial, ticks, polls)) || polls == |ticks|)
  {
    var status, polls, _, log := PollRun(initial, ticks);
    progress := log;
    if !Active(status) && status != "failed" && final.Some? {
      var text := Summary.CreateSummary(final.value);
      outcome := Summarized(text);
    } else {
      outcome := AfterRun(status, final);
    }
  }
}
