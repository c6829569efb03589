/** The replay messenger (`ReplayFloorMessanger`): the lines of a recorded
    file are sent again, each once the wall clock has advanced, since the
    replay started, by as much as the line's epoch is past the epoch of the
    file's first line. */
module Replay {
  import opened Wrappers
  import opened Text
  import Floors

  /** The conditions on which the replay thread panics because of the file. */
  datatype ReplayFault =
    | EmptyFile                                  // `lines.next().unwrap()` on a file without lines
    | FirstLineUnreadable                        // `.expect("File is not empty")` on a read error
    | BadEpoch(line: string)                     // `parse::<u128>().unwrap()` on the text before ':'
    | EpochBeforeOrigin(epoch: nat, origin: nat) // `data_epoch - data_start_epoch` below zero

  /** `shallow_parse_data`: the epoch in front of the first ':' and the line
      itself, unchanged. */
  function ShallowParse(line: string): (r: Result<(u128, string), ReplayFault>)
    ensures r.Ok? ==> r.value.1 == line
    ensures r.Err? ==> r.error == BadEpoch(line)
  {
    match ParseU128(Split(line, ':')[0])
    case None => Err(BadEpoch(line))
    case Some(e) => Ok((e, line))
  }

  /** For a line with a ':', the epoch is the `u128` written before the
      first ':'. */
  lemma ShallowParseBefore(p: string, rest: string)
    requires ':' !in p
    ensures ShallowParse(p + [':'] + rest) ==
      (if ParseU128(p).Some? then Ok((ParseU128(p).value, p + [':'] + rest))
       else Err(BadEpoch(p + [':'] + rest)))
  {
    SplitAfterPiece(p, rest, ':');
  }

  /** A line without ':' is read whole as the epoch. */
  lemma ShallowParseWhole(line: string)
    requires ':' !in line
    ensures ShallowParse(line) ==
      (if ParseU128(line).Some? then Ok((ParseU128(line).value, line)) else Err(BadEpoch(line)))
  {
    SplitWithout(line, ':');
  }

  /** The frames the serial messenger writes parse back to their epoch. */
  lemma ShallowParseFrame(epoch: u128, m: Floors.Matrix)
    ensures ShallowParse(Floors.FrameText(epoch, m)) == Ok((epoch, Floors.FrameText(epoch, m)))
  {
    var rest := JoinAll(Floors.RowTexts(m), ';');
    ShowNatHasNoSeparator(epoch);
    SplitAfterPiece(ShowNat(epoch), rest, ':');
    assert Floors.FrameText(epoch, m) == ShowNat(epoch) + [':'] + rest;
    ParseShowU128(epoch);
  }

  /** One item of `BufReader::lines()`: a line, or an I/O error. */
  datatype LineRead = Line(text: string) | ReadFailed

  /** A line to send, `offset` milliseconds after the replay started. */
  datatype Scheduled = Scheduled(offset: nat, text: string)

  /** What the file asks of one pass: the lines to send in order, then the
      panic that ends the pass, if any. */
  datatype Plan = Plan(sends: seq<Scheduled>, fault: Option<ReplayFault>)

  /** What the loop body does with one item: skip an unreadable line, panic,
      or send the line `offset` milliseconds after the replay started. */
  datatype Step = Skip | Stop(fault: ReplayFault) | Send(item: Scheduled)

  /** The body of `for line in lines`; `origin` is the first line's epoch. */
  function Classify(line: LineRead, origin: u128): (s: Step)
    ensures s.Skip? <==> line.ReadFailed?
    ensures s.Send? ==> s.item.text == line.text
  {
    match line
    case ReadFailed => Skip
    case Line(t) =>
      match ShallowParse(t)
      case Err(f) => Stop(f)
      case Ok((e, data)) =>
        if e < origin then Stop(EpochBeforeOrigin(e, origin)) else Send(Scheduled(e - origin, data))
  }

  /** The `for line in lines` loop over the lines after the first: at most
      one send per line, and the only panics inside the loop are a bad
      epoch and an epoch before the origin. */
  function PlanAfter(lines: seq<LineRead>, origin: u128): (p: Plan)
    ensures |p.sends| <= |lines|
    ensures p.fault.Some? ==> p.fault.value.BadEpoch? || p.fault.value.EpochBeforeOrigin?
    decreases |lines|
  {
    if |lines| == 0 then Plan([], None)
    else
      match Classify(lines[0], origin)
      case Skip => PlanAfter(lines[1..], origin)
      case Stop(f) => Plan([], Some(f))
      case Send(item) =>
        var rest := PlanAfter(lines[1..], origin);
        Plan([item] + rest.sends, rest.fault)
  }

  /** PlanAfter from line i on, one line at a time. */
  lemma PlanAfterAt(lines: seq<LineRead>, i: nat, origin: u128)
    requires i < |lines|
    ensures Classify(lines[i], origin).Skip? ==> PlanAfter(lines[i..], origin) == PlanAfter(lines[i + 1..], origin)
    ensures Classify(lines[i], origin).Stop? ==>
      PlanAfter(lines[i..], origin) == Plan([], Some(Classify(lines[i], origin).fault))
    ensures Classify(lines[i], origin).Send? ==>
      PlanAfter(lines[i..], origin) ==
        Plan([Classify(lines[i], origin).item] + PlanAfter(lines[i + 1..], origin).sends, PlanAfter(lines[i + 1..], origin).fault)
  {
    assert lines[i..][0] == lines[i];
    assert lines[i..][1..] == lines[i + 1..];
  }

  /** One pass over a file: its first line only fixes the origin epoch and is
      never sent. */
  function PlanOf(lines: seq<LineRead>): (p: Plan)
    ensures |lines| == 0 ==> p == Plan([], Some(EmptyFile))
    ensures |lines| > 0 ==> |p.sends| < |lines|
    ensures |lines| > 0 && lines[0].ReadFailed? ==> p == Plan([], Some(FirstLineUnreadable))
    ensures p.fault == Some(EmptyFile) ==> |lines| == 0
    ensures p.fault == Some(FirstLineUnreadable) ==> lines[0].ReadFailed?
  {
    if |lines| == 0 then Plan([], Some(EmptyFile))
    else
      match lines[0]
      case ReadFailed => Plan([], Some(FirstLineUnreadable))
      case Line(t) =>
        match ShallowParse(t)
        case Err(f) => Plan([], Some(f))
        case Ok((origin, _)) => PlanAfter(lines[1..], origin)
  }

  /** The texts of the readable lines, in order. */
  function Readable(lines: seq<LineRead>): seq<string>
    decreases |lines|
  {
    if |lines| == 0 then []
    else if lines[0].ReadFailed? then Readable(lines[1..])
    else [lines[0].text] + Readable(lines[1..])
  }

  function Texts(sends: seq<Scheduled>): (ts: seq<string>)
    ensures |ts| == |sends|
  {
    seq(|sends|, k requires 0 <= k < |sends| => sends[k].text)
  }

  lemma TextsCons(s: Scheduled, rest: seq<Scheduled>)
    ensures Texts([s] + rest) == [s.text] + Texts(rest)
  {
    assert forall k :: 1 <= k <= |rest| ==> ([s] + rest)[k] == rest[k - 1];
  }

  /** Every readable line parses and carries an epoch no earlier than `origin`. */
  predicate Clean(lines: seq<LineRead>, origin: u128)
  {
    forall k :: 0 <= k < |lines| && lines[k].Line? ==>
      ShallowParse(lines[k].text).Ok? && ShallowParse(lines[k].text).value.0 >= origin
  }

  /** The lines sent are the readable lines in order, cut short by a panic;
      without a panic they are all of them, and there is no panic exactly
      when every readable line is well formed. */
  lemma {:induction false} PlanAfterReadable(lines: seq<LineRead>, origin: u128)
    ensures Texts(PlanAfter(lines, origin).sends) <= Readable(lines)
    ensures PlanAfter(lines, origin).fault.None? ==> Texts(PlanAfter(lines, origin).sends) == Readable(lines)
    ensures PlanAfter(lines, origin).fault.None? <==> Clean(lines, origin)
    decreases |lines|
  {
    if |lines| > 0 {
      var tail := lines[1..];
      PlanAfterReadable(tail, origin);
      PlanAfterAt(lines, 0, origin);
      assert lines[0..] == lines;
      var p, q := PlanAfter(lines, origin), PlanAfter(tail, origin);
      var step := Classify(lines[0], origin);
      if step.Stop? {
        assert !Clean(lines, origin) by {
          assert lines[0].Line?;
        }
      } else {
        if step.Send? {
          TextsCons(step.item, q.sends);
        }
        CleanTail(lines, origin);
      }
    }
  }

  /** A first line that does not stop the loop leaves cleanness to the rest. */
  lemma CleanTail(lines: seq<LineRead>, origin: u128)
    requires |lines| > 0 && !Classify(lines[0], origin).Stop?
    ensures Clean(lines, origin) <==> Clean(lines[1..], origin)
  {
    var tail := lines[1..];
    if Clean(tail, origin) {
      forall k | 0 <= k < |lines| && lines[k].Line?
        ensures ShallowParse(lines[k].text).Ok? && ShallowParse(lines[k].text).value.0 >= origin
      {
        if k > 0 {
          assert tail[k - 1] == lines[k];
        }
      }
    }
    if Clean(lines, origin) {
      forall k | 0 <= k < |tail| && tail[k].Line?
        ensures ShallowParse(tail[k].text).Ok? && ShallowParse(tail[k].text).value.0 >= origin
      {
        assert tail[k] == lines[k + 1];
      }
    }
  }

  /** The first line is never sent: what a pass sends is an in-order prefix
      of the readable lines after it. */
  lemma PlanSkipsFirst(lines: seq<LineRead>)
    requires |lines| > 0
    ensures Texts(PlanOf(lines).sends) <= Readable(lines[1..])
  {
    if lines[0].Line? && ShallowParse(lines[0].text).Ok? {
      PlanAfterReadable(lines[1..], ShallowParse(lines[0].text).value.0);
    }
  }

  /** A file whose every line could be read. */
  function Lines(texts: seq<string>): (lines: seq<LineRead>)
    ensures |lines| == |texts|
  {
    seq(|texts|, k requires 0 <= k < |texts| => Line(texts[k]))
  }

  /** Each text at its epoch less `origin`. */
  function Schedule(epochs: seq<u128>, texts: seq<string>, origin: u128): (s: seq<Scheduled>)
    requires |epochs| == |texts| && forall k :: 0 <= k < |epochs| ==> origin <= epochs[k]
    ensures |s| == |epochs|
  {
    seq(|epochs|, k requires 0 <= k < |epochs| => Scheduled(epochs[k] - origin, texts[k]))
  }

  /** A line that parses to an epoch no earlier than `origin` is sent. */
  lemma ClassifyStamped(text: string, epoch: u128, origin: u128)
    requires ShallowParse(text) == Ok((epoch, text)) && origin <= epoch
    ensures Classify(Line(text), origin) == Send(Scheduled(epoch - origin, text))
  {
  }

  /** Lines each of which is sent make a plan of all of them, without panic. */
  lemma {:induction false} PlanAfterAllSent(lines: seq<LineRead>, origin: u128, sends: seq<Scheduled>)
    requires |lines| == |sends|
    requires forall k :: 0 <= k < |lines| ==> Classify(lines[k], origin) == Send(sends[k])
    ensures PlanAfter(lines, origin) == Plan(sends, None)
    decreases |lines|
  {
    if |lines| > 0 {
      var tail, rest := lines[1..], sends[1..];
      forall k | 0 <= k < |tail|
        ensures Classify(tail[k], origin) == Send(rest[k])
      {
        assert tail[k] == lines[k + 1] && rest[k] == sends[k + 1];
      }
      PlanAfterAllSent(tail, origin, rest);
      PlanAfterAt(lines, 0, origin);
      assert lines[0..] == lines;
      assert sends == [sends[0]] + rest;
    }
  }

  /** Lines that all parse to their epoch, none before `origin`, are all sent. */
  lemma PlanAfterStamped(epochs: seq<u128>, texts: seq<string>, origin: u128)
    requires |epochs| == |texts|
    requires forall k :: 0 <= k < |texts| ==> ShallowParse(texts[k]) == Ok((epochs[k], texts[k])) && origin <= epochs[k]
    ensures PlanAfter(Lines(texts), origin) == Plan(Schedule(epochs, texts, origin), None)
  {
    var lines, sends := Lines(texts), Schedule(epochs, texts, origin);
    forall k | 0 <= k < |lines|
      ensures Classify(lines[k], origin) == Send(sends[k])
    {
      ClassifyStamped(texts[k], epochs[k], origin);
    }
    PlanAfterAllSent(lines, origin, sends);
  }

  /** The frames the serial messenger writes for these epochs and matrices. */
  function Frames(epochs: seq<u128>, ms: seq<Floors.Matrix>): (texts: seq<string>)
    requires |epochs| == |ms|
    ensures |texts| == |epochs|
  {
    seq(|epochs|, k requires 0 <= k < |epochs| => Floors.FrameText(epochs[k], ms[k]))
  }

  /** Replaying a recording of frames whose epochs do not fall below the
      first one sends every frame but the first, each at its epoch less the
      first epoch, and ends at the end of the file. */
  lemma ReplayOfRecording(epochs: seq<u128>, ms: seq<Floors.Matrix>)
    requires |epochs| == |ms| >= 1 && forall k :: 0 <= k < |epochs| ==> epochs[0] <= epochs[k]
    ensures var texts := Frames(epochs, ms);
      PlanOf(Lines(texts)) == Plan(Schedule(epochs[1..], texts[1..], epochs[0]), None)
  {
    var texts := Frames(epochs, ms);
    forall k | 0 <= k < |texts|
      ensures ShallowParse(texts[k]) == Ok((epochs[k], texts[k]))
    {
      ShallowParseFrame(epochs[k], ms[k]);
    }
    var lines := Lines(texts);
    assert lines[1..] == Lines(texts[1..]);
    PlanAfterStamped(epochs[1..], texts[1..], epochs[0]);
  }

  // -----------------------------------------------------------------------
  // Pacing against the clock

  /** How a wait for the clock ended. */
  datatype Wait = Reached | WentBack | Exhausted

  /** Every reading in [from, to) is at or after `start` and less than
      `offset` past it. */
  predicate Waited(clock: seq<u128>, start: u128, from: nat, to: nat, offset: nat)
    requires from <= to <= |clock|
  {
    forall q :: from <= q < to ==> start <= clock[q] < start + offset
  }

  /** The busy-wait loop: readings are taken from index `from` on until one
      is `offset` past `start` (`past_time >= data_time`). A reading below
      `start` makes `current_epoch() - start_epoch` underflow. The clock is a
      finite sequence of readings here; running out of it is `Exhausted`. */
  method WaitFor(clock: seq<u128>, start: u128, from: nat, offset: nat) returns (t: nat, w: Wait)
    requires from <= |clock|
    ensures from <= t <= |clock| && Waited(clock, start, from, t, offset)
    ensures w == Exhausted <==> t == |clock|
    ensures w == Reached ==> t < |clock| && start + offset <= clock[t]
    ensures w == WentBack ==> t < |clock| && clock[t] < start
  {
    t := from;
    while t < |clock|
      invariant from <= t <= |clock| && Waited(clock, start, from, t, offset)
    {
      if clock[t] < start {
        return t, WentBack;
      }
      if clock[t] - start >= offset {
        return t, Reached;
      }
      t := t + 1;
    }
    w := Exhausted;
  }

  /** A line sent, and the index of the clock reading that released it. */
  datatype Sent = Sent(poll: nat, text: string)

  /** How one pass ended. */
  datatype Ending =
    | EndOfFile                 // every line read
    | Aborted(fault: ReplayFault)
    | ClockWentBack(poll: nat)  // a reading below the start reading
    | ClockExhausted            // the readings given ran out while waiting

  /** The index of the first reading not yet looked at. */
  function NextPoll(sent: seq<Sent>): nat
  {
    if |sent| == 0 then 0 else sent[|sent| - 1].poll + 1
  }

  /** Sent line k went out at the first reading, after the previous send,
      that is its offset past `start`, and carries the scheduled text. */
  predicate Paced(sent: seq<Sent>, sends: seq<Scheduled>, start: u128, clock: seq<u128>)
    requires |sent| <= |sends|
  {
    forall k :: 0 <= k < |sent| ==>
      NextPoll(sent[..k]) <= sent[k].poll < |clock| &&
      sent[k].text == sends[k].text &&
      start + sends[k].offset <= clock[sent[k].poll] &&
      Waited(clock, start, NextPoll(sent[..k]), sent[k].poll, sends[k].offset)
  }

  lemma PacedStep(sent: seq<Sent>, sends: seq<Scheduled>, start: u128, clock: seq<u128>, s: Sent)
    requires |sent| < |sends| && Paced(sent, sends, start, clock)
    requires NextPoll(sent) <= s.poll < |clock| && s.text == sends[|sent|].text
    requires start + sends[|sent|].offset <= clock[s.poll]
    requires Waited(clock, start, NextPoll(sent), s.poll, sends[|sent|].offset)
    ensures Paced(sent + [s], sends, start, clock)
    ensures NextPoll(sent + [s]) == s.poll + 1
  {
    var longer := sent + [s];
    assert longer[..|sent|] == sent;
    forall k | 0 <= k < |sent|
      ensures longer[..k] == sent[..k] && longer[k] == sent[k]
    {
    }
  }

  /** How a pass that follows `plan` may have gone: the lines sent are the
      plan's first ones, each released at the first reading that reached its
      offset; the file ran out or ended in the plan's panic only once every
      planned line was sent, and the clock stopped the pass only while the
      next planned line was still being waited for. */
  predicate Replayed(plan: Plan, start: u128, clock: seq<u128>, sent: seq<Sent>, ending: Ending)
  {
    |sent| <= |plan.sends| && Paced(sent, plan.sends, start, clock) &&
    (ending == EndOfFile ==> |sent| == |plan.sends| && plan.fault.None?) &&
    (ending.Aborted? ==> |sent| == |plan.sends| && plan.fault == Some(ending.fault)) &&
    (ending.ClockWentBack? ==>
      |sent| < |plan.sends| && NextPoll(sent) <= ending.poll < |clock| && clock[ending.poll] < start &&
      Waited(clock, start, NextPoll(sent), ending.poll, plan.sends[|sent|].offset)) &&
    (ending == ClockExhausted ==>
      |sent| < |plan.sends| && NextPoll(sent) <= |clock| &&
      Waited(clock, start, NextPoll(sent), |clock|, plan.sends[|sent|].offset))
  }

  /** After `n` sends and with lines from `i` on still to read, what is left
      of `plan` is the plan of the remaining lines. */
  predicate Tracks(plan: Plan, lines: seq<LineRead>, i: nat, origin: u128, n: nat)
  {
    i <= |lines| && n <= |plan.sends| &&
    plan.sends[n..] == PlanAfter(lines[i..], origin).sends &&
    plan.fault == PlanAfter(lines[i..], origin).fault
  }

  /** How one more line moves the remaining plan on. */
  lemma TracksStep(plan: Plan, lines: seq<LineRead>, i: nat, origin: u128, n: nat)
    requires Tracks(plan, lines, i, origin, n) && i < |lines|
    ensures Classify(lines[i], origin).Skip? ==> Tracks(plan, lines, i + 1, origin, n)
    ensures Classify(lines[i], origin).Stop? ==>
      n == |plan.sends| && plan.fault == Some(Classify(lines[i], origin).fault)
    ensures Classify(lines[i], origin).Send? ==>
      n < |plan.sends| && plan.sends[n] == Classify(lines[i], origin).item &&
      Tracks(plan, lines, i + 1, origin, n + 1)
  {
    PlanAfterAt(lines, i, origin);
    var step := Classify(lines[i], origin);
    if step.Send? {
      var rest := PlanAfter(lines[i + 1..], origin);
      assert plan.sends[n..] == [step.item] + rest.sends;
      assert plan.sends[n] == plan.sends[n..][0];
      assert plan.sends[n + 1..] == plan.sends[n..][1..];
    }
  }

  lemma TracksStart(lines: seq<LineRead>, origin: u128)
    ensures Tracks(PlanAfter(lines, origin), lines, 0, origin, 0)
  {
    assert lines[0..] == lines;
  }

  lemma TracksEnd(plan: Plan, lines: seq<LineRead>, origin: u128, n: nat)
    requires Tracks(plan, lines, |lines|, origin, n)
    ensures n == |plan.sends| && plan.fault.None?
  {
    assert lines[|lines|..] == [];
  }

  /** A pass that sent every planned line ends as the plan does. */
  lemma ReplayedAll(plan: Plan, start: u128, clock: seq<u128>, sent: seq<Sent>, ending: Ending)
    requires |sent| == |plan.sends| && Paced(sent, plan.sends, start, clock)
    requires ending == EndOfFile || ending.Aborted?
    requires ending == EndOfFile ==> plan.fault.None?
    requires ending.Aborted? ==> plan.fault == Some(ending.fault)
    ensures Replayed(plan, start, clock, sent, ending)
  {
  }

  /** The wait for one planned line and its send: `sent` grows by the line,
      or the pass stops because of the clock, as `Replayed` describes. */
  method Release(ghost plan: Plan, start: u128, clock: seq<u128>, sent: seq<Sent>, t: nat, item: Scheduled)
    returns (sent': seq<Sent>, stop: Option<Ending>)
    requires |sent| < |plan.sends| && plan.sends[|sent|] == item && Paced(sent, plan.sends, start, clock)
    requires t == NextPoll(sent) <= |clock|
    ensures stop.None? ==>
      |sent'| == |sent| + 1 && sent'[..|sent|] == sent && sent'[|sent|].text == item.text &&
      Paced(sent', plan.sends, start, clock) && NextPoll(sent') <= |clock|
    ensures stop.Some? ==>
      sent' == sent && (stop.value == ClockExhausted || stop.value.ClockWentBack?) &&
      Replayed(plan, start, clock, sent, stop.value)
  {
    var poll, w := WaitFor(clock, start, t, item.offset);
    if w == Exhausted {
      return sent, Some(ClockExhausted);
    }
    if w == WentBack {
      return sent, Some(ClockWentBack(poll));
    }
    PacedStep(sent, plan.sends, start, clock, Sent(poll, item.text));
    sent' := sent + [Sent(poll, item.text)];
    assert sent'[..|sent|] == sent;
    stop := None;
  }

  /** The body of the `for line in lines` loop on line i. */
  method Advance(ghost plan: Plan, lines: seq<LineRead>, i: nat, origin: u128, start: u128, clock: seq<u128>, sent: seq<Sent>)
    returns (sent': seq<Sent>, stop: Option<Ending>)
    requires i < |lines| && Tracks(plan, lines, i, origin, |sent|)
    requires Paced(sent, plan.sends, start, clock) && NextPoll(sent) <= |clock|
    ensures stop.None? ==>
      Tracks(plan, lines, i + 1, origin, |sent'|) &&
      Paced(sent', plan.sends, start, clock) && NextPoll(sent') <= |clock|
    ensures stop.Some? ==> Replayed(plan, start, clock, sent', stop.value)
  {
    TracksStep(plan, lines, i, origin, |sent|);
    var step := Classify(lines[i], origin);
    if step.Stop? {
      ReplayedAll(plan, start, clock, sent, Aborted(step.fault));
      return sent, Some(Aborted(step.fault));
    }
    if step.Skip? {
      return sent, None;
    }
    sent', stop := Release(plan, start, clock, sent, NextPoll(sent), step.item);
  }

  /** The `for line in lines` loop: the lines after the first, paced from
      `start` by their epochs less `origin`, the first line's epoch. */
  method SendAfter(lines: seq<LineRead>, origin: u128, start: u128, clock: seq<u128>) returns (sent: seq<Sent>, ending: Ending)
    ensures Replayed(PlanAfter(lines, origin), start, clock, sent, ending)
  {
    ghost var plan := PlanAfter(lines, origin);
    TracksStart(lines, origin);
    sent := [];
    var i := 0;
    while i < |lines|
      invariant Tracks(plan, lines, i, origin, |sent|)
      invariant Paced(sent, plan.sends, start, clock) && NextPoll(sent) <= |clock|
    {
      var stop;
      sent, stop := Advance(plan, lines, i, origin, start, clock, sent);
      if stop.Some? {
        return sent, stop.value;
      }
      i := i + 1;
    }
    TracksEnd(plan, lines, origin, |sent|);
    ending := EndOfFile;
    ReplayedAll(plan, start, clock, sent, ending);
  }

  /** One pass of the replay thread over a file whose lines are `lines`,
      with `start` the clock reading taken before the file was opened and
      `clock` the readings the busy-wait loops take after it: the first
      line fixes the origin epoch, the rest are sent by `SendAfter`. */
  method ReplayPass(lines: seq<LineRead>, start: u128, clock: seq<u128>) returns (sent: seq<Sent>, ending: Ending)
    ensures Replayed(PlanOf(lines), start, clock, sent, ending)
  {
    if |lines| == 0 {
      return [], Aborted(EmptyFile);
    }
    if lines[0].ReadFailed? {
      return [], Aborted(FirstLineUnreadable);
    }
    var first := ShallowParse(lines[0].text);
    if first.Err? {
      return [], Aborted(first.error);
    }
    sent, ending := SendAfter(lines[1..], first.value.0, start, clock);
  }
}
