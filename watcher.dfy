/**
 * The `LogWatcher` object: its subscriber set, its start/stop lifecycle and
 * the poll loop of its background thread.
 *
 * The thread is abstracted away: `WatchFile` is the body the thread runs,
 * called directly, and the file another process keeps appending to is given
 * as the text the open handle sees at each poll. Callbacks are opaque ids;
 * calling one is recorded as an `Invocation`.
 */
module Watcher {
  import opened Wrappers
  import opened EncodingDetection
  import opened LineReader

  /** The identity of a registered callable. */
  datatype CallbackId = CallbackId(id: nat)

  /** One call `callback(line)`; `raised` records that it raised and the error was reported. */
  datatype Invocation = Invocation(callback: CallbackId, line: string, raised: bool)

  /** The background thread the watcher launches; each launch is a new object. */
  class WatchThread {
    constructor () {}
  }

  /** Whether `callback` was called in `invoked`. */
  ghost predicate Called(invoked: seq<Invocation>, callback: CallbackId) {
    exists i :: 0 <= i < |invoked| && invoked[i].callback == callback
  }

  /** Appending a call keeps every earlier call and adds the new one. */
  lemma CalledAfterAppend(invoked: seq<Invocation>, call: Invocation)
    ensures forall c :: Called(invoked, c) ==> Called(invoked + [call], c)
    ensures Called(invoked + [call], call.callback)
  {
    forall c | Called(invoked, c) ensures Called(invoked + [call], c) {
      var i :| 0 <= i < |invoked| && invoked[i].callback == c;
      assert (invoked + [call])[i] == invoked[i];
    }
    assert (invoked + [call])[|invoked|] == call;
  }

  /**
   * One notification pass: each callback of the set called exactly once with
   * `line`, whether or not it raises (those in `failing` raise), and nothing else called.
   */
  ghost predicate IsPass(invoked: seq<Invocation>, callbacks: set<CallbackId>, line: string,
                         failing: set<CallbackId>)
  {
    && |invoked| == |callbacks|
    && (forall c :: c in callbacks ==> Called(invoked, c))
    && (forall i, j :: 0 <= i < j < |invoked| ==> invoked[i].callback != invoked[j].callback)
    && (forall i :: 0 <= i < |invoked| ==>
          && invoked[i].callback in callbacks
          && invoked[i].line == line
          && invoked[i].raised == (invoked[i].callback in failing))
  }

  /** Calling one more callback, not yet called, extends a pass over `done` to a pass over `done + {callback}`. */
  lemma PassSnoc(invoked: seq<Invocation>, done: set<CallbackId>, line: string, failing: set<CallbackId>,
                 callback: CallbackId)
    requires IsPass(invoked, done, line, failing) && callback !in done
    ensures IsPass(invoked + [Invocation(callback, line, callback in failing)], done + {callback}, line, failing)
  {
    var call := Invocation(callback, line, callback in failing);
    CalledAfterAppend(invoked, call);
    assert |done + {callback}| == |done| + 1;
    var after := invoked + [call];
    forall i, j | 0 <= i < j < |after| ensures after[i].callback != after[j].callback {
      if j == |invoked| {
        assert !Called(invoked, callback);
      }
    }
  }

  /** `passes[j]` is the notification pass for the j-th delivered line. */
  ghost predicate Notified(passes: seq<seq<Invocation>>, callbacks: set<CallbackId>, delivered: seq<string>,
                           failing: set<CallbackId>)
  {
    && |passes| == |delivered|
    && forall j :: 0 <= j < |passes| ==> IsPass(passes[j], callbacks, delivered[j], failing)
  }

  /** A pass for one more delivered line extends the record. */
  lemma NotifiedSnoc(passes: seq<seq<Invocation>>, callbacks: set<CallbackId>, delivered: seq<string>,
                     failing: set<CallbackId>, invoked: seq<Invocation>, line: string)
    requires Notified(passes, callbacks, delivered, failing)
    requires IsPass(invoked, callbacks, line, failing)
    ensures Notified(passes + [invoked], callbacks, delivered + [line], failing)
  {
    var ps, ds := passes + [invoked], delivered + [line];
    forall j | 0 <= j < |ps| ensures IsPass(ps[j], callbacks, ds[j], failing) {
      if j < |passes| {
        assert ps[j] == passes[j] && ds[j] == delivered[j];
      }
    }
  }

  /** The lines a run of raw reads hands to the callbacks: cleaned, and the empty ones dropped. */
  function Deliverable(raws: seq<string>): (lines: seq<string>)
    ensures |lines| <= |raws|
  {
    if raws == [] then []
    else
      var line := Clean(raws[|raws| - 1]);
      Deliverable(raws[..|raws| - 1]) + (if line == [] then [] else [line])
  }

  /** Every text snapshot extends the ones before it: the file is only appended to. */
  ghost predicate OnlyGrows(snapshots: seq<string>) {
    forall i, j :: 0 <= i < j < |snapshots| ==> snapshots[i] <= snapshots[j]
  }

  /** Where the handle stands after a run of polls, and the non-empty raw lines they read. */
  datatype Progress = Progress(position: nat, raws: seq<string>)

  /**
   * The polls of the watch loop from handle position `start`, the file's text
   * being `polls[k]` at the k-th poll: each poll reads one line, moves past a
   * non-empty read and stays put on an empty one.
   */
  function Run(polls: seq<string>, start: nat): Progress
    decreases |polls|
  {
    if polls == [] then Progress(start, [])
    else
      var before := Run(polls[..|polls| - 1], start);
      var raw := ReadLine(polls[|polls| - 1], before.position);
      if raw == [] then before
      else Progress(before.position + |raw|, before.raws + [raw])
  }

  /**
   * A run reads at most one line per poll, and its cursor never moves back
   * from where it started; a run that read nothing is still there.
   */
  lemma {:induction false} RunBounds(polls: seq<string>, start: nat)
    ensures |Run(polls, start).raws| <= |polls|
    ensures start <= Run(polls, start).position
    ensures Run(polls, start).raws == [] ==> Run(polls, start).position == start
    decreases |polls|
  {
    if polls != [] {
      RunBounds(polls[..|polls| - 1], start);
    }
  }

  /** The text the handle saw last: the file as opened, or the latest snapshot. */
  function Latest(initial: string, polls: seq<string>): string {
    if polls == [] then initial else polls[|polls| - 1]
  }

  /**
   * A read on a grown file continues where the previous one stopped: the text
   * read so far is still the same in the grown file, and the new read follows it.
   */
  lemma AppendedRead(seen: string, grown: string, start: nat, position: nat, sofar: string, raw: string)
    requires seen <= grown && start <= position <= |seen| && sofar == seen[start..position]
    requires position + |raw| <= |grown| && raw == grown[position..position + |raw|]
    ensures sofar + raw == grown[start..position + |raw|]
  {
    assert sofar == grown[start..position];
  }

  /** Dropping the last snapshot keeps the rest only-growing, and the last one extends the one before. */
  lemma OnlyGrowsPrefix(initial: string, polls: seq<string>)
    requires polls != [] && OnlyGrows([initial] + polls)
    ensures OnlyGrows([initial] + polls[..|polls| - 1])
    ensures Latest(initial, polls[..|polls| - 1]) <= polls[|polls| - 1]
  {
    var n := |polls|;
    var prefix := polls[..n - 1];
    forall i, j | 0 <= i < j < n
      ensures ([initial] + prefix)[i] <= ([initial] + prefix)[j]
    {
      assert ([initial] + prefix)[i] == ([initial] + polls)[i];
      assert ([initial] + prefix)[j] == ([initial] + polls)[j];
    }
    assert Latest(initial, prefix) == ([initial] + polls)[n - 1];
    assert ([initial] + polls)[n] == polls[n - 1];
  }

  /**
   * Nothing is skipped or read twice: while the file is only appended to, the
   * raw lines of a run of polls, joined, are exactly the text between the end
   * of the file at open time and the handle's position.
   */
  lemma {:induction false} RunTiles(initial: string, polls: seq<string>)
    requires OnlyGrows([initial] + polls)
    ensures |initial| <= Run(polls, |initial|).position <= |Latest(initial, polls)|
    ensures Concat(Run(polls, |initial|).raws) == Latest(initial, polls)[|initial|..Run(polls, |initial|).position]
    decreases |polls|
  {
    var start := |initial|;
    if polls != [] {
      var n := |polls|;
      var prefix := polls[..n - 1];
      var grown := polls[n - 1];
      OnlyGrowsPrefix(initial, polls);
      RunTiles(initial, prefix);
      var seen := Latest(initial, prefix);
      var before := Run(prefix, start);
      var raw := ReadLine(grown, before.position);
      var after := Run(polls, start);
      assert Latest(initial, polls) == grown;
      if raw != [] {
        assert before.position < |grown|;
        assert after == Progress(before.position + |raw|, before.raws + [raw]);
        AppendedRead(seen, grown, start, before.position, Concat(before.raws), raw);
        ConcatSnoc(before.raws, raw);
      } else {
        assert after == before;
        assert seen[start..before.position] == grown[start..before.position];
      }
    }
  }

  /** One more poll: the run over the first `i + 1` snapshots extends the run over the first `i`. */
  lemma RunSnoc(polls: seq<string>, i: nat, start: nat)
    requires i < |polls|
    ensures var before := Run(polls[..i], start);
      var raw := ReadLine(polls[i], before.position);
      Run(polls[..i + 1], start)
        == if raw == [] then before else Progress(before.position + |raw|, before.raws + [raw])
  {
    assert polls[..i + 1][..i] == polls[..i];
  }

  lemma DeliverableSnoc(raws: seq<string>, raw: string)
    ensures Deliverable(raws + [raw]) == Deliverable(raws) + (if Clean(raw) == [] then [] else [Clean(raw)])
  {
    assert (raws + [raw])[..|raws|] == raws;
  }

  /** A line fit for delivery: non-empty, trimmed, and holding no line boundary. */
  ghost predicate IsCleanLine(line: string) {
    line != [] && NoBreak(line) && !IsSpace(line[0]) && !IsSpace(line[|line| - 1])
  }

  /** A line read at any position, once cleaned, is either empty or fit for delivery. */
  lemma CleanReadIsClean(s: string, pos: nat)
    ensures Clean(ReadLine(s, pos)) != [] ==> IsCleanLine(Clean(ReadLine(s, pos)))
  {
    CleanedLineHasNoBreak(s, pos);
  }

  /** Each line a run hands to the callbacks is non-empty, trimmed, and holds no line boundary. */
  lemma {:induction false} DeliveredLineIsClean(polls: seq<string>, start: nat, j: nat)
    requires j < |Deliverable(Run(polls, start).raws)|
    ensures IsCleanLine(Deliverable(Run(polls, start).raws)[j])
    decreases |polls|
  {
    var n := |polls|;
    var before := Run(polls[..n - 1], start);
    var raw := ReadLine(polls[n - 1], before.position);
    var earlier := Deliverable(before.raws);
    if raw == [] {
      assert Run(polls, start) == before;
      DeliveredLineIsClean(polls[..n - 1], start, j);
    } else {
      assert Run(polls, start).raws == before.raws + [raw];
      DeliverableSnoc(before.raws, raw);
      if j < |earlier| {
        DeliveredLineIsClean(polls[..n - 1], start, j);
      } else {
        CleanReadIsClean(polls[n - 1], before.position);
      }
    }
  }

  /**
   * A line still being written is read in pieces: polled while the file holds
   * "ab" and again once it holds "abc\n", the loop reads "ab" and then "c\n".
   */
  lemma PartialLineIsReadInPieces()
    ensures Run(["ab", "abc\n"], 0) == Progress(4, ["ab", "c\n"])
  {
    var polls := ["ab", "abc\n"];
    ReadLineExamples();
    assert polls[..1] == ["ab"] && polls[..1][..0] == [];
    assert Run(polls[..1], 0) == Progress(2, ["ab"]);
  }

  /** ... and each piece is delivered as a line of its own: "ab", then "c". */
  lemma PartialLineIsDeliveredInPieces()
    ensures Deliverable(Run(["ab", "abc\n"], 0).raws) == ["ab", "c"]
  {
    PartialLineIsReadInPieces();
    CleanExamples();
    var raws := ["ab", "c\n"];
    assert raws[..1] == ["ab"] && ["ab"][..0] == [];
    assert Deliverable(["ab"]) == ["ab"];
    assert Deliverable(raws) == Deliverable(["ab"]) + [Clean("c\n")];
  }

  class LogWatcher {
    const logFile: string
    var callbacks: set<CallbackId>
    var running: bool
    var thread: WatchThread?
    var lastPosition: nat

    constructor (logFile: string)
      ensures this.logFile == logFile
      ensures callbacks == {} && !running && thread == null && lastPosition == 0
    {
      this.logFile := logFile;
      callbacks := {};
      running := false;
      thread := null;
      lastPosition := 0;
    }

    /** `register_callback`: add to the set; registering twice is registering once. */
    method RegisterCallback(callback: CallbackId)
      modifies this`callbacks
      ensures callbacks == old(callbacks) + {callback}
      ensures callback in old(callbacks) ==> callbacks == old(callbacks)
    {
      callbacks := callbacks + {callback};
    }

    /** `unregister_callback`: discard from the set; an absent callback is a no-op. */
    method UnregisterCallback(callback: CallbackId)
      modifies this`callbacks
      ensures callback !in callbacks
      ensures forall other :: other != callback ==> (other in callbacks <==> other in old(callbacks))
      ensures callback !in old(callbacks) ==> callbacks == old(callbacks)
    {
      callbacks := callbacks - {callback};
    }

    /**
     * `_notify_callbacks`: call every registered callback with `line`, in the
     * set's iteration order; one that raises is reported and the pass goes on.
     */
    method NotifyCallbacks(line: string, failing: set<CallbackId>) returns (invoked: seq<Invocation>)
      ensures IsPass(invoked, callbacks, line, failing)
    {
      invoked := [];
      var pending := callbacks;
      ghost var done: set<CallbackId> := {};
      while pending != {}
        invariant pending <= callbacks && done == callbacks - pending
        invariant IsPass(invoked, done, line, failing)
        decreases pending
      {
        var callback :| callback in pending;
        // the callback is called with the line; if it raises, the error is reported and the pass goes on
        PassSnoc(invoked, done, line, failing, callback);
        invoked := invoked + [Invocation(callback, line, callback in failing)];
        pending := pending - {callback};
        done := done + {callback};
      }
    }

    /**
     * One iteration of the loop in `_watch_file`, with the handle at
     * `position` over `text`. A non-empty read moves the handle past it,
     * records the new position in `lastPosition` and notifies the cleaned line
     * unless it is empty; an empty read leaves the handle where it was.
     */
    method PollStep(text: string, position: nat, failing: set<CallbackId>)
      returns (next: nat, raw: string, invoked: seq<Invocation>)
      modifies this`lastPosition
      ensures raw == ReadLine(text, position)
      ensures raw == [] ==> next == position && lastPosition == old(lastPosition) && invoked == []
      ensures raw != [] ==> position < next == position + |raw| <= |text| && lastPosition == next
      ensures raw != [] ==> raw == text[position..next]
      ensures raw != [] && Clean(raw) == [] ==> invoked == []
      ensures raw != [] && Clean(raw) != [] ==> IsPass(invoked, callbacks, Clean(raw), failing)
      ensures NoBreak(Clean(raw))
    {
      raw := ReadLine(text, position);
      CleanedLineHasNoBreak(text, position);
      if raw != [] {
        var line := Clean(raw);
        invoked := [];
        if line != [] {
          invoked := NotifyCallbacks(line, failing);
        }
        next := position + |raw|;
        lastPosition := next;
      } else {
        // nothing new: after a short wait the handle goes back to where this poll started
        next := position;
        invoked := [];
      }
    }

    /**
     * `_watch_file`: create the file when missing, detect its encoding, seek
     * to its end, then poll once per snapshot in `polls` while running.
     * Returns the lines handed to the callbacks, one notification pass each.
     */
    method WatchFile(file: Option<seq<byte>>, decode: (Encoding, seq<byte>) -> string,
                     polls: seq<string>, failing: set<CallbackId>)
      returns (encoding: Encoding, position: nat, delivered: seq<string>, passes: seq<seq<Invocation>>)
      modifies this`lastPosition
      ensures encoding == DetectEncoding(file)
      ensures var start := |decode(encoding, file.GetOr([]))|;
        && lastPosition == position
        && (running ==> position == Run(polls, start).position
                        && delivered == Deliverable(Run(polls, start).raws))
        && (!running ==> position == start && delivered == [])
      ensures Notified(passes, callbacks, delivered, failing)
    {
      // a missing file is first created, empty
      var bytes := file.GetOr([]);
      encoding := DetectEncoding(Some(bytes));
      var start := |decode(encoding, bytes)|;
      // the handle starts at the end of the file, and that position is recorded
      position := start;
      lastPosition := position;
      delivered, passes := [], [];
      ghost var raws: seq<string> := [];
      var i := 0;
      while running && i < |polls|
        invariant 0 <= i <= |polls|
        invariant lastPosition == position
        invariant Progress(position, raws) == Run(polls[..i], start)
        invariant delivered == Deliverable(raws)
        invariant !running ==> i == 0
        invariant Notified(passes, callbacks, delivered, failing)
      {
        ghost var before := Run(polls[..i], start);
        RunSnoc(polls, i, start);
        var next, raw, invoked := PollStep(polls[i], position, failing);
        ghost var after := if raw == [] then before else Progress(next, before.raws + [raw]);
        assert Run(polls[..i + 1], start) == after;
        if raw != [] {
          DeliverableSnoc(raws, raw);
          raws := raws + [raw];
          if Clean(raw) != [] {
            NotifiedSnoc(passes, callbacks, delivered, failing, invoked, Clean(raw));
            delivered := delivered + [Clean(raw)];
            passes := passes + [invoked];
          }
        }
        assert Progress(next, raws) == after;
        position := next;
        i := i + 1;
      }
      assert running ==> polls[..i] == polls;
    }

    /** `start`: a no-op while a thread is recorded; otherwise set running and launch a new thread. */
    method Start()
      modifies this`running, this`thread
      ensures old(thread) != null ==> running == old(running) && thread == old(thread)
      ensures old(thread) == null ==> running && thread != null && fresh(thread)
    {
      if thread != null {
        return;
      }
      running := true;
      thread := new WatchThread();
    }

    /** `stop`: clear the running flag, wait for the thread and forget it, so that a later start launches anew. */
    method Stop()
      modifies this`running, this`thread
      ensures !running && thread == null
    {
      running := false;
      if thread != null {
        // wait for the watch thread to finish, then forget it
        thread := null;
      }
    }
  }
}
