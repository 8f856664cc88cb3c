/**
 The boot-terminal overlay: its phase machine BOOT -> MENU -> POST -> EXIT,
 the line streamer that reveals the fetched logs one line per interval tick,
 the menu key handler and the exit completion that reports the chosen mode.

 Asynchronous happenings of the browser are the methods of `Overlay`: the
 mount effect, the resolution of each `fetch`, one tick of the streaming
 interval, the 150 ms settle timeout, a key press and the end of the exit
 animation. React effects that depend on the phase run inside the method
 that changes the phase.
 */
module TerminalOverlay {
  import opened Wrappers
  import opened JsText
  import opened LineFormatter
  import opened Menu

  datatype Phase = BOOT | MENU | POST | EXIT

  /** Position of a phase along BOOT -> MENU -> POST -> EXIT. */
  function Rank(p: Phase): nat {
    match p
    case BOOT => 0
    case MENU => 1
    case POST => 2
    case EXIT => 3
  }

  /** The state setter a stream writes through. */
  datatype Target = BootBuffer | PostBuffer

  /**
   A running `streamLines` interval: the source lines, the counter `idx`
   its closure captures, the setter it appends through and the phase it
   requests once done.
   */
  datatype Job = Job(lines: seq<string>, idx: nat, target: Target, next: Option<Phase>)

  /** `lines[idx]`: the string there, or `undefined` past the end. */
  function Item(lines: seq<string>, idx: nat): LineValue {
    if idx < |lines| then Str(lines[idx]) else Undefined
  }

  /** The values the first `k` ticks of a stream over `lines` append. */
  function Appended(lines: seq<string>, k: nat): seq<LineValue> {
    seq(k, i requires 0 <= i < k => Item(lines, i))
  }

  /**
   The number of ticks before the interval is cleared: one per line, and
   one for an empty source, whose first tick already reaches the end.
   */
  function Ticks(lines: seq<string>): nat {
    if |lines| == 0 then 1 else |lines|
  }

  /** What a finished stream has appended. */
  function Streamed(lines: seq<string>): seq<LineValue> {
    Appended(lines, Ticks(lines))
  }

  /** One more tick appends the next item and leaves the earlier ones alone. */
  lemma {:induction false} AppendedStep(lines: seq<string>, k: nat)
    ensures Appended(lines, k + 1) == Appended(lines, k) + [Item(lines, k)]
  {
    assert Appended(lines, k + 1)[..k] == Appended(lines, k);
  }

  /**
   What `streamLines` as written appends. The updater passed to the setter
   reads the shared counter `idx` when React runs it: at the call, or at the
   next render, after `idx++` and before the next tick. `late[k]` says which
   happens on tick `k`.
   */
  function AsWrittenAppended(lines: seq<string>, late: seq<bool>): seq<LineValue> {
    seq(|late|, k requires 0 <= k < |late| => Item(lines, if late[k] then k + 1 else k))
  }

  /**
   The appends of the `streamLines` interval as written, one iteration per
   tick, with React's choice of when each updater runs given by `late`. The
   completion step that schedules the next phase is `Overlay.Tick`'s.
   */
  method StreamAsWritten(lines: seq<string>, late: seq<bool>) returns (shown: seq<LineValue>)
    requires |late| == Ticks(lines)
    ensures shown == AsWrittenAppended(lines, late)
  {
    shown := [];
    var idx := 0;
    var running := true;
    while running
      invariant 0 <= idx <= Ticks(lines)
      invariant running <==> idx < Ticks(lines)
      invariant |shown| == idx
      invariant forall k :: 0 <= k < idx ==> shown[k] == Item(lines, if late[k] then k + 1 else k)
      decreases Ticks(lines) - idx
    {
      // an updater run at the call reads `idx` before the increment
      var item := Item(lines, idx);
      idx := idx + 1;
      // one run at the next render reads it after
      if late[idx - 1] {
        item := Item(lines, idx);
      }
      shown := shown + [item];
      if idx >= |lines| {
        running := false;
      }
    }
  }

  /** With every updater run at its call, the stream as written shows each line once, in order. */
  lemma AsWrittenOnTime(lines: seq<string>, late: seq<bool>)
    requires |late| == Ticks(lines) && forall k :: 0 <= k < |late| ==> !late[k]
    ensures AsWrittenAppended(lines, late) == Streamed(lines)
  {
  }

  /**
   A late updater on the last tick of a non-empty source shows `undefined`
   where the last line belongs, so the buffer is never the intended one.
   */
  lemma LateLastTick(lines: seq<string>, late: seq<bool>)
    requires |lines| > 0 && |late| == Ticks(lines) && late[|late| - 1]
    ensures AsWrittenAppended(lines, late)[|lines| - 1] == Undefined
    ensures AsWrittenAppended(lines, late) != Streamed(lines)
  {
    assert Streamed(lines)[|lines| - 1] == Str(lines[|lines| - 1]);
  }

  /**
   Line `k` of a log with distinct lines reaches the buffer exactly when tick
   `k` reads it on time or a late tick `k - 1` reads it: a late tick after an
   on-time one skips a line altogether.
   */
  lemma {:induction false} LateTickSkipsLine(lines: seq<string>, late: seq<bool>, k: nat)
    requires |late| == Ticks(lines) && k < |lines|
    requires forall i, j :: 0 <= i < j < |lines| ==> lines[i] != lines[j]
    ensures Str(lines[k]) in AsWrittenAppended(lines, late) <==> !late[k] || (k > 0 && late[k - 1])
  {
    var shown := AsWrittenAppended(lines, late);
    if !late[k] {
      assert shown[k] == Str(lines[k]);
    } else if k > 0 && late[k - 1] {
      assert shown[k - 1] == Str(lines[k]);
    } else {
      forall j | 0 <= j < |shown|
        ensures shown[j] != Str(lines[k])
      {
        var m := if late[j] then j + 1 else j;
        if m < |lines| && m != k {
          assert lines[m] != lines[k] by {
            if m < k { assert lines[m] != lines[k]; } else { assert lines[k] != lines[m]; }
          }
        }
      }
    }
  }

  /** The line that seeds the post buffer for the option at `i`. */
  function Summary(i: int): string
    requires 0 <= i < |Options|
  {
    "You selected: " + Options[i].title
  }

  datatype Event =
    | Mount
    | BootFetched(bootText: string)
    | PostFetched(postText: string)
    | IntervalTick
    | TimeoutFired
    | KeyDown(key: string)
    | ExitAnimationComplete

  class Overlay {
    var phase: Phase
    var bootLines: seq<LineValue>
    var postLines: seq<LineValue>
    var selectedIndex: int
    /** The ref that keeps the boot fetch from being issued twice. */
    var bootStarted: bool
    /** `fetch("/logs/boot.log")` has been issued and has not resolved. */
    var bootFetchPending: bool
    /** `fetch("/logs/post_select.log")` has been issued and has not resolved. */
    var postFetchPending: bool
    /** The streaming interval that is running, if any. */
    var job: Option<Job>
    /** The phase a finished stream's 150 ms timeout will set, if one is scheduled. */
    var pendingPhase: Option<Phase>
    /** The exit timeline has completed and called `onClose`. */
    var exitDone: bool

    /** How many times each log has been requested. */
    ghost var bootFetches: nat
    ghost var postFetches: nat
    /** The lines handed to each stream. */
    ghost var bootLog: seq<string>
    ghost var postLog: seq<string>

    /** The boot stream has appended its last line. */
    ghost predicate BootStreamed()
      reads this
    {
      Rank(phase) >= 1 || pendingPhase == Some(MENU)
    }

    /** The post stream has appended its last line. */
    ghost predicate PostStreamed()
      reads this
    {
      phase == EXIT || pendingPhase == Some(EXIT)
    }

    ghost predicate Valid()
      reads this
    {
      && 0 <= selectedIndex < |Options|
      && bootFetches == (if bootStarted then 1 else 0)
      && postFetches == (if Rank(phase) >= 2 then 1 else 0)
      && (phase != BOOT ==> bootStarted)
      && (!bootStarted ==> !bootFetchPending && job.None? && pendingPhase.None?)
      // at most one pending fetch, interval or timeout drives the next phase change
      && (bootFetchPending ==> phase == BOOT && job.None? && pendingPhase.None?)
      && (postFetchPending ==> phase == POST && job.None? && pendingPhase.None?)
      && (job.Some? ==> pendingPhase.None? && job.value.idx < Ticks(job.value.lines))
      && (job.Some? && job.value.target == BootBuffer ==>
            phase == BOOT && job.value.next == Some(MENU) && job.value.lines == bootLog)
      && (job.Some? && job.value.target == PostBuffer ==>
            phase == POST && job.value.next == Some(EXIT) && job.value.lines == postLog)
      && (pendingPhase.Some? ==>
            (phase == BOOT && pendingPhase == Some(MENU)) || (phase == POST && pendingPhase == Some(EXIT)))
      && (phase == POST ==> postFetchPending || job.Some? || pendingPhase.Some?)
      && (phase == BOOT && bootStarted ==> bootFetchPending || job.Some? || pendingPhase.Some?)
      && (exitDone ==> phase == EXIT)
      // the boot buffer holds what the boot stream has revealed so far
      && bootLines == (if BootStreamed() then Streamed(bootLog)
                       else if job.Some? && job.value.target == BootBuffer then Appended(bootLog, job.value.idx)
                       else [])
      // the post buffer is empty before POST and starts with the summary from then on
      && (Rank(phase) <= 1 ==> postLines == [])
      && (Rank(phase) >= 2 ==>
            postLines == [Str(Summary(selectedIndex))]
              + (if PostStreamed() then Streamed(postLog)
                 else if job.Some? then Appended(postLog, job.value.idx)
                 else []))
    }

    /** The first render: BOOT, empty buffers, the first option selected. */
    constructor ()
      ensures Valid()
      ensures phase == BOOT && bootLines == [] && postLines == [] && selectedIndex == 0
      ensures !bootStarted && job.None? && pendingPhase.None? && !exitDone
    {
      phase := BOOT;
      bootLines := [];
      postLines := [];
      selectedIndex := 0;
      bootStarted := false;
      bootFetchPending := false;
      postFetchPending := false;
      job := None;
      pendingPhase := None;
      exitDone := false;
      bootFetches := 0;
      postFetches := 0;
      bootLog := [];
      postLog := [];
    }

    /**
     The boot effect. Its first run requests the boot log; every later run
     (a repeated mount) finds the guard set and does nothing.
     */
    method StartBoot()
      requires Valid()
      modifies this`bootStarted, this`bootFetchPending, this`bootFetches
      ensures Valid()
      ensures old(bootStarted) ==> unchanged(this)
      ensures !old(bootStarted) ==> bootStarted && bootFetchPending && bootFetches == 1
      ensures bootFetches <= 1
    {
      if bootStarted {
        return;
      }
      bootStarted := true;
      bootFetchPending := true;
      bootFetches := bootFetches + 1;
    }

    /** The boot log has arrived: its non-empty lines start streaming into the boot buffer. */
    method BootLogFetched(text: string)
      requires Valid()
      modifies this`bootFetchPending, this`bootLog, this`job
      ensures Valid()
      ensures !old(bootFetchPending) ==> unchanged(this)
      ensures old(bootFetchPending) ==>
                !bootFetchPending && bootLog == SplitLines(text)
                && job == Some(Job(SplitLines(text), 0, BootBuffer, Some(MENU)))
                && bootLines == []
    {
      if bootFetchPending {
        bootFetchPending := false;
        var lines := SplitLines(text);
        bootLog := lines;
        job := Some(Job(lines, 0, BootBuffer, Some(MENU)));
      }
    }

    /** The post-select log has arrived: its non-empty lines start streaming into the post buffer. */
    method PostLogFetched(text: string)
      requires Valid()
      modifies this`postFetchPending, this`postLog, this`job
      ensures Valid()
      ensures !old(postFetchPending) ==> unchanged(this)
      ensures old(postFetchPending) ==>
                !postFetchPending && postLog == SplitLines(text)
                && job == Some(Job(SplitLines(text), 0, PostBuffer, Some(EXIT)))
                && phase == POST && postLines == [Str(Summary(selectedIndex))]
    {
      if postFetchPending {
        postFetchPending := false;
        var lines := SplitLines(text);
        postLog := lines;
        job := Some(Job(lines, 0, PostBuffer, Some(EXIT)));
      }
    }

    /**
     One tick of the streaming interval: append `lines[idx]` to the target
     buffer and advance the counter; on reaching the end, clear the
     interval and schedule the requested phase.
     */
    method Tick()
      requires Valid()
      modifies this`bootLines, this`postLines, this`job, this`pendingPhase
      ensures Valid()
      ensures old(job).None? ==> unchanged(this)
      ensures old(job).Some? ==>
                var j := old(job).value;
                && (j.target == BootBuffer ==>
                      bootLines == old(bootLines) + [Item(j.lines, j.idx)] && postLines == old(postLines))
                && (j.target == PostBuffer ==>
                      postLines == old(postLines) + [Item(j.lines, j.idx)] && bootLines == old(bootLines))
                && (j.idx + 1 < |j.lines| ==>
                      job == Some(j.(idx := j.idx + 1)) && pendingPhase.None?)
                && (j.idx + 1 >= |j.lines| ==>
                      job.None? && pendingPhase == j.next)
    {
      if job.None? {
        return;
      }
      var j := job.value;
      var item := Item(j.lines, j.idx);
      AppendedStep(j.lines, j.idx);
      assert j.idx + 1 >= |j.lines| ==> j.idx + 1 == Ticks(j.lines);
      assert j.target == BootBuffer ==> bootLines == Appended(bootLog, j.idx);
      assert j.target == PostBuffer ==>
               postLines == [Str(Summary(selectedIndex))] + Appended(postLog, j.idx);
      if j.target == BootBuffer {
        bootLines := bootLines + [item];
      } else {
        postLines := postLines + [item];
      }
      var idx := j.idx + 1;
      if idx >= |j.lines| {
        job := None;
        pendingPhase := j.next;
      } else {
        job := Some(j.(idx := idx));
      }
    }

    /**
     `n` ticks of a freshly started stream: the target buffer gains the first
     `n` items of the source, in order, and nothing else changes there; the
     interval is cleared and the next phase scheduled exactly when `n`
     reaches the stream's tick count.
     */
    method RunTicks(n: nat)
      requires Valid() && job.Some? && job.value.idx == 0 && n <= Ticks(job.value.lines)
      modifies this`bootLines, this`postLines, this`job, this`pendingPhase
      ensures Valid()
      ensures var j := old(job).value;
                && (j.target == BootBuffer ==>
                      bootLines == old(bootLines) + Appended(j.lines, n) && postLines == old(postLines))
                && (j.target == PostBuffer ==>
                      postLines == old(postLines) + Appended(j.lines, n) && bootLines == old(bootLines))
                && (n < Ticks(j.lines) ==> job == Some(j.(idx := n)) && pendingPhase.None?)
                && (n == Ticks(j.lines) ==> job.None? && pendingPhase == j.next)
    {
      var j := job.value;
      var k := 0;
      assert Appended(j.lines, 0) == [];
      while k < n
        invariant 0 <= k <= n
        invariant Valid()
        invariant j.target == BootBuffer ==>
                    bootLines == old(bootLines) + Appended(j.lines, k) && postLines == old(postLines)
        invariant j.target == PostBuffer ==>
                    postLines == old(postLines) + Appended(j.lines, k) && bootLines == old(bootLines)
        invariant k < Ticks(j.lines) ==> job == Some(j.(idx := k)) && pendingPhase.None?
        invariant k == Ticks(j.lines) ==> job.None? && pendingPhase == j.next
      {
        AppendedStep(j.lines, k);
        Tick();
        k := k + 1;
      }
    }

    /** The settle timeout of a finished stream fires and sets the phase it was given. */
    method SettleElapsed()
      requires Valid()
      modifies this`phase, this`pendingPhase
      ensures Valid()
      ensures old(pendingPhase).None? ==> unchanged(this)
      ensures old(pendingPhase).Some? ==>
                phase == old(pendingPhase).value && Rank(phase) == Rank(old(phase)) + 1
                && pendingPhase.None?
    {
      if pendingPhase.Some? {
        phase := pendingPhase.value;
        pendingPhase := None;
      }
    }

    /**
     A key press. The handler is attached only in MENU: the arrows move the
     selection with wrap-around, `1` and `2` pick an option outright, Enter
     moves to POST; every other key, and every key outside MENU, changes
     nothing. Entering POST runs the POST effect: the post buffer is reset to
     the summary of the selected option and the post-select log is requested.
     */
    method OnKey(key: string)
      requires Valid()
      modifies this`selectedIndex, this`phase, this`postLines, this`postFetchPending, this`postFetches
      ensures Valid()
      ensures old(phase) != MENU ==> unchanged(this)
      ensures old(phase) == MENU && key == "ArrowUp" ==>
                selectedIndex == ArrowUp(old(selectedIndex), |Options|) && phase == MENU
      ensures old(phase) == MENU && key == "ArrowDown" ==>
                selectedIndex == ArrowDown(old(selectedIndex), |Options|) && phase == MENU
      ensures old(phase) == MENU && key == "1" ==> selectedIndex == 0 && phase == MENU
      ensures old(phase) == MENU && key == "2" ==> selectedIndex == 1 && phase == MENU
      ensures old(phase) == MENU && key == "Enter" ==>
                phase == POST && selectedIndex == old(selectedIndex)
                && postLines == [Str(Summary(selectedIndex))]
                && postFetchPending && postFetches == 1
      ensures key != "Enter" ==>
                phase == old(phase) && postLines == old(postLines)
                && postFetchPending == old(postFetchPending) && postFetches == old(postFetches)
      ensures key !in {"ArrowUp", "ArrowDown", "1", "2", "Enter"} ==> unchanged(this)
    {
      if phase != MENU {
        return;
      }
      if key == "ArrowUp" {
        selectedIndex := ArrowUp(selectedIndex, |Options|);
      }
      if key == "ArrowDown" {
        selectedIndex := ArrowDown(selectedIndex, |Options|);
      }
      if key == "1" {
        selectedIndex := 0;
      }
      if key == "2" {
        selectedIndex := 1;
      }
      if key == "Enter" {
        phase := POST;
        postLines := [Str(Summary(selectedIndex))];
        postFetchPending := true;
        postFetches := postFetches + 1;
      }
    }

    /**
     The exit timeline completes. The first completion in EXIT reports the
     id of the selected option to the host; nothing is reported before EXIT
     or a second time.
     */
    method FinishExit() returns (reported: Option<string>)
      requires Valid()
      modifies this`exitDone
      ensures Valid()
      ensures reported.Some? <==> old(phase) == EXIT && !old(exitDone)
      ensures reported.Some? ==>
                reported.value == Options[selectedIndex].id && reported.value in {"1", "2"} && exitDone
      ensures reported.None? ==> unchanged(this)
    {
      if phase == EXIT && !exitDone {
        exitDone := true;
        OptionTable();
        reported := Some(Options[selectedIndex].id);
      } else {
        reported := None;
      }
    }

    /**
     Delivers one event to its handler. Whatever the event, the phase does
     not move back, the selection is frozen once MENU is left, and the host
     hears of the exit once, with the selected id.
     */
    method Step(e: Event) returns (reported: Option<string>)
      requires Valid()
      modifies this
      ensures Valid()
      ensures Rank(old(phase)) <= Rank(phase)
      ensures Rank(old(phase)) >= 2 ==> selectedIndex == old(selectedIndex)
      ensures old(exitDone) ==> exitDone
      ensures reported.Some? <==> !old(exitDone) && exitDone
      ensures reported.Some? ==> reported.value == Options[selectedIndex].id
    {
      reported := None;
      match e {
        case Mount => StartBoot();
        case BootFetched(text) => BootLogFetched(text);
        case PostFetched(text) => PostLogFetched(text);
        case IntervalTick => Tick();
        case TimeoutFired => SettleElapsed();
        case KeyDown(key) => OnKey(key);
        case ExitAnimationComplete => reported := FinishExit();
      }
    }

    /**
     Delivers `events` in order and collects what is reported to the host.
     The phase only moves forward, the selection is frozen once MENU is
     left, each log is requested at most once, and `onClose` is called at
     most once, with the selected id.
     */
    method Run(events: seq<Event>) returns (reports: seq<string>)
      requires Valid()
      modifies this
      ensures Valid()
      ensures Rank(old(phase)) <= Rank(phase)
      ensures Rank(old(phase)) >= 2 ==> selectedIndex == old(selectedIndex)
      ensures bootFetches <= 1 && postFetches <= 1
      ensures |reports| <= 1
      ensures old(exitDone) ==> reports == []
      ensures !old(exitDone) ==> (|reports| == 1 <==> exitDone)
      ensures forall r :: r in reports ==> r == Options[selectedIndex].id
    {
      reports := [];
      var n := 0;
      while n < |events|
        invariant 0 <= n <= |events|
        invariant Valid()
        invariant Rank(old(phase)) <= Rank(phase)
        invariant Rank(old(phase)) >= 2 ==> selectedIndex == old(selectedIndex)
        invariant |reports| <= 1
        invariant old(exitDone) ==> exitDone && reports == []
        invariant !old(exitDone) ==> (|reports| == 1 <==> exitDone)
        invariant forall r :: r in reports ==> r == Options[selectedIndex].id
      {
        var reported := Step(events[n]);
        if reported.Some? {
          reports := reports + [reported.value];
        }
        n := n + 1;
      }
    }
  }

  /** The logs served in the session below. */
  const SessionBootLog: seq<string> := ["madwesh@sys: init", "[INFO] loading modules", "[WARN] low memory"]
  const SessionPostLog: seq<string> := ["[INFO] switching mode"]

  /** Every session line is non-empty and free of line breaks. */
  lemma SessionLinesPlain()
    ensures forall i :: 0 <= i < |SessionBootLog| ==> SessionBootLog[i] != "" && Lacks(SessionBootLog[i], '\n')
    ensures forall i :: 0 <= i < |SessionPostLog| ==> SessionPostLog[i] != "" && Lacks(SessionPostLog[i], '\n')
  {
  }

  /** The session's logs, written one line per row, split back into their lines. */
  lemma SessionLogsSplit()
    ensures SplitLines(Join(SessionBootLog, '\n')) == SessionBootLog
    ensures SplitLines(Join(SessionPostLog, '\n')) == SessionPostLog
  {
    SessionLinesPlain();
    SplitLinesJoin(SessionBootLog);
    SplitLinesJoin(SessionPostLog);
  }

  lemma SessionLogsStreamed()
    ensures Streamed(SessionBootLog)
         == [Str("madwesh@sys: init"), Str("[INFO] loading modules"), Str("[WARN] low memory")]
    ensures Streamed(SessionPostLog) == [Str("[INFO] switching mode")]
  {
    assert |SessionBootLog| == 3 && |SessionPostLog| == 1;
  }

  /**
   The session's boot log as written, with the first updater run at its call
   and the other two at the next render: the middle line is never shown and
   the buffer ends in `undefined`.
   */
  lemma SessionBootLogLate()
    ensures AsWrittenAppended(SessionBootLog, [false, true, true])
         == [Str("madwesh@sys: init"), Str("[WARN] low memory"), Undefined]
  {
    assert |SessionBootLog| == 3;
  }

  /** The start of the session: a repeated mount, then the boot log arrives. */
  method BootFetch(o: Overlay, text: string)
    requires o.Valid() && o.phase == BOOT && !o.bootStarted && o.selectedIndex == 0 && !o.exitDone
    requires SplitLines(text) == SessionBootLog
    modifies o
    ensures o.Valid() && o.phase == BOOT && o.selectedIndex == 0 && !o.exitDone && o.bootFetches == 1
    ensures o.job == Some(Job(SessionBootLog, 0, BootBuffer, Some(MENU))) && o.bootLines == []
  {
    o.StartBoot();
    o.StartBoot();
    o.BootLogFetched(text);
  }

  /** The boot stream: three ticks reveal the three lines, then the settle timeout opens the menu. */
  method BootStream(o: Overlay)
    requires o.Valid() && o.phase == BOOT && o.selectedIndex == 0 && !o.exitDone && o.bootFetches == 1
    requires o.job == Some(Job(SessionBootLog, 0, BootBuffer, Some(MENU)))
    modifies o
    ensures o.Valid() && o.phase == MENU && o.selectedIndex == 0 && !o.exitDone
    ensures o.bootLines == Streamed(SessionBootLog) && o.bootFetches == 1
  {
    o.RunTicks(|SessionBootLog|);
    o.SettleElapsed();
  }

  /** The post part of the session: the post log, one tick and the settle timeout. */
  method PostSession(o: Overlay, text: string)
    requires o.Valid() && o.phase == POST && o.postFetchPending && !o.exitDone
    requires SplitLines(text) == SessionPostLog
    modifies o
    ensures o.Valid() && o.phase == EXIT && !o.exitDone && o.selectedIndex == old(o.selectedIndex)
    ensures o.postLines == [Str(Summary(o.selectedIndex))] + Streamed(SessionPostLog)
  {
    o.PostLogFetched(text);
    o.RunTicks(|SessionPostLog|);
    o.SettleElapsed();
  }

  /** The menu part of the session: ArrowDown moves to the second option and Enter confirms it. */
  method ChooseSecond(o: Overlay)
    requires o.Valid() && o.phase == MENU && o.selectedIndex == 0 && !o.exitDone
    modifies o
    ensures o.Valid() && o.phase == POST && o.selectedIndex == 1 && o.postFetchPending && !o.exitDone
    ensures o.bootLines == old(o.bootLines)
  {
    o.OnKey("ArrowDown");
    o.OnKey("Enter");
  }

  /** The exit timeline completes, and then, spuriously, once more. */
  method ExitTwice(o: Overlay) returns (reported: Option<string>, reportedAgain: Option<string>)
    requires o.Valid() && o.phase == EXIT && !o.exitDone
    modifies o`exitDone
    ensures reported == Some(Options[o.selectedIndex].id) && reportedAgain == None
  {
    reported := o.FinishExit();
    reportedAgain := o.FinishExit();
  }

  /**
   A whole session: a boot log with three lines streams in, the menu opens on
   the first option, ArrowDown then Enter choose the second, the post log
   streams in after the summary line, and the exit reports "2", once.
   `SessionLogsSplit` shows that the logs written one line each qualify.
   */
  method PlaygroundSession(bootText: string, postText: string)
    returns (bootShown: seq<LineValue>, postShown: seq<LineValue>, reported: Option<string>, reportedAgain: Option<string>)
    requires SplitLines(bootText) == SessionBootLog && SplitLines(postText) == SessionPostLog
    ensures bootShown == [Str("madwesh@sys: init"), Str("[INFO] loading modules"), Str("[WARN] low memory")]
    ensures postShown == [Str("You selected: " + "Playground Mode"), Str("[INFO] switching mode")]
    ensures reported == Some("2") && reportedAgain == None
  {
    SessionLogsStreamed();
    OptionTable();
    var o := new Overlay();
    BootFetch(o, bootText);
    BootStream(o);
    bootShown := o.bootLines;
    ChooseSecond(o);
    PostSession(o, postText);
    postShown := o.postLines;
    assert postShown == [Str(Summary(1))] + Streamed(SessionPostLog);
    reported, reportedAgain := ExitTwice(o);
  }
}
