/**
  Properties of the deployment transfer engine: the jobs the builder makes,
  how each wait for an acknowledgement ends, what streaming a file writes,
  the order of files on the wire, the lock, the log record and the progress
  reported.
*/
module DeployMetaProofs {
  import opened Wrappers
  import opened DeployMeta

  // ---------------------------------------------------------------------
  // Transfer-job builder
  // ---------------------------------------------------------------------

  /** The non-folder files of a list, in order (a reference definition: a filter, without the job mapping). */
  function NonFolders(files: seq<FileNode>): (r: seq<FileNode>)
    ensures forall f :: f in r <==> f in files && !f.isFolder
  {
    if files == [] then []
    else
      var last := files[|files| - 1];
      assert files == files[..|files| - 1] + [last];
      NonFolders(files[..|files| - 1]) + (if last.isFolder then [] else [last])
  }

  /** Jobs of one detail grow with its file list: the jobs of `a + b` are those of `a`, then those of `b`. */
  lemma {:induction false} DetailMetasAppend(d: DeploymentDesignDetail, fp: string -> string, a: seq<FileNode>, b: seq<FileNode>)
    ensures DetailMetas(d, fp, a + b) == DetailMetas(d, fp, a) + DetailMetas(d, fp, b)
    decreases |b|
  {
    if b == [] {
      assert a + b == a;
    } else {
      var b' := b[..|b| - 1];
      assert (a + b)[..|a + b| - 1] == a + b';
      DetailMetasAppend(d, fp, a, b');
    }
  }

  /** The jobs of a detail are the jobs of its non-folder files, one each, in order. */
  lemma {:induction false} DetailMetasMap(d: DeploymentDesignDetail, fp: string -> string, files: seq<FileNode>)
    ensures var jobs := DetailMetas(d, fp, files); var nf := NonFolders(files);
      |jobs| == |nf| && forall k :: 0 <= k < |jobs| ==> jobs[k] == MetaFor(d, fp, nf[k])
    decreases |files|
  {
    if files != [] {
      var init := files[..|files| - 1];
      var last := files[|files| - 1];
      DetailMetasMap(d, fp, init);
      var jobs := DetailMetas(d, fp, files);
      var nf := NonFolders(files);
      var ji := DetailMetas(d, fp, init);
      var ni := NonFolders(init);
      assert jobs == ji + (if last.isFolder then [] else [MetaFor(d, fp, last)]);
      assert nf == ni + (if last.isFolder then [] else [last]);
      forall k | 0 <= k < |jobs| ensures jobs[k] == MetaFor(d, fp, nf[k]) {
        if k < |ji| {
          assert jobs[k] == ji[k] && nf[k] == ni[k];
        }
      }
    }
  }

  /**
    createDeployMeta makes exactly one job per non-folder file of the
    selected tree, in the tree's order, with the detail's device, the path
    deployPath + mount + path in tree (normalised) and the file's entity.
  */
  lemma DetailMetasAreNonFolders(d: DeploymentDesignDetail, fp: string -> string, files: seq<FileNode>)
    ensures var jobs := DetailMetas(d, fp, files); var nf := NonFolders(files);
      && |jobs| == |nf|
      && forall k :: 0 <= k < |jobs| ==>
           && jobs[k] == MetaFor(d, fp, nf[k])
           && jobs[k].device == d.device
           && jobs[k].targetPath == fp(d.device.deployPath + SourceOf(d).relativePath + nf[k].treePath)
           && jobs[k].file == nf[k].file
  {
    DetailMetasMap(d, fp, files);
  }

  /** The jobs of a list of details are those of each detail, concatenated in argument order. */
  lemma {:induction false} AllMetasAppend(x: seq<DeploymentDesignDetail>, y: seq<DeploymentDesignDetail>, fp: string -> string)
    ensures AllMetas(x + y, fp) == AllMetas(x, fp) + AllMetas(y, fp)
    decreases |y|
  {
    if y == [] {
      assert x + y == x;
    } else {
      var y' := y[..|y| - 1];
      var last := y[|y| - 1];
      var tail := DetailMetas(last, fp, SourceOf(last).files);
      assert (x + y)[..|x + y| - 1] == x + y';
      assert (x + y)[|x + y| - 1] == last;
      assert AllMetas(x + y, fp) == AllMetas(x + y', fp) + tail;
      assert AllMetas(y, fp) == AllMetas(y', fp) + tail;
      AllMetasAppend(x, y', fp);
    }
  }

  /** Within one detail, the jobs are exactly the jobs of its non-folder files. */
  lemma DetailMetasMembers(d: DeploymentDesignDetail, fp: string -> string, files: seq<FileNode>, m: DeployMetaEntity)
    ensures m in DetailMetas(d, fp, files) <==> exists f :: f in files && !f.isFolder && m == MetaFor(d, fp, f)
  {
    DetailMetasAreNonFolders(d, fp, files);
    var jobs := DetailMetas(d, fp, files);
    var nf := NonFolders(files);
    if m in jobs {
      var k :| 0 <= k < |jobs| && jobs[k] == m;
      assert nf[k] in nf;
    }
    if exists f :: f in files && !f.isFolder && m == MetaFor(d, fp, f) {
      var f :| f in files && !f.isFolder && m == MetaFor(d, fp, f);
      assert f in nf;
      var k :| 0 <= k < |nf| && nf[k] == f;
      assert jobs[k] == m;
    }
  }

  /** Every job of createDeployMeta comes from a non-folder file of one of the details. */
  lemma {:induction false} AllMetasSound(details: seq<DeploymentDesignDetail>, fp: string -> string, m: DeployMetaEntity)
    requires m in AllMetas(details, fp)
    ensures exists i, f :: 0 <= i < |details| && f in SourceOf(details[i]).files && !f.isFolder && m == MetaFor(details[i], fp, f)
    decreases |details|
  {
    var n := |details| - 1;
    var last := details[n];
    if m in DetailMetas(last, fp, SourceOf(last).files) {
      DetailMetasMembers(last, fp, SourceOf(last).files, m);
      var f :| f in SourceOf(last).files && !f.isFolder && m == MetaFor(last, fp, f);
      assert 0 <= n < |details| && f in SourceOf(details[n]).files && !f.isFolder && m == MetaFor(details[n], fp, f);
    } else {
      AllMetasSound(details[..n], fp, m);
      var i, f :| 0 <= i < n && f in SourceOf(details[..n][i]).files && !f.isFolder && m == MetaFor(details[..n][i], fp, f);
      assert details[..n][i] == details[i];
    }
  }

  /** Every non-folder file of every detail gives a job of createDeployMeta. */
  lemma {:induction false} AllMetasComplete(details: seq<DeploymentDesignDetail>, fp: string -> string, i: nat, f: FileNode)
    requires i < |details| && f in SourceOf(details[i]).files && !f.isFolder
    ensures MetaFor(details[i], fp, f) in AllMetas(details, fp)
    decreases |details|
  {
    var n := |details| - 1;
    if i == n {
      DetailMetasMembers(details[n], fp, SourceOf(details[n]).files, MetaFor(details[i], fp, f));
    } else {
      assert details[..n][i] == details[i];
      AllMetasComplete(details[..n], fp, i, f);
    }
  }

  // ---------------------------------------------------------------------
  // Views of the wire and of the events
  // ---------------------------------------------------------------------

  /** The payload bytes among the frames. */
  function Bytes(fs: seq<Frame>): nat {
    if fs == [] then 0
    else Bytes(fs[..|fs| - 1]) + (if fs[|fs| - 1].Payload? then |fs[|fs| - 1].data| else 0)
  }

  /** The target paths announced on the wire, in order. */
  function Targets(fs: seq<Frame>): seq<string> {
    if fs == [] then []
    else Targets(fs[..|fs| - 1]) + (if fs[|fs| - 1].PathField? then [fs[|fs| - 1].path] else [])
  }

  /** The files whose success was reported, in order. */
  function Succeeded(es: seq<ProgressEvent>): seq<string> {
    if es == [] then []
    else
      var e := es[|es| - 1];
      Succeeded(es[..|es| - 1]) + (if e.status == DEPLOYING_SUCCEED && e.message.FileSucceeded? then [e.message.target] else [])
  }

  /** The target paths of a job list, in order. */
  function TargetPaths(jobs: seq<DeployMetaEntity>): (r: seq<string>)
    ensures |r| == |jobs|
  {
    if jobs == [] then [] else TargetPaths(jobs[..|jobs| - 1]) + [jobs[|jobs| - 1].targetPath]
  }

  function Repeat(f: Frame, n: nat): seq<Frame> {
    if n == 0 then [] else [f] + Repeat(f, n - 1)
  }

  /** The timed-out reads among polls a .. b-1. */
  function TimeoutsIn(polls: seq<Poll>, a: nat, b: nat): nat
    requires b <= |polls|
    decreases b - a
  {
    if a >= b then 0 else (if polls[a].TimedOut? then 1 else 0) + TimeoutsIn(polls, a + 1, b)
  }

  /** The bytes the reads from number k on deliver. */
  function ChunkBytes(results: seq<FileRead>, k: nat): nat
    decreases |results| - k
  {
    if k >= |results| then 0 else (if results[k].Chunk? then |results[k].data| else 0) + ChunkBytes(results, k + 1)
  }

  lemma FrameSnoc(fs: seq<Frame>, f: Frame)
    ensures Bytes(fs + [f]) == Bytes(fs) + (if f.Payload? then |f.data| else 0)
    ensures Targets(fs + [f]) == Targets(fs) + (if f.PathField? then [f.path] else [])
  {
    assert (fs + [f])[..|fs|] == fs;
  }

  lemma EventSnoc(es: seq<ProgressEvent>, e: ProgressEvent)
    ensures Succeeded(es + [e]) == Succeeded(es) + (if e.status == DEPLOYING_SUCCEED && e.message.FileSucceeded? then [e.message.target] else [])
  {
    assert (es + [e])[..|es|] == es;
  }

  lemma TargetPathsSnoc(jobs: seq<DeployMetaEntity>, i: nat)
    requires i < |jobs|
    ensures TargetPaths(jobs[..i + 1]) == TargetPaths(jobs[..i]) + [jobs[i].targetPath]
  {
    assert jobs[..i + 1][..i] == jobs[..i];
  }

  // ---------------------------------------------------------------------
  // Invariant of the session state
  // ---------------------------------------------------------------------

  /** A progress event the session may emit before it ends, given `sent` bytes sent so far. */
  predicate EventBefore(ctx: Ctx, e: ProgressEvent, sent: nat) {
    && e.topic == ctx.topic && e.host == ctx.host
    && e.progress.den == ctx.total && 0 <= e.progress.num <= sent
    && (e.status == DEPLOYING || e.status == DEPLOYING_SUCCEED)
  }

  /**
    The session state is consistent: totalSendSize is the number of payload
    bytes written, every event so far reports progress sent/total with a
    non-final status, progress never goes backwards, and the reads consumed
    are within the trace.
  */
  ghost predicate Inv(ctx: Ctx, st: St) {
    && Bytes(st.frames) == st.sent
    && st.pos <= |ctx.env.polls|
    && EventsBefore(ctx, st.events, st.sent)
    && Monotone(st.events)
  }

  ghost predicate EventsBefore(ctx: Ctx, es: seq<ProgressEvent>, sent: nat) {
    forall k :: 0 <= k < |es| ==> EventBefore(ctx, es[k], sent)
  }

  ghost predicate Monotone(es: seq<ProgressEvent>) {
    forall j, k :: 0 <= j < k < |es| ==> es[j].progress.num <= es[k].progress.num
  }

  lemma EventsBeforeMore(ctx: Ctx, es: seq<ProgressEvent>, a: nat, b: nat)
    requires EventsBefore(ctx, es, a) && a <= b
    ensures EventsBefore(ctx, es, b)
  {
    forall k | 0 <= k < |es| ensures EventBefore(ctx, es[k], b) {
      assert EventBefore(ctx, es[k], a);
    }
  }

  /** A session state only grows: frames and events are appended, counters do not go back. */
  ghost predicate Grows(st: St, st': St) {
    && st.frames <= st'.frames && st.events <= st'.events && st.sent <= st'.sent && st.pos <= st'.pos
  }

  lemma EmitKeeps(ctx: Ctx, st: St, status: int, m: EventMessage)
    requires Inv(ctx, st) && (status == DEPLOYING || status == DEPLOYING_SUCCEED)
    ensures Inv(ctx, Emit(ctx, st, status, m)) && Grows(st, Emit(ctx, st, status, m))
    ensures Targets(Emit(ctx, st, status, m).frames) == Targets(st.frames)
    ensures Succeeded(Emit(ctx, st, status, m).events) ==
      Succeeded(st.events) + (if status == DEPLOYING_SUCCEED && m.FileSucceeded? then [m.target] else [])
  {
    var e := EventNow(ctx, st, status, m);
    var es := st.events + [e];
    assert Emit(ctx, st, status, m).events == es;
    EventSnoc(st.events, e);
    forall k | 0 <= k < |es| ensures EventBefore(ctx, es[k], st.sent) {
      if k < |st.events| {
        assert es[k] == st.events[k];
      }
    }
    forall j, k | 0 <= j < k < |es| ensures es[j].progress.num <= es[k].progress.num {
      assert es[j] == st.events[j];
      assert EventBefore(ctx, st.events[j], st.sent);
      if k < |st.events| {
        assert es[k] == st.events[k];
      }
    }
  }

  lemma SendKeeps(ctx: Ctx, st: St, f: Frame)
    requires Inv(ctx, st) && !f.Payload?
    ensures Inv(ctx, Send(ctx, st, f).st) && Grows(st, Send(ctx, st, f).st)
  {
    FrameSnoc(st.frames, f);
  }

  /** Writing a frame either appends it or, when the write throws, changes nothing and interrupts the session. */
  lemma SendViews(ctx: Ctx, st: St, f: Frame)
    ensures var r := Send(ctx, st, f);
      && (r.Go? <==> !WriteFails(ctx, st))
      && (r.Stop? ==> r.st == st && r.outcome == Interrupted(IoFailure(ctx.env.writeFault.message)))
      && (r.Go? ==> r.st.frames == st.frames + [f] && Targets(r.st.frames) == Targets(st.frames) + (if f.PathField? then [f.path] else []))
  {
    FrameSnoc(st.frames, f);
  }

  // ---------------------------------------------------------------------
  // The acknowledgement waits
  // ---------------------------------------------------------------------

  /** A read that ends a wait for byte `ack`: that byte, or a timed-out read past the deadline. */
  predicate Decisive(cfg: Config, ack: int, p: Poll) {
    (p.Got? && p.value == ack) || (p.TimedOut? && p.elapsed >= cfg.replyTimeout)
  }

  /** None of the reads a .. b-1 ends a wait for `ack`. */
  predicate Undecided(cfg: Config, ack: int, polls: seq<Poll>, a: nat, b: nat) {
    forall k :: a <= k < b && k < |polls| ==> !Decisive(cfg, ack, polls[k])
  }

  /**
    The path acknowledgement wait is decided by the first decisive read: it
    goes on exactly when that read is 'r', fails with the path-reply timeout
    exactly when it is a timed-out read past the deadline, and is still
    waiting when there is none. A byte other than 'r' (also -1) never ends
    the wait, and the wait writes nothing, emits nothing and sends no byte.
  */
  lemma {:induction false} PathAckSpec(ctx: Ctx, t: string, st: St)
    requires st.pos <= |ctx.env.polls|
    ensures var r := PathAck(ctx, t, st); var polls := ctx.env.polls;
      && r.st == st.(pos := r.st.pos)
      && st.pos <= r.st.pos <= |polls|
      && (r.Go? ==> st.pos < r.st.pos && polls[r.st.pos - 1] == Got(PATH_ACK)
                    && Undecided(ctx.cfg, PATH_ACK, polls, st.pos, r.st.pos - 1))
      && (r.Stop? ==> r.outcome == Pending || r.outcome == PathAckTimeout(t))
      && (r.Stop? && r.outcome == Pending ==> r.st.pos == |polls| && Undecided(ctx.cfg, PATH_ACK, polls, st.pos, |polls|))
      && (r.Stop? && r.outcome == PathAckTimeout(t) ==>
            && st.pos < r.st.pos && polls[r.st.pos - 1].TimedOut? && polls[r.st.pos - 1].elapsed >= ctx.cfg.replyTimeout
            && Undecided(ctx.cfg, PATH_ACK, polls, st.pos, r.st.pos - 1))
    decreases |ctx.env.polls| - st.pos
  {
    var polls := ctx.env.polls;
    if st.pos < |polls| {
      var next := st.(pos := st.pos + 1);
      if !Decisive(ctx.cfg, PATH_ACK, polls[st.pos]) {
        PathAckSpec(ctx, t, next);
      }
    }
  }

  /** The path wait changes only the read position, and stops only while waiting or on its timeout. */
  lemma {:induction false} PathAckViews(ctx: Ctx, t: string, st: St)
    ensures var r := PathAck(ctx, t, st);
      && r.st == st.(pos := r.st.pos)
      && (r.Stop? ==> r.outcome == Pending || r.outcome == PathAckTimeout(t))
    decreases |ctx.env.polls| - st.pos
  {
    if st.pos < |ctx.env.polls| {
      PathAckViews(ctx, t, st.(pos := st.pos + 1));
    }
  }

  /** The state after one timed-out read of the end wait re-sent "fileRecvEnd". */
  function AfterResend(st: St): St {
    st.(frames := st.frames + [Marker(FILE_RECV_END)], pos := st.pos + 1)
  }

  lemma EndAckSkip(ctx: Ctx, t: string, st: St)
    requires st.pos < |ctx.env.polls| && ctx.env.polls[st.pos].Got? && ctx.env.polls[st.pos].value != END_ACK
    ensures EndAck(ctx, t, st) == EndAck(ctx, t, st.(pos := st.pos + 1))
  {
  }

  lemma EndAckResend(ctx: Ctx, t: string, st: St)
    requires st.pos < |ctx.env.polls| && ctx.env.polls[st.pos].TimedOut?
    requires !WriteFails(ctx, st) && ctx.env.polls[st.pos].elapsed < ctx.cfg.replyTimeout
    ensures EndAck(ctx, t, st) == EndAck(ctx, t, AfterResend(st))
  {
  }

  lemma ResendKeeps(ctx: Ctx, st: St)
    requires Inv(ctx, st) && st.pos < |ctx.env.polls|
    ensures var s := AfterResend(st);
      Inv(ctx, s) && Grows(st, s) && s.events == st.events && s.sent == st.sent
  {
    FrameSnoc(st.frames, Marker(FILE_RECV_END));
  }

  /** The end wait keeps the invariant; it emits nothing and sends no payload. */
  lemma {:induction false} EndAckKeeps(ctx: Ctx, t: string, st: St)
    requires Inv(ctx, st)
    ensures var r := EndAck(ctx, t, st);
      && Inv(ctx, r.st) && Grows(st, r.st)
      && r.st.events == st.events && r.st.sent == st.sent
    decreases |ctx.env.polls| - st.pos
  {
    var polls := ctx.env.polls;
    if st.pos < |polls| {
      var next := st.(pos := st.pos + 1);
      if polls[st.pos].Got? {
        if polls[st.pos].value != END_ACK {
          EndAckKeeps(ctx, t, next);
        }
      } else if !WriteFails(ctx, next) {
        ResendKeeps(ctx, st);
        if polls[st.pos].elapsed < ctx.cfg.replyTimeout {
          EndAckKeeps(ctx, t, AfterResend(st));
        }
      }
    }
  }

  /**
    The end wait announces no path and emits nothing, and it stops only
    while still waiting, on its timeout, or on a write that throws.
  */
  lemma {:induction false} EndAckViews(ctx: Ctx, t: string, st: St)
    ensures var r := EndAck(ctx, t, st);
      && r.st.events == st.events
      && Targets(r.st.frames) == Targets(st.frames)
      && (r.Stop? ==> r.outcome == Pending || r.outcome == EndAckTimeout(t) || r.outcome.Interrupted?)
      && (r.Stop? && r.outcome.Interrupted? ==> ctx.env.writeFault.FailsAt?)
    decreases |ctx.env.polls| - st.pos
  {
    var polls := ctx.env.polls;
    if st.pos < |polls| {
      if polls[st.pos].Got? {
        if polls[st.pos].value != END_ACK {
          EndAckSkip(ctx, t, st);
          EndAckViews(ctx, t, st.(pos := st.pos + 1));
        }
      } else if !WriteFails(ctx, st) {
        FrameSnoc(st.frames, Marker(FILE_RECV_END));
        if polls[st.pos].elapsed < ctx.cfg.replyTimeout {
          EndAckResend(ctx, t, st);
          EndAckViews(ctx, t, AfterResend(st));
        }
      }
    }
  }

  /**
    The end wait is decided by the first read that is 'f' or a timed-out
    read past the deadline, like the path wait (a write that throws while
    re-sending can end it sooner).
  */
  lemma {:induction false} EndAckDecided(ctx: Ctx, t: string, st: St)
    requires st.pos <= |ctx.env.polls|
    ensures var r := EndAck(ctx, t, st); var polls := ctx.env.polls;
      && st.pos <= r.st.pos <= |polls|
      && (r.Go? ==> st.pos < r.st.pos && polls[r.st.pos - 1] == Got(END_ACK)
                    && Undecided(ctx.cfg, END_ACK, polls, st.pos, r.st.pos - 1))
      && (r.Stop? && r.outcome == Pending ==> r.st.pos == |polls| && Undecided(ctx.cfg, END_ACK, polls, st.pos, |polls|))
      && (r.Stop? && r.outcome == EndAckTimeout(t) ==>
            && st.pos < r.st.pos && polls[r.st.pos - 1].TimedOut? && polls[r.st.pos - 1].elapsed >= ctx.cfg.replyTimeout
            && Undecided(ctx.cfg, END_ACK, polls, st.pos, r.st.pos - 1))
    decreases |ctx.env.polls| - st.pos
  {
    var polls := ctx.env.polls;
    if st.pos < |polls| {
      var next := st.(pos := st.pos + 1);
      if polls[st.pos].Got? {
        if polls[st.pos].value != END_ACK {
          EndAckDecided(ctx, t, next);
        }
      } else if !WriteFails(ctx, next) && polls[st.pos].elapsed < ctx.cfg.replyTimeout {
        EndAckDecided(ctx, t, AfterResend(st));
      }
    }
  }

  /**
    Every timed-out read the end wait consumes re-sends "fileRecvEnd" once,
    before the deadline is looked at (the last one is only tried when that
    write throws), and nothing else is written.
  */
  lemma {:induction false} EndAckResends(ctx: Ctx, t: string, st: St)
    requires st.pos <= |ctx.env.polls|
    ensures var r := EndAck(ctx, t, st);
      && st.pos <= r.st.pos <= |ctx.env.polls|
      && var resent := TimeoutsIn(ctx.env.polls, st.pos, r.st.pos) - (if r.Stop? && r.outcome.Interrupted? then 1 else 0);
         resent >= 0 && r.st.frames == st.frames + Repeat(Marker(FILE_RECV_END), resent)
    decreases |ctx.env.polls| - st.pos
  {
    var polls := ctx.env.polls;
    var r := EndAck(ctx, t, st);
    if st.pos >= |polls| {
      assert r.st.frames == st.frames + Repeat(Marker(FILE_RECV_END), 0);
    } else {
      var next := st.(pos := st.pos + 1);
      if polls[st.pos].Got? {
        if polls[st.pos].value != END_ACK {
          EndAckResends(ctx, t, next);
        } else {
          assert r.st.frames == st.frames + Repeat(Marker(FILE_RECV_END), 0);
        }
      } else if WriteFails(ctx, next) {
        assert r.st.frames == st.frames + Repeat(Marker(FILE_RECV_END), 0);
        assert TimeoutsIn(polls, st.pos + 1, st.pos + 1) == 0;
      } else if polls[st.pos].elapsed >= ctx.cfg.replyTimeout {
        assert TimeoutsIn(polls, st.pos + 1, st.pos + 1) == 0;
        assert r.st.frames == st.frames + Repeat(Marker(FILE_RECV_END), 1);
      } else {
        var s := AfterResend(st);
        EndAckResends(ctx, t, s);
        var n := TimeoutsIn(polls, s.pos, r.st.pos) - (if r.Stop? && r.outcome.Interrupted? then 1 else 0);
        assert r.st.frames == s.frames + Repeat(Marker(FILE_RECV_END), n);
        assert st.frames + [Marker(FILE_RECV_END)] + Repeat(Marker(FILE_RECV_END), n)
            == st.frames + Repeat(Marker(FILE_RECV_END), n + 1);
      }
    }
  }

  // ---------------------------------------------------------------------
  // Streaming a file
  // ---------------------------------------------------------------------

  /** The events from number `from` on are IN_PROGRESS reports for target `t`. */
  predicate OnlyDeploying(es: seq<ProgressEvent>, from: nat, t: string) {
    forall j :: from <= j < |es| ==> es[j].status == DEPLOYING && es[j].message == FileDeploying(t)
  }

  /** The state after one chunk of `data` went out without an exception. */
  function AfterChunk(ctx: Ctx, t: string, src: FileSource, fileSent: nat, data: seq<byte>, st: St): St {
    var s' := st.(frames := st.frames + [Payload(data)], sent := st.sent + |data|);
    if src.length > LARGE_FILE && (fileSent + |data|) % (10 * ctx.cfg.bufferSize) == 0
    then Emit(ctx, s', DEPLOYING, FileDeploying(t)) else s'
  }

  lemma StreamUnfold(ctx: Ctx, t: string, src: FileSource, fileSent: nat, k: nat, st: St)
    requires fileSent < src.length && k < |src.results| && src.results[k].Chunk? && !WriteFails(ctx, st)
    ensures Stream(ctx, t, src, fileSent, k, st) ==
      Stream(ctx, t, src, fileSent + |src.results[k].data|, k + 1, AfterChunk(ctx, t, src, fileSent, src.results[k].data, st))
  {
  }

  lemma ChunkKeeps(ctx: Ctx, t: string, src: FileSource, fileSent: nat, data: seq<byte>, st: St)
    requires Inv(ctx, st)
    ensures var s := AfterChunk(ctx, t, src, fileSent, data, st);
      && Inv(ctx, s) && Grows(st, s) && s.pos == st.pos
  {
    var s' := st.(frames := st.frames + [Payload(data)], sent := st.sent + |data|);
    FrameSnoc(st.frames, Payload(data));
    EventsBeforeMore(ctx, st.events, st.sent, s'.sent);
    assert Inv(ctx, s');
    if src.length > LARGE_FILE && (fileSent + |data|) % (10 * ctx.cfg.bufferSize) == 0 {
      EmitKeeps(ctx, s', DEPLOYING, FileDeploying(t));
    }
  }

  lemma OnlyDeployingJoin(es1: seq<ProgressEvent>, es2: seq<ProgressEvent>, from: nat, t: string)
    requires es1 <= es2 && from <= |es1|
    requires OnlyDeploying(es1, from, t) && OnlyDeploying(es2, |es1|, t)
    ensures OnlyDeploying(es2, from, t)
  {
    forall j | from <= j < |es2| ensures es2[j].status == DEPLOYING && es2[j].message == FileDeploying(t) {
      if j < |es1| {
        assert es2[j] == es1[j];
      }
    }
  }

  lemma ChunkViews(ctx: Ctx, t: string, src: FileSource, fileSent: nat, data: seq<byte>, st: St)
    ensures var s := AfterChunk(ctx, t, src, fileSent, data, st);
      Targets(s.frames) == Targets(st.frames) && Succeeded(s.events) == Succeeded(st.events) && s.pos == st.pos
  {
    FrameSnoc(st.frames, Payload(data));
    var s' := st.(frames := st.frames + [Payload(data)], sent := st.sent + |data|);
    EventSnoc(s'.events, EventNow(ctx, s', DEPLOYING, FileDeploying(t)));
  }

  /**
    Streaming a file keeps the invariant: totalSendSize stays the payload
    bytes written and the events it adds report at most that, never going back.
  */
  lemma {:induction false} StreamKeeps(ctx: Ctx, t: string, src: FileSource, fileSent: nat, k: nat, st: St)
    requires Inv(ctx, st)
    ensures var r := Stream(ctx, t, src, fileSent, k, st);
      Inv(ctx, r.st) && Grows(st, r.st)
    decreases |src.results| - k
  {
    if fileSent < src.length && k < |src.results| && src.results[k].Chunk? && !WriteFails(ctx, st) {
      var data := src.results[k].data;
      var s := AfterChunk(ctx, t, src, fileSent, data, st);
      StreamUnfold(ctx, t, src, fileSent, k, st);
      ChunkKeeps(ctx, t, src, fileSent, data, st);
      StreamKeeps(ctx, t, src, fileSent + |data|, k + 1, s);
    }
  }

  /** Streaming announces no path, reports no success, reads no socket byte, and stops only on a -1 read or an exception. */
  lemma {:induction false} StreamViews(ctx: Ctx, t: string, src: FileSource, fileSent: nat, k: nat, st: St)
    ensures var r := Stream(ctx, t, src, fileSent, k, st);
      && r.st.pos == st.pos
      && Targets(r.st.frames) == Targets(st.frames) && Succeeded(r.st.events) == Succeeded(st.events)
      && (r.Stop? ==> r.outcome == ReadFault(t) || r.outcome.Interrupted?)
    decreases |src.results| - k
  {
    if fileSent < src.length && k < |src.results| && src.results[k].Chunk? && !WriteFails(ctx, st) {
      var data := src.results[k].data;
      var s := AfterChunk(ctx, t, src, fileSent, data, st);
      StreamUnfold(ctx, t, src, fileSent, k, st);
      ChunkViews(ctx, t, src, fileSent, data, st);
      StreamViews(ctx, t, src, fileSent + |data|, k + 1, s);
    }
  }

  /** Streaming a file emits only IN_PROGRESS events, and none for a file of at most 10 MB. */
  lemma {:induction false} StreamEvents(ctx: Ctx, t: string, src: FileSource, fileSent: nat, k: nat, st: St)
    ensures var r := Stream(ctx, t, src, fileSent, k, st);
      && st.events <= r.st.events
      && OnlyDeploying(r.st.events, |st.events|, t)
      && (src.length <= LARGE_FILE ==> r.st.events == st.events)
    decreases |src.results| - k
  {
    if fileSent < src.length && k < |src.results| && src.results[k].Chunk? && !WriteFails(ctx, st) {
      var data := src.results[k].data;
      var s := AfterChunk(ctx, t, src, fileSent, data, st);
      StreamUnfold(ctx, t, src, fileSent, k, st);
      StreamEvents(ctx, t, src, fileSent + |data|, k + 1, s);
      OnlyDeployingJoin(s.events, Stream(ctx, t, src, fileSent, k, st).st.events, |st.events|, t);
    }
  }

  /** The n reads from number k on are all chunks. */
  predicate ChunksRead(src: FileSource, k: nat, n: nat) {
    && (n > 0 ==> k + n <= |src.results|)
    && forall j :: k <= j < k + n ==> src.results[j].Chunk?
  }

  /** The bytes the n chunks from read number k on carry. */
  function ChunkSum(src: FileSource, k: nat, n: nat): nat
    requires ChunksRead(src, k, n)
    decreases n
  {
    if n == 0 then 0 else |src.results[k].data| + ChunkSum(src, k + 1, n - 1)
  }

  /**
    The IN_PROGRESS events streaming the n chunks from read number k on
    reports, `fileSent` bytes of the file and `sent` of the session already
    sent: after a chunk, one event exactly when the file is larger than 10 MB
    and the file's bytes sent are a multiple of ten buffers, reporting the
    session's bytes sent at that moment.
  */
  function StreamProgress(ctx: Ctx, t: string, src: FileSource, fileSent: nat, sent: nat, k: nat, n: nat): seq<ProgressEvent>
    requires ChunksRead(src, k, n)
    decreases n
  {
    if n == 0 then []
    else
      var d := |src.results[k].data|;
      (if src.length > LARGE_FILE && (fileSent + d) % (10 * ctx.cfg.bufferSize) == 0
       then [ProgressEvent(ctx.topic, ctx.host, Percent(sent + d, ctx.total), DEPLOYING, FileDeploying(t))]
       else [])
      + StreamProgress(ctx, t, src, fileSent + d, sent + d, k + 1, n - 1)
  }

  /** The payload frames of the n chunks from read number k on, in read order. */
  function ChunkPayloads(src: FileSource, k: nat, n: nat): seq<Frame>
    requires ChunksRead(src, k, n)
    decreases n
  {
    if n == 0 then [] else [Payload(src.results[k].data)] + ChunkPayloads(src, k + 1, n - 1)
  }

  /**
    What streaming puts on the wire and reports: one payload frame per chunk
    read, holding exactly the bytes read, in read order; totalSendSize grows
    by those bytes; and the events are those of StreamProgress.
  */
  lemma {:induction false} StreamWire(ctx: Ctx, t: string, src: FileSource, fileSent: nat, k: nat, st: St)
    ensures var r := Stream(ctx, t, src, fileSent, k, st);
      && st.frames <= r.st.frames
      && var n := |r.st.frames| - |st.frames|;
      && ChunksRead(src, k, n)
      && r.st.frames == st.frames + ChunkPayloads(src, k, n)
      && r.st.sent == st.sent + ChunkSum(src, k, n)
      && r.st.events == st.events + StreamProgress(ctx, t, src, fileSent, st.sent, k, n)
    decreases |src.results| - k
  {
    var r := Stream(ctx, t, src, fileSent, k, st);
    if fileSent < src.length && k < |src.results| && src.results[k].Chunk? && !WriteFails(ctx, st) {
      var data := src.results[k].data;
      var s := AfterChunk(ctx, t, src, fileSent, data, st);
      StreamUnfold(ctx, t, src, fileSent, k, st);
      StreamWire(ctx, t, src, fileSent + |data|, k + 1, s);
      ChunkWire(ctx, t, src, fileSent, k, st, r.st);
    } else {
      assert r.st == st;
      assert ChunksRead(src, k, 0);
      assert st.events + StreamProgress(ctx, t, src, fileSent, st.sent, k, 0) == st.events;
    }
  }

  /** One chunk followed by the rest of the stream: the step of StreamWire. */
  lemma ChunkWire(ctx: Ctx, t: string, src: FileSource, fileSent: nat, k: nat, st: St, fin: St)
    requires k < |src.results| && src.results[k].Chunk?
    requires var s := AfterChunk(ctx, t, src, fileSent, src.results[k].data, st);
      && s.frames <= fin.frames
      && var n := |fin.frames| - |s.frames|;
      && ChunksRead(src, k + 1, n)
      && fin.frames == s.frames + ChunkPayloads(src, k + 1, n)
      && fin.sent == s.sent + ChunkSum(src, k + 1, n)
      && fin.events == s.events + StreamProgress(ctx, t, src, fileSent + |src.results[k].data|, s.sent, k + 1, n)
    ensures && st.frames <= fin.frames
      && var n := |fin.frames| - |st.frames|;
      && ChunksRead(src, k, n)
      && fin.frames == st.frames + ChunkPayloads(src, k, n)
      && fin.sent == st.sent + ChunkSum(src, k, n)
      && fin.events == st.events + StreamProgress(ctx, t, src, fileSent, st.sent, k, n)
  {
    var data := src.results[k].data;
    var s := AfterChunk(ctx, t, src, fileSent, data, st);
    var n := |fin.frames| - |st.frames|;
    assert s.frames == st.frames + [Payload(data)];
    ChunksStep(src, k, n);
    assert ChunkPayloads(src, k, n) == [Payload(data)] + ChunkPayloads(src, k + 1, n - 1);
    ChunkEvents(ctx, t, src, fileSent, k, n, st);
  }

  /** The events of one chunk, then those of the chunks after it. */
  lemma ChunkEvents(ctx: Ctx, t: string, src: FileSource, fileSent: nat, k: nat, n: nat, st: St)
    requires k < |src.results| && src.results[k].Chunk? && n > 0 && ChunksRead(src, k, n) && ChunksRead(src, k + 1, n - 1)
    ensures var d := |src.results[k].data|;
      AfterChunk(ctx, t, src, fileSent, src.results[k].data, st).events
        + StreamProgress(ctx, t, src, fileSent + d, st.sent + d, k + 1, n - 1)
      == st.events + StreamProgress(ctx, t, src, fileSent, st.sent, k, n)
  {
    var d := |src.results[k].data|;
    var s := AfterChunk(ctx, t, src, fileSent, src.results[k].data, st);
    var e := ProgressEvent(ctx.topic, ctx.host, Percent(st.sent + d, ctx.total), DEPLOYING, FileDeploying(t));
    var marked := src.length > LARGE_FILE && (fileSent + d) % (10 * ctx.cfg.bufferSize) == 0;
    assert s.events == st.events + (if marked then [e] else []);
    assert StreamProgress(ctx, t, src, fileSent, st.sent, k, n) ==
      (if marked then [e] else []) + StreamProgress(ctx, t, src, fileSent + d, st.sent + d, k + 1, n - 1);
  }

  lemma ChunksStep(src: FileSource, k: nat, n: nat)
    requires k < |src.results| && src.results[k].Chunk? && n > 0 && ChunksRead(src, k + 1, n - 1)
    ensures ChunksRead(src, k, n) && ChunkSum(src, k, n) == |src.results[k].data| + ChunkSum(src, k + 1, n - 1)
  {
    forall j | k <= j < k + n ensures src.results[j].Chunk? {
      if j > k {
        assert k + 1 <= j < k + 1 + (n - 1);
      }
    }
  }

  /** A job's success event reports the bytes on the wire at that moment: totalSendSize / total. */
  lemma TransferSuccessEvent(ctx: Ctx, job: DeployMetaEntity, st: St)
    requires Inv(ctx, st)
    ensures var r := Transfer(ctx, job, st);
      r.Go? ==>
        && |r.st.events| > 0
        && r.st.events[|r.st.events| - 1] ==
             ProgressEvent(ctx.topic, ctx.host, Percent(Bytes(r.st.frames), ctx.total), DEPLOYING_SUCCEED, FileSucceeded(job.targetPath))
  {
    TransferKeeps(ctx, job, st);
  }

  /** Nothing can throw while the file streams from read number k: no failing write, no read error. */
  predicate CleanStream(ctx: Ctx, src: FileSource, k: nat) {
    ctx.env.writeFault == NoFault && forall j :: k <= j < |src.results| ==> src.results[j].Chunk?
  }

  /**
    When nothing throws, streaming completes exactly when the reads cover the
    file's length, and otherwise stops at the -1 read with the read fault.
  */
  lemma {:induction false} StreamCompletes(ctx: Ctx, t: string, src: FileSource, fileSent: nat, k: nat, st: St)
    requires CleanStream(ctx, src, k)
    ensures var r := Stream(ctx, t, src, fileSent, k, st);
      && (r.Go? <==> fileSent + ChunkBytes(src.results, k) >= src.length)
      && (r.Stop? ==> r.outcome == ReadFault(t))
    decreases |src.results| - k
  {
    if fileSent < src.length && k < |src.results| {
      var data := src.results[k].data;
      var s' := st.(frames := st.frames + [Payload(data)], sent := st.sent + |data|);
      var s'' := if src.length > LARGE_FILE && (fileSent + |data|) % (10 * ctx.cfg.bufferSize) == 0
                 then Emit(ctx, s', DEPLOYING, FileDeploying(t)) else s';
      assert Stream(ctx, t, src, fileSent, k, st) == Stream(ctx, t, src, fileSent + |data|, k + 1, s'');
      StreamCompletes(ctx, t, src, fileSent + |data|, k + 1, s'');
    }
  }

  // ---------------------------------------------------------------------
  // One job and the job list
  // ---------------------------------------------------------------------

  /** An ending caused by one file: its path was announced and then something failed. */
  predicate FileFailure(o: Outcome) {
    o.PathAckTimeout? || o.ReadFault? || o.EndAckTimeout?
  }

  lemma TransferKeeps(ctx: Ctx, job: DeployMetaEntity, st: St)
    requires Inv(ctx, st)
    ensures Inv(ctx, Transfer(ctx, job, st).st) && Grows(st, Transfer(ctx, job, st).st)
  {
    if job.file.localPath in ctx.env.files {
      var src := ctx.env.files[job.file.localPath];
      StreamKeeps(ctx, job.targetPath, src, 0, 0, st);
      var b := Stream(ctx, job.targetPath, src, 0, 0, st);
      if b.Go? {
        EndAckKeeps(ctx, job.targetPath, b.st);
        var c := EndAck(ctx, job.targetPath, b.st);
        if c.Go? {
          EmitKeeps(ctx, c.st, DEPLOYING_SUCCEED, FileSucceeded(job.targetPath));
        }
      }
    }
  }

  /**
    Once its path is acknowledged, a job either completes, reporting its
    success once, or stops with nothing more announced and no success.
  */
  lemma TransferViews(ctx: Ctx, job: DeployMetaEntity, st: St)
    ensures var r := Transfer(ctx, job, st);
      && Targets(r.st.frames) == Targets(st.frames)
      && (r.Go? ==> Succeeded(r.st.events) == Succeeded(st.events) + [job.targetPath])
      && (r.Stop? ==> Succeeded(r.st.events) == Succeeded(st.events)
                      && (r.outcome == ReadFault(job.targetPath) || r.outcome == EndAckTimeout(job.targetPath)
                          || r.outcome == Pending || r.outcome.Interrupted?))
  {
    if job.file.localPath in ctx.env.files {
      var src := ctx.env.files[job.file.localPath];
      StreamViews(ctx, job.targetPath, src, 0, 0, st);
      var b := Stream(ctx, job.targetPath, src, 0, 0, st);
      if b.Go? {
        EndAckViews(ctx, job.targetPath, b.st);
        var c := EndAck(ctx, job.targetPath, b.st);
        if c.Go? {
          EventSnoc(c.st.events, EventNow(ctx, c.st, DEPLOYING_SUCCEED, FileSucceeded(job.targetPath)));
        }
      }
    }
  }

  /** One job keeps the session invariant. */
  lemma JobKeeps(ctx: Ctx, i: nat, job: DeployMetaEntity, st: St)
    requires Inv(ctx, st)
    ensures Inv(ctx, Job(ctx, i, job, st).st) && Grows(st, Job(ctx, i, job, st).st)
  {
    if ctx.env.online(i, job.device.hostAddress) {
      SendKeeps(ctx, st, Marker(FILE_RECV_START));
      if !WriteFails(ctx, st) {
        var s1 := st.(frames := st.frames + [Marker(FILE_RECV_START)]);
        SendKeeps(ctx, s1, PathField(job.targetPath, PATH_FIELD_WIDTH));
        if !WriteFails(ctx, s1) {
          var s2 := s1.(frames := s1.frames + [PathField(job.targetPath, PATH_FIELD_WIDTH)]);
          PathAckSpec(ctx, job.targetPath, s2);
          var a := PathAck(ctx, job.targetPath, s2);
          if a.Go? {
            TransferKeeps(ctx, job, a.st);
          }
        }
      }
    }
  }

  /**
    One job: the online check comes first and, when the host is offline,
    nothing at all is written; a job that completes announces its path once
    and reports its success once; a job that fails on its file has announced
    its path and reports no success.
  */
  lemma JobSpec(ctx: Ctx, i: nat, job: DeployMetaEntity, st: St)
    ensures var r := Job(ctx, i, job, st);
      && (!ctx.env.online(i, job.device.hostAddress) <==> r.Stop? && r.outcome.Offline?)
      && (r.Stop? && r.outcome.Offline? ==> r.st == st && r.outcome == Offline(job.device.hostAddress))
      && (r.Go? ==> Targets(r.st.frames) == Targets(st.frames) + [job.targetPath]
                    && Succeeded(r.st.events) == Succeeded(st.events) + [job.targetPath])
      && (r.Stop? ==> Succeeded(r.st.events) == Succeeded(st.events)
                      && (Targets(r.st.frames) == Targets(st.frames) || Targets(r.st.frames) == Targets(st.frames) + [job.targetPath]))
      && (r.Stop? && FileFailure(r.outcome) ==>
            Targets(r.st.frames) == Targets(st.frames) + [job.targetPath] && r.outcome.target == job.targetPath)
  {
    if ctx.env.online(i, job.device.hostAddress) {
      SendViews(ctx, st, Marker(FILE_RECV_START));
      if !WriteFails(ctx, st) {
        var s1 := st.(frames := st.frames + [Marker(FILE_RECV_START)]);
        SendViews(ctx, s1, PathField(job.targetPath, PATH_FIELD_WIDTH));
        if !WriteFails(ctx, s1) {
          var s2 := s1.(frames := s1.frames + [PathField(job.targetPath, PATH_FIELD_WIDTH)]);
          PathAckViews(ctx, job.targetPath, s2);
          var a := PathAck(ctx, job.targetPath, s2);
          if a.Go? {
            TransferViews(ctx, job, a.st);
          }
        }
      }
    }
  }

  /** The job list keeps the session invariant. */
  lemma {:induction false} JobsKeeps(ctx: Ctx, jobs: seq<DeployMetaEntity>, i: nat, st: St)
    requires Inv(ctx, st)
    ensures Inv(ctx, JobsFrom(ctx, jobs, i, st).st)
    decreases |jobs| - i
  {
    if i >= |jobs| {
      SendKeeps(ctx, st, Marker(DEPLOY_END));
    } else {
      JobKeeps(ctx, i, jobs[i], st);
      var j := Job(ctx, i, jobs[i], st);
      if j.Go? {
        JobsKeeps(ctx, jobs, i + 1, j.st);
      }
    }
  }

  /**
    A stopped session ran the job list in order: the files reported
    successful are the first m targets of the list and the announced paths
    are those m, or m + 1 when job m failed after its path went out. An
    offline host stops before job m writes anything; a failure on a file
    names job m's target; a finished session has announced and completed
    every job and wrote "DeployEnd" last.
  */
  predicate InOrder(ctx: Ctx, jobs: seq<DeployMetaEntity>, r: Res) {
    var m := |Succeeded(r.st.events)|;
    && r.Stop?
    && m <= |jobs| && Succeeded(r.st.events) == TargetPaths(jobs[..m])
    && (Targets(r.st.frames) == TargetPaths(jobs[..m]) || (m < |jobs| && Targets(r.st.frames) == TargetPaths(jobs[..m + 1])))
    && (r.outcome.Offline? ==>
          && m < |jobs| && Targets(r.st.frames) == TargetPaths(jobs[..m])
          && r.outcome == Offline(jobs[m].device.hostAddress) && !ctx.env.online(m, jobs[m].device.hostAddress))
    && (FileFailure(r.outcome) ==>
          m < |jobs| && Targets(r.st.frames) == TargetPaths(jobs[..m + 1]) && r.outcome.target == jobs[m].targetPath)
    && (r.outcome == Finished ==>
          && m == |jobs| && Targets(r.st.frames) == TargetPaths(jobs)
          && |r.st.frames| > 0 && r.st.frames[|r.st.frames| - 1] == Marker(DEPLOY_END))
  }

  /** After the last job: "DeployEnd" goes out, or its write throws. */
  lemma JobsEnd(ctx: Ctx, jobs: seq<DeployMetaEntity>, st: St)
    requires Succeeded(st.events) == TargetPaths(jobs) && Targets(st.frames) == TargetPaths(jobs)
    ensures InOrder(ctx, jobs, JobsFrom(ctx, jobs, |jobs|, st))
  {
    assert jobs[..|jobs|] == jobs;
    SendViews(ctx, st, Marker(DEPLOY_END));
  }

  /** Job i stopping the session leaves it in order, with i successes. */
  lemma JobStops(ctx: Ctx, jobs: seq<DeployMetaEntity>, i: nat, st: St)
    requires i < |jobs|
    requires Succeeded(st.events) == TargetPaths(jobs[..i]) && Targets(st.frames) == TargetPaths(jobs[..i])
    requires Job(ctx, i, jobs[i], st).Stop?
    ensures InOrder(ctx, jobs, Job(ctx, i, jobs[i], st)) && |Succeeded(Job(ctx, i, jobs[i], st).st.events)| == i
  {
    JobSpec(ctx, i, jobs[i], st);
    TargetPathsSnoc(jobs, i);
    var j := Job(ctx, i, jobs[i], st);
    assert |Succeeded(j.st.events)| == i;
  }

  /** The job list, from job i on, runs in order. */
  lemma {:induction false} JobsSpec(ctx: Ctx, jobs: seq<DeployMetaEntity>, i: nat, st: St)
    requires i <= |jobs|
    requires Succeeded(st.events) == TargetPaths(jobs[..i]) && Targets(st.frames) == TargetPaths(jobs[..i])
    ensures var r := JobsFrom(ctx, jobs, i, st);
      i <= |Succeeded(r.st.events)| && InOrder(ctx, jobs, r)
    decreases |jobs| - i
  {
    if i >= |jobs| {
      assert jobs[..i] == jobs;
      JobsEnd(ctx, jobs, st);
    } else {
      var j := Job(ctx, i, jobs[i], st);
      if j.Go? {
        JobSpec(ctx, i, jobs[i], st);
        TargetPathsSnoc(jobs, i);
        assert JobsFrom(ctx, jobs, i, st) == JobsFrom(ctx, jobs, i + 1, j.st);
        JobsSpec(ctx, jobs, i + 1, j.st);
      } else {
        assert JobsFrom(ctx, jobs, i, st) == j;
        JobStops(ctx, jobs, i, st);
      }
    }
  }

  // ---------------------------------------------------------------------
  // One call of deployMeta
  // ---------------------------------------------------------------------

  predicate Failed(o: Outcome) {
    o != Finished && o != Pending
  }

  lemma SessionKeeps(ctx: Ctx, jobs: seq<DeployMetaEntity>)
    ensures Inv(ctx, Session(ctx, jobs).st)
  {
    if ctx.env.connectError.None? {
      JobsKeeps(ctx, jobs, 0, Start);
    }
  }

  /** The whole session runs the job list in order. */
  lemma SessionSpec(ctx: Ctx, jobs: seq<DeployMetaEntity>)
    ensures InOrder(ctx, jobs, Session(ctx, jobs))
  {
    assert jobs[..0] == [];
    if ctx.env.connectError.None? {
      JobsSpec(ctx, jobs, 0, Start);
    }
  }

  /**
    Admission reject: when the host is already deploying, the call emits one
    DEPLOYING_ERROR event and saves one failed log with 0 bytes, writes no
    frame (opens no socket) and leaves the lock map as it was.
  */
  lemma AdmissionReject(cfg: Config, env: Env, design: DeploymentDesign, device: Device,
                        jobs: seq<DeployMetaEntity>, deploying: map<string, Device>)
    requires device.hostAddress in deploying
    ensures var r := Deploy(cfg, env, design, device, jobs, deploying); var total := 1 + SumSizes(jobs);
      && r.outcome == AlreadyDeploying && r.frames == [] && r.deploying == deploying && r.sent == 0
      && r.events == [ProgressEvent(PROGRESS_TOPIC + design.id, device.hostAddress, Percent(0, total),
                                    DEPLOYING_ERROR, DeviceIsDeploying(device.hostAddress))]
      && r.logs == [DeployLog(design.project, total, false, LogDeviceDeploying(device.hostAddress), 0)]
  {
  }

  /**
    The lock never leaks: an admitted host is removed again at every ending,
    so the map after the call is the map before it; only a session that is
    still waiting (Pending) holds the host, and no other key is touched.
  */
  lemma LockReleased(cfg: Config, env: Env, design: DeploymentDesign, device: Device,
                     jobs: seq<DeployMetaEntity>, deploying: map<string, Device>)
    requires device.hostAddress !in deploying
    ensures var r := Deploy(cfg, env, design, device, jobs, deploying);
      && r.outcome != AlreadyDeploying
      && (r.outcome != Pending ==> r.deploying == deploying)
      && (r.outcome == Pending ==> r.deploying == deploying[device.hostAddress := device])
      && (forall h :: h != device.hostAddress ==> (h in r.deploying <==> h in deploying))
  {
    var host := device.hostAddress;
    assert deploying[host := device] - {host} == deploying;
  }

  /**
    Every ending saves exactly one log record, carrying the bytes sent so far
    and the total of the recorded sizes plus one; it says success exactly when
    all jobs were done. A session still waiting has saved none yet.
  */
  lemma OneLog(cfg: Config, env: Env, design: DeploymentDesign, device: Device,
               jobs: seq<DeployMetaEntity>, deploying: map<string, Device>)
    ensures var r := Deploy(cfg, env, design, device, jobs, deploying);
      && |r.logs| == (if r.outcome == Pending then 0 else 1)
      && forall l :: l in r.logs ==>
           && l.sent == r.sent && l.totalFileSize == 1 + SumSizes(jobs) && l.project == design.project
           && (l.success <==> r.outcome == Finished)
  {
  }

  /** The payload bytes on the wire are exactly totalSendSize, the bytes the log records. */
  lemma DeployBytes(cfg: Config, env: Env, design: DeploymentDesign, device: Device,
                    jobs: seq<DeployMetaEntity>, deploying: map<string, Device>)
    ensures var r := Deploy(cfg, env, design, device, jobs, deploying);
      Bytes(r.frames) == r.sent
  {
    var ctx := ContextOf(cfg, env, design, device, jobs);
    if device.hostAddress !in deploying {
      SessionKeeps(ctx, jobs);
    }
  }

  /**
    What goes out on the wire: the paths
    announced and the successes reported follow the job list; a finished
    call announced every job in order and ended with "DeployEnd"; an offline
    host stopped the call before the next job wrote anything.
  */
  lemma DeployOrder(cfg: Config, env: Env, design: DeploymentDesign, device: Device,
                    jobs: seq<DeployMetaEntity>, deploying: map<string, Device>)
    ensures var r := Deploy(cfg, env, design, device, jobs, deploying); var m := |Succeeded(r.events)|;
      && m <= |jobs| && Succeeded(r.events) == TargetPaths(jobs[..m])
      && (Targets(r.frames) == TargetPaths(jobs[..m]) || (m < |jobs| && Targets(r.frames) == TargetPaths(jobs[..m + 1])))
      && (r.outcome.Offline? ==> m < |jobs| && Targets(r.frames) == TargetPaths(jobs[..m])
                                 && r.outcome == Offline(jobs[m].device.hostAddress))
      && (FileFailure(r.outcome) ==> m < |jobs| && Targets(r.frames) == TargetPaths(jobs[..m + 1])
                                     && r.outcome.target == jobs[m].targetPath)
      && (r.outcome == Finished ==> Succeeded(r.events) == TargetPaths(jobs) && Targets(r.frames) == TargetPaths(jobs)
                                    && |r.frames| > 0 && r.frames[|r.frames| - 1] == Marker(DEPLOY_END))
  {
    var ctx := ContextOf(cfg, env, design, device, jobs);
    assert jobs[..0] == [];
    assert jobs[..|jobs|] == jobs;
    if device.hostAddress in deploying {
      DeployRejectWire(cfg, env, design, device, jobs, deploying);
    } else {
      SessionSpec(ctx, jobs);
      DeployAdmittedWire(cfg, env, design, device, jobs, deploying);
    }
  }

  /** A rejected call writes nothing and reports no success. */
  lemma DeployRejectWire(cfg: Config, env: Env, design: DeploymentDesign, device: Device,
                         jobs: seq<DeployMetaEntity>, deploying: map<string, Device>)
    requires device.hostAddress in deploying
    ensures var r := Deploy(cfg, env, design, device, jobs, deploying);
      r.frames == [] && Succeeded(r.events) == [] && r.outcome == AlreadyDeploying
  {
    var ctx := ContextOf(cfg, env, design, device, jobs);
    EventSnoc([], ExitEvent(ctx, Start, AlreadyDeploying));
  }

  /** An admitted call has the session's frames, successes and outcome: the closing event is no success. */
  lemma DeployAdmittedWire(cfg: Config, env: Env, design: DeploymentDesign, device: Device,
                           jobs: seq<DeployMetaEntity>, deploying: map<string, Device>)
    requires device.hostAddress !in deploying
    ensures var r := Deploy(cfg, env, design, device, jobs, deploying);
      var s := Session(ContextOf(cfg, env, design, device, jobs), jobs);
      r.frames == s.st.frames && Succeeded(r.events) == Succeeded(s.st.events) && r.outcome == s.outcome
  {
    var ctx := ContextOf(cfg, env, design, device, jobs);
    var s := Session(ctx, jobs);
    if s.outcome != Pending {
      EventSnoc(s.st.events, ExitEvent(ctx, s.st, s.outcome));
    }
  }

  /**
    The progress reported: every event but DEPLOY_FINISHED reports
    totalSendSize / total with total = 1 + the recorded sizes, never going
    back; DEPLOY_FINISHED comes only last, only after all jobs, at exactly
    100; an error is reported only by the last event, and every failed call
    ends with one.
  */
  lemma DeployProgress(cfg: Config, env: Env, design: DeploymentDesign, device: Device,
                       jobs: seq<DeployMetaEntity>, deploying: map<string, Device>)
    ensures var r := Deploy(cfg, env, design, device, jobs, deploying); var es := r.events; var total := 1 + SumSizes(jobs);
      && (forall k :: 0 <= k < |es| && es[k].status != DEPLOY_FINISHED ==>
            es[k].progress.den == total && 0 <= es[k].progress.num <= r.sent)
      && (forall j, k :: 0 <= j < k < |es| && es[k].status != DEPLOY_FINISHED ==>
            es[j].progress.num <= es[k].progress.num)
      && (forall k :: 0 <= k < |es| && es[k].status == DEPLOY_FINISHED ==>
            k == |es| - 1 && r.outcome == Finished && es[k].progress == Percent(1, 1))
      && (r.outcome == Finished ==> |es| > 0 && es[|es| - 1].status == DEPLOY_FINISHED)
      && (forall k :: 0 <= k < |es| && es[k].status == DEPLOYING_ERROR ==> k == |es| - 1 && Failed(r.outcome))
      && (Failed(r.outcome) ==> |es| > 0 && es[|es| - 1].status == DEPLOYING_ERROR)
  {
    var ctx := ContextOf(cfg, env, design, device, jobs);
    if device.hostAddress !in deploying {
      SessionKeeps(ctx, jobs);
    }
  }

  /** The error event that ends a failed call reports the bytes sent when it stopped: totalSendSize / total. */
  lemma ErrorProgress(cfg: Config, env: Env, design: DeploymentDesign, device: Device,
                      jobs: seq<DeployMetaEntity>, deploying: map<string, Device>)
    ensures var r := Deploy(cfg, env, design, device, jobs, deploying); var es := r.events;
      Failed(r.outcome) ==>
        && |es| > 0 && es[|es| - 1].status == DEPLOYING_ERROR
        && es[|es| - 1].progress == Percent(r.sent, 1 + SumSizes(jobs))
        && es[|es| - 1].topic == PROGRESS_TOPIC + design.id && es[|es| - 1].host == device.hostAddress
  {
  }

  /**
    So while the bytes sent stay within the recorded sizes, every event
    before DEPLOY_FINISHED reports less than 100 percent.
  */
  lemma ProgressBelowHundred(cfg: Config, env: Env, design: DeploymentDesign, device: Device,
                             jobs: seq<DeployMetaEntity>, deploying: map<string, Device>)
    requires Deploy(cfg, env, design, device, jobs, deploying).sent <= SumSizes(jobs)
    ensures var es := Deploy(cfg, env, design, device, jobs, deploying).events;
      forall k :: 0 <= k < |es| && es[k].status != DEPLOY_FINISHED ==> es[k].progress.num < es[k].progress.den
  {
    DeployProgress(cfg, env, design, device, jobs, deploying);
  }
}
