/**
  The deployment transfer engine of DeployMetaService: the transfer-job
  builder, the total-size accumulator, the per-device admission guard and the
  framed file-transfer session.

  The session's environment (socket reads, the clock, the files, the list of
  online hosts) is an input value `Env`; its effects (frames written to the
  socket, progress events, log records) are output sequences.
*/
module DeployMeta {
  import opened Wrappers

  type byte = b: int | 0 <= b < 256
  type Positive = n: int | n > 0 witness 1

  // Status codes of a progress event
  const DEPLOYING_ERROR: int := 0
  const DEPLOYING_SUCCEED: int := 1
  const DEPLOY_FINISHED: int := 2
  const DEPLOYING: int := 3

  // Protocol constants
  const PATH_ACK: int := 114          // 'r'
  const END_ACK: int := 102           // 'f'
  const PATH_FIELD_WIDTH: nat := 255
  const FILE_RECV_START: string := "fileRecvStart"
  const FILE_RECV_END: string := "fileRecvEnd"
  const DEPLOY_END: string := "DeployEnd"
  const ONE_MB: nat := 1048576
  /** Files larger than this report IN_PROGRESS events while they stream. */
  const LARGE_FILE: nat := 10 * ONE_MB
  const PROGRESS_TOPIC: string := "/deployProgress/"

  /** The configuration the session reads: the reply timeout and the read buffer size. */
  datatype Config = Config(replyTimeout: int, bufferSize: Positive)

  // ---------------------------------------------------------------------
  // Entities
  // ---------------------------------------------------------------------

  datatype Device = Device(hostAddress: string, deployPath: string)

  /** A stored file: where its content lives on the server and its recorded size. */
  datatype FileEntity = FileEntity(localPath: string, size: nat)

  /**
    A file or folder of a component tree or of a component snapshot, as the
    file store lists it. `treePath` is the node's path inside its tree, the
    value the relative-path helper computes by walking the parent links.
  */
  datatype FileNode = FileNode(isFolder: bool, treePath: string, file: FileEntity)

  /** A component or a component snapshot: its mount path and its files in store order. */
  datatype Mount = Mount(relativePath: string, files: seq<FileNode>)

  /** One line of a deployment design: which device receives which component. */
  datatype DeploymentDesignDetail = DeploymentDesignDetail(
    device: Device, keepLatest: bool, component: Mount, componentHistory: Mount)

  datatype DeploymentDesign = DeploymentDesign(id: string, project: string)

  /** A transfer job: one file, the device it goes to and its path there. */
  datatype DeployMetaEntity = DeployMetaEntity(device: Device, targetPath: string, file: FileEntity)

  // ---------------------------------------------------------------------
  // Transfer-job builder
  // ---------------------------------------------------------------------

  /** The files a detail deploys: the component's own when `keepLatest`, else the snapshot's. */
  function SourceOf(d: DeploymentDesignDetail): Mount {
    if d.keepLatest then d.component else d.componentHistory
  }

  /** The job for one file of a detail; `formatPath` normalises the joined path. */
  function MetaFor(d: DeploymentDesignDetail, formatPath: string -> string, f: FileNode): DeployMetaEntity {
    DeployMetaEntity(d.device, formatPath(d.device.deployPath + SourceOf(d).relativePath + f.treePath), f.file)
  }

  /** The jobs for a list of files of one detail: folders are skipped. */
  function DetailMetas(d: DeploymentDesignDetail, formatPath: string -> string, files: seq<FileNode>): seq<DeployMetaEntity>
  {
    if files == [] then []
    else
      var last := files[|files| - 1];
      DetailMetas(d, formatPath, files[..|files| - 1]) + (if last.isFolder then [] else [MetaFor(d, formatPath, last)])
  }

  /** The jobs for a list of details, detail after detail. */
  function AllMetas(details: seq<DeploymentDesignDetail>, formatPath: string -> string): seq<DeployMetaEntity>
  {
    if details == [] then []
    else
      var last := details[|details| - 1];
      AllMetas(details[..|details| - 1], formatPath) + DetailMetas(last, formatPath, SourceOf(last).files)
  }

  /** createDeployMeta: a list built by appending in two nested loops. */
  method CreateDeployMeta(details: seq<DeploymentDesignDetail>, formatPath: string -> string)
    returns (list: seq<DeployMetaEntity>)
    ensures list == AllMetas(details, formatPath)
  {
    list := [];
    for i := 0 to |details|
      invariant list == AllMetas(details[..i], formatPath)
    {
      var d := details[i];
      var files := SourceOf(d).files;
      ghost var before := list;
      for j := 0 to |files|
        invariant list == before + DetailMetas(d, formatPath, files[..j])
      {
        if !files[j].isFolder {
          list := list + [MetaFor(d, formatPath, files[j])];
        }
        assert files[..j + 1][..j] == files[..j];
      }
      assert files[..|files|] == files;
      assert details[..i + 1][..i] == details[..i];
    }
    assert details[..|details|] == details;
  }

  // ---------------------------------------------------------------------
  // Total-size accumulator
  // ---------------------------------------------------------------------

  /** The sum of the recorded sizes of the jobs' files. */
  function SumSizes(metas: seq<DeployMetaEntity>): nat {
    if metas == [] then 0 else SumSizes(metas[..|metas| - 1]) + metas[|metas| - 1].file.size
  }

  /** getTotalFileSize: starts at 1 so that the progress ratio never divides by zero. */
  method GetTotalFileSize(metas: seq<DeployMetaEntity>) returns (total: int)
    ensures total == 1 + SumSizes(metas)
    ensures total >= 1
  {
    total := 1;
    for i := 0 to |metas|
      invariant total == 1 + SumSizes(metas[..i])
    {
      total := total + metas[i].file.size;
      assert metas[..i + 1][..i] == metas[..i];
    }
    assert metas[..|metas|] == metas;
  }

  // ---------------------------------------------------------------------
  // The session's environment and outputs
  // ---------------------------------------------------------------------

  /**
    The outcome of one one-byte read of the socket: a value (a byte, or -1 at
    end of stream), or an exception (the 500 ms read timeout or another I/O
    error). `elapsed` is the clock reading at that moment minus the reading
    taken when the wait began.
  */
  datatype Poll = Got(value: int) | TimedOut(elapsed: int)

  /** The outcome of one read of a source file; a file whose reads are used up reads -1. */
  datatype FileRead = Chunk(data: seq<byte>) | ReadError(message: string)

  /** A source file: the length the file system reports and what its reads return (`results`), in order. */
  datatype FileSource = FileSource(length: nat, results: seq<FileRead>)

  /** Whether a write to the socket throws: the write of frame number `frame` (from 0) fails. */
  datatype WriteFault = NoFault | FailsAt(frame: nat, message: string)

  datatype Env = Env(
    connectError: Option<string>,       // the socket cannot be opened
    writeFault: WriteFault,
    online: (nat, string) -> bool,      // is the host online at the check before job i
    polls: seq<Poll>,                   // the socket reads, in order, across all waits
    files: map<string, FileSource>)     // source files by local path; absent = cannot be opened

  /** A frame written to the socket. */
  datatype Frame = Marker(text: string) | PathField(path: string, width: nat) | Payload(data: seq<byte>)

  /** A progress value: `100 * num / den` percent. */
  datatype Percent = Percent(num: int, den: int)

  datatype IoError = IoFailure(message: string) | FileNotFound(localPath: string)

  /** The text of a progress event, by kind. */
  datatype EventMessage =
    | DeviceIsDeploying(host: string)
    | DeviceIsOffline(host: string)
    | FileFailed(target: string)
    | FileDeploying(target: string)
    | FileSucceeded(target: string)
    | DeployFinished
    | IoErrorText(error: IoError)

  datatype ProgressEvent = ProgressEvent(topic: string, host: string, progress: Percent, status: int, message: EventMessage)

  /** The text of a log record, by kind. */
  datatype LogMessage =
    | LogDeviceDeploying(host: string)
    | LogDeviceOffline(host: string)
    | PathReplyTimeout(host: string, target: string, progress: Percent)
    | FileReadFailed(host: string, target: string, progress: Percent)
    | EndReplyTimeout(host: string, target: string, progress: Percent)
    | DeploySucceeded
    | DeployInterrupted

  datatype DeployLog = DeployLog(project: string, totalFileSize: int, success: bool, message: LogMessage, sent: int)

  /** How a session ended; `Pending` means the reads ran out while it was still waiting. */
  datatype Outcome =
    | AlreadyDeploying
    | Offline(jobHost: string)
    | PathAckTimeout(target: string)
    | ReadFault(target: string)
    | EndAckTimeout(target: string)
    | Interrupted(error: IoError)
    | Finished
    | Pending

  /** The session's local state: frames written, events emitted, totalSendSize, reads consumed. */
  datatype St = St(frames: seq<Frame>, events: seq<ProgressEvent>, sent: nat, pos: nat)

  /** A step either goes on or stops the session with an outcome. */
  datatype Res = Go(st: St) | Stop(st: St, outcome: Outcome) {
    predicate IsFailure() {
      Stop?
    }

    function PropagateFailure(): Res
      requires Stop?
    {
      this
    }

    function Extract(): St
      requires Go?
    {
      st
    }
  }

  /** What stays fixed during one session. */
  datatype Ctx = Ctx(cfg: Config, env: Env, topic: string, host: string, total: int)

  const Start: St := St([], [], 0, 0)

  /** The progress event the session reports now, with progress `sent / total`. */
  function EventNow(ctx: Ctx, st: St, status: int, message: EventMessage): ProgressEvent {
    ProgressEvent(ctx.topic, ctx.host, Percent(st.sent, ctx.total), status, message)
  }

  function Emit(ctx: Ctx, st: St, status: int, message: EventMessage): St {
    st.(events := st.events + [EventNow(ctx, st, status, message)])
  }

  /** True when the write of the next frame throws. */
  predicate WriteFails(ctx: Ctx, st: St) {
    ctx.env.writeFault.FailsAt? && ctx.env.writeFault.frame == |st.frames|
  }

  /** Writing one frame; a failing write ends the session as interrupted. */
  function Send(ctx: Ctx, st: St, f: Frame): (r: Res)
    ensures r.st.pos == st.pos && r.st.sent == st.sent && r.st.events == st.events
  {
    if WriteFails(ctx, st) then Stop(st, Interrupted(IoFailure(ctx.env.writeFault.message)))
    else Go(st.(frames := st.frames + [f]))
  }

  // ---------------------------------------------------------------------
  // The protocol, as functions
  // ---------------------------------------------------------------------

  /** The endings a single job can run into: neither the admission reject nor the end of all jobs. */
  predicate MidSession(o: Outcome) {
    o != AlreadyDeploying && o != Finished
  }

  /** Waiting for 'r': only that byte goes on; the deadline is looked at only after a timed-out read. */
  function PathAck(ctx: Ctx, target: string, st: St): (r: Res)
    ensures r.Stop? ==> MidSession(r.outcome)
    decreases |ctx.env.polls| - st.pos
  {
    if st.pos >= |ctx.env.polls| then Stop(st, Pending)
    else
      var next := st.(pos := st.pos + 1);
      match ctx.env.polls[st.pos]
      case Got(b) => if b == PATH_ACK then Go(next) else PathAck(ctx, target, next)
      case TimedOut(e) =>
        if e >= ctx.cfg.replyTimeout then Stop(next, PathAckTimeout(target)) else PathAck(ctx, target, next)
  }

  /** Streaming one file from read number `k` on, `fileSent` bytes of it already sent. */
  function Stream(ctx: Ctx, target: string, src: FileSource, fileSent: nat, k: nat, st: St): (r: Res)
    ensures r.Stop? ==> MidSession(r.outcome)
    decreases |src.results| - k
  {
    if fileSent >= src.length then Go(st)
    else if k >= |src.results| then Stop(st, ReadFault(target))
    else
      match src.results[k]
      case ReadError(m) => Stop(st, Interrupted(IoFailure(m)))
      case Chunk(data) =>
        var fileSent' := fileSent + |data|;
        var s :- Send(ctx, st, Payload(data));
        var s' := s.(sent := s.sent + |data|);
        var s'' := if src.length > LARGE_FILE && fileSent' % (10 * ctx.cfg.bufferSize) == 0
                   then Emit(ctx, s', DEPLOYING, FileDeploying(target)) else s';
        Stream(ctx, target, src, fileSent', k + 1, s'')
  }

  /** Waiting for 'f': every timed-out read first re-sends "fileRecvEnd", then looks at the deadline. */
  function EndAck(ctx: Ctx, target: string, st: St): (r: Res)
    ensures r.Stop? ==> MidSession(r.outcome)
    decreases |ctx.env.polls| - st.pos
  {
    if st.pos >= |ctx.env.polls| then Stop(st, Pending)
    else
      var next := st.(pos := st.pos + 1);
      match ctx.env.polls[st.pos]
      case Got(b) => if b == END_ACK then Go(next) else EndAck(ctx, target, next)
      case TimedOut(e) =>
        var s :- Send(ctx, next, Marker(FILE_RECV_END));
        if e >= ctx.cfg.replyTimeout then Stop(s, EndAckTimeout(target)) else EndAck(ctx, target, s)
  }

  /** One transfer job, number `i` of the list. */
  function Job(ctx: Ctx, i: nat, job: DeployMetaEntity, st: St): (r: Res)
    ensures r.Stop? ==> MidSession(r.outcome)
  {
    if !ctx.env.online(i, job.device.hostAddress) then Stop(st, Offline(job.device.hostAddress))
    else
      var s1 :- Send(ctx, st, Marker(FILE_RECV_START));
      var s2 :- Send(ctx, s1, PathField(job.targetPath, PATH_FIELD_WIDTH));
      var s3 :- PathAck(ctx, job.targetPath, s2);
      Transfer(ctx, job, s3)
  }

  /** The rest of a job once its path was acknowledged: open the file, stream it, wait for 'f'. */
  function Transfer(ctx: Ctx, job: DeployMetaEntity, st: St): (r: Res)
    ensures r.Stop? ==> MidSession(r.outcome)
  {
    if job.file.localPath !in ctx.env.files then Stop(st, Interrupted(FileNotFound(job.file.localPath)))
    else
      var s4 :- Stream(ctx, job.targetPath, ctx.env.files[job.file.localPath], 0, 0, st);
      var s5 :- EndAck(ctx, job.targetPath, s4);
      Go(Emit(ctx, s5, DEPLOYING_SUCCEED, FileSucceeded(job.targetPath)))
  }

  /** The jobs from number `i` on, then "DeployEnd"; always stops. */
  function JobsFrom(ctx: Ctx, jobs: seq<DeployMetaEntity>, i: nat, st: St): (r: Res)
    ensures r.Stop? && r.outcome != AlreadyDeploying
    decreases |jobs| - i
  {
    if i >= |jobs| then
      var s :- Send(ctx, st, Marker(DEPLOY_END));
      Stop(s, Finished)
    else
      var s :- Job(ctx, i, jobs[i], st);
      JobsFrom(ctx, jobs, i + 1, s)
  }

  /** The part of the session inside `try`: connect, then run the jobs. */
  function Session(ctx: Ctx, jobs: seq<DeployMetaEntity>): (r: Res)
    ensures r.Stop? && r.outcome != AlreadyDeploying
  {
    if ctx.env.connectError.Some? then Stop(Start, Interrupted(IoFailure(ctx.env.connectError.value)))
    else JobsFrom(ctx, jobs, 0, Start)
  }

  /** The one event each ending of the session emits. */
  function ExitEvent(ctx: Ctx, st: St, o: Outcome): ProgressEvent
    requires o != Pending
  {
    match o
    case AlreadyDeploying => EventNow(ctx, st, DEPLOYING_ERROR, DeviceIsDeploying(ctx.host))
    case Offline(h) => EventNow(ctx, st, DEPLOYING_ERROR, DeviceIsOffline(h))
    case PathAckTimeout(t) => EventNow(ctx, st, DEPLOYING_ERROR, FileFailed(t))
    case ReadFault(t) => EventNow(ctx, st, DEPLOYING_ERROR, FileFailed(t))
    case EndAckTimeout(t) => EventNow(ctx, st, DEPLOYING_ERROR, FileFailed(t))
    case Interrupted(e) => EventNow(ctx, st, DEPLOYING_ERROR, IoErrorText(e))
    case Finished => ProgressEvent(ctx.topic, ctx.host, Percent(1, 1), DEPLOY_FINISHED, DeployFinished)
  }

  /** The one log record each ending of the session saves. */
  function ExitLog(project: string, ctx: Ctx, st: St, o: Outcome): DeployLog
    requires o != Pending
  {
    var p := Percent(st.sent, ctx.total);
    var m := match o
      case AlreadyDeploying => LogDeviceDeploying(ctx.host)
      case Offline(h) => LogDeviceOffline(h)
      case PathAckTimeout(t) => PathReplyTimeout(ctx.host, t, p)
      case ReadFault(t) => FileReadFailed(ctx.host, t, p)
      case EndAckTimeout(t) => EndReplyTimeout(ctx.host, t, p)
      case Interrupted(_) => DeployInterrupted
      case Finished => DeploySucceeded;
    DeployLog(project, ctx.total, o == Finished, m, st.sent)
  }

  /** Everything one call of deployMeta produces. */
  datatype Report = Report(
    frames: seq<Frame>, events: seq<ProgressEvent>, logs: seq<DeployLog>,
    deploying: map<string, Device>, outcome: Outcome, sent: nat)

  function ContextOf(cfg: Config, env: Env, design: DeploymentDesign, device: Device, jobs: seq<DeployMetaEntity>): Ctx {
    Ctx(cfg, env, PROGRESS_TOPIC + design.id, device.hostAddress, 1 + SumSizes(jobs))
  }

  /**
    deployMeta as a function of the lock map before the call: a host already
    deploying is turned away; otherwise the host is locked, the session runs,
    and the lock is released at every ending (the session is still running,
    and still holds the lock, when it is Pending).
  */
  function Deploy(cfg: Config, env: Env, design: DeploymentDesign, device: Device,
                  jobs: seq<DeployMetaEntity>, deploying: map<string, Device>): Report
  {
    var ctx := ContextOf(cfg, env, design, device, jobs);
    var host := device.hostAddress;
    if host in deploying then
      Report([], [ExitEvent(ctx, Start, AlreadyDeploying)], [ExitLog(design.project, ctx, Start, AlreadyDeploying)],
             deploying, AlreadyDeploying, 0)
    else
      var r := Session(ctx, jobs);
      if r.outcome == Pending then
        Report(r.st.frames, r.st.events, [], deploying[host := device], Pending, r.st.sent)
      else
        Report(r.st.frames, r.st.events + [ExitEvent(ctx, r.st, r.outcome)],
               [ExitLog(design.project, ctx, r.st, r.outcome)],
               deploying[host := device] - {host}, r.outcome, r.st.sent)
  }

  // ---------------------------------------------------------------------
  // The protocol, as the loops of deployMeta
  // ---------------------------------------------------------------------

  method AwaitPathAck(ctx: Ctx, target: string, st0: St) returns (r: Res)
    ensures r == PathAck(ctx, target, st0)
  {
    var st := st0;
    while true
      invariant PathAck(ctx, target, st) == PathAck(ctx, target, st0)
      decreases |ctx.env.polls| - st.pos
    {
      if st.pos >= |ctx.env.polls| {
        return Stop(st, Pending);
      }
      var poll := ctx.env.polls[st.pos];
      st := st.(pos := st.pos + 1);
      match poll {
        case Got(b) =>
          if b == PATH_ACK {
            return Go(st);
          }
        case TimedOut(e) =>
          if e >= ctx.cfg.replyTimeout {
            return Stop(st, PathAckTimeout(target));
          }
      }
    }
  }

  method StreamFile(ctx: Ctx, target: string, src: FileSource, st0: St) returns (r: Res)
    ensures r == Stream(ctx, target, src, 0, 0, st0)
  {
    var st := st0;
    var fileSendSize: nat := 0;
    var k: nat := 0;
    while fileSendSize < src.length
      invariant Stream(ctx, target, src, fileSendSize, k, st) == Stream(ctx, target, src, 0, 0, st0)
      decreases |src.results| - k
    {
      if k >= |src.results| {
        return Stop(st, ReadFault(target));
      }
      var read := src.results[k];
      k := k + 1;
      match read {
        case ReadError(m) =>
          return Stop(st, Interrupted(IoFailure(m)));
        case Chunk(data) =>
          fileSendSize := fileSendSize + |data|;
          var w := Send(ctx, st, Payload(data));
          if w.Stop? {
            return w;
          }
          st := w.st.(sent := w.st.sent + |data|);
          if src.length > LARGE_FILE && fileSendSize % (10 * ctx.cfg.bufferSize) == 0 {
            st := Emit(ctx, st, DEPLOYING, FileDeploying(target));
          }
      }
    }
    return Go(st);
  }

  method AwaitEndAck(ctx: Ctx, target: string, st0: St) returns (r: Res)
    ensures r == EndAck(ctx, target, st0)
  {
    var st := st0;
    while true
      invariant EndAck(ctx, target, st) == EndAck(ctx, target, st0)
      decreases |ctx.env.polls| - st.pos
    {
      if st.pos >= |ctx.env.polls| {
        return Stop(st, Pending);
      }
      var poll := ctx.env.polls[st.pos];
      st := st.(pos := st.pos + 1);
      match poll {
        case Got(b) =>
          if b == END_ACK {
            return Go(st);
          }
        case TimedOut(e) =>
          var w := Send(ctx, st, Marker(FILE_RECV_END));
          if w.Stop? {
            return w;
          }
          st := w.st;
          if e >= ctx.cfg.replyTimeout {
            return Stop(st, EndAckTimeout(target));
          }
      }
    }
  }

  method RunJob(ctx: Ctx, i: nat, job: DeployMetaEntity, st: St) returns (r: Res)
    ensures r == Job(ctx, i, job, st)
  {
    if !ctx.env.online(i, job.device.hostAddress) {
      return Stop(st, Offline(job.device.hostAddress));
    }
    var s1 :- Send(ctx, st, Marker(FILE_RECV_START));
    var s2 :- Send(ctx, s1, PathField(job.targetPath, PATH_FIELD_WIDTH));
    var a := AwaitPathAck(ctx, job.targetPath, s2);
    var s3 :- a;
    if job.file.localPath !in ctx.env.files {
      return Stop(s3, Interrupted(FileNotFound(job.file.localPath)));
    }
    var b := StreamFile(ctx, job.targetPath, ctx.env.files[job.file.localPath], s3);
    var s4 :- b;
    var c := AwaitEndAck(ctx, job.targetPath, s4);
    var s5 :- c;
    return Go(Emit(ctx, s5, DEPLOYING_SUCCEED, FileSucceeded(job.targetPath)));
  }

  method RunSession(ctx: Ctx, jobs: seq<DeployMetaEntity>) returns (r: Res)
    ensures r == Session(ctx, jobs)
  {
    if ctx.env.connectError.Some? {
      return Stop(Start, Interrupted(IoFailure(ctx.env.connectError.value)));
    }
    var st := Start;
    for i := 0 to |jobs|
      invariant JobsFrom(ctx, jobs, i, st) == JobsFrom(ctx, jobs, 0, Start)
    {
      var j := RunJob(ctx, i, jobs[i], st);
      if j.Stop? {
        return j;
      }
      st := j.st;
    }
    var s :- Send(ctx, st, Marker(DEPLOY_END));
    return Stop(s, Finished);
  }

  /** The service: the lock map DEPLOYING_DEVICE and what it has published and logged so far. */
  class DeployMetaService {
    var deploying: map<string, Device>
    var events: seq<ProgressEvent>
    var logs: seq<DeployLog>

    constructor ()
      ensures deploying == map[] && events == [] && logs == []
    {
      deploying := map[];
      events := [];
      logs := [];
    }

    /** deployMeta: admission, the session, its one event and log at the end, and the release. */
    method DeployMeta(cfg: Config, env: Env, design: DeploymentDesign, device: Device, jobs: seq<DeployMetaEntity>)
      returns (frames: seq<Frame>, outcome: Outcome)
      modifies this
      ensures var rep := Deploy(cfg, env, design, device, jobs, old(deploying));
        && frames == rep.frames && outcome == rep.outcome && deploying == rep.deploying
        && events == old(events) + rep.events && logs == old(logs) + rep.logs
    {
      var total := GetTotalFileSize(jobs);
      var host := device.hostAddress;
      var ctx := Ctx(cfg, env, PROGRESS_TOPIC + design.id, host, total);
      if host in deploying {
        events := events + [ExitEvent(ctx, Start, AlreadyDeploying)];
        logs := logs + [ExitLog(design.project, ctx, Start, AlreadyDeploying)];
        return [], AlreadyDeploying;
      }
      deploying := deploying[host := device];
      var r := RunSession(ctx, jobs);
      frames, outcome := r.st.frames, r.outcome;
      events := events + r.st.events;
      if outcome != Pending {
        events := events + [ExitEvent(ctx, r.st, outcome)];
        logs := logs + [ExitLog(design.project, ctx, r.st, outcome)];
        // finally
        deploying := deploying - {host};
      }
    }
  }
}
