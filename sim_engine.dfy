/**
  SimEngineService.getSimEngineCmd: translating an operator's command
  name into the engine commands published on the engine's command subject.
*/
module SimEngine {
  import opened Wrappers

  /** The subject every engine command is published on. */
  const CMD_SUBJECT := "CMD_TOPIC1"

  /** The engine command types this service sends. */
  datatype EngineCmd = EngineStart | EngineSuspend | EngineRecover | EngineStop

  /** One message published to the engine. */
  datatype Publish = Publish(subject: string, cmd: EngineCmd)

  /** The exception for a command name the switch does not know. */
  datatype SimError = CmdTypeError(simCmd: string)

  /** The command type the switch picks for a name, if it knows it. */
  function CommandOf(simCmd: string): Option<EngineCmd> {
    if simCmd == "start" || simCmd == "stepThrough" || simCmd == "stepSize" then Some(EngineStart)
    else if simCmd == "suspend" then Some(EngineSuspend)
    else if simCmd == "recover" then Some(EngineRecover)
    else if simCmd == "stop" then Some(EngineStop)
    else None
  }

  /** Commands that run the engine for a while and then suspend it. */
  predicate IsStep(simCmd: string) {
    simCmd == "stepThrough" || simCmd == "stepSize"
  }

  predicate Known(simCmd: string) {
    simCmd in {"start", "stepThrough", "stepSize", "suspend", "recover", "stop"}
  }

  /**
    The messages getSimEngineCmd publishes, in order, or the exception it
    throws before publishing anything.
  */
  function GetSimEngineCmd(simCmd: string): (r: Result<seq<Publish>, SimError>)
    ensures r.Success? <==> Known(simCmd)
    ensures r.Failure? ==> r.error == CmdTypeError(simCmd)
    ensures r.Success? ==> forall p :: p in r.value ==> p.subject == CMD_SUBJECT
    ensures r.Success? && !IsStep(simCmd) ==> r.value == [Publish(CMD_SUBJECT, CommandOf(simCmd).value)]
    ensures r.Success? && IsStep(simCmd) ==> r.value == [Publish(CMD_SUBJECT, EngineStart), Publish(CMD_SUBJECT, EngineSuspend)]
    decreases if IsStep(simCmd) then 1 else 0
  {
    match CommandOf(simCmd)
    case None => Failure(CmdTypeError(simCmd))
    case Some(cmd) =>
      var sent := [Publish(CMD_SUBJECT, cmd)];
      if IsStep(simCmd) then
        Success(sent + GetSimEngineCmd("suspend").value)
      else Success(sent)
  }
}
