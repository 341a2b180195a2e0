/** The command envelopes exchanged with the server (command.go). */
module Command {

  /** `Type` of an envelope the client sends (first `iota` value). */
  const RequestType: int := 0

  /** `Type` of an envelope the server sends back (second `iota` value). */
  const ResponseType: int := 1

  /** An outgoing envelope (`WsCommand`); `D` is the caller's payload type. */
  datatype WsCommand<D> = WsCommand(cmdType: int, command: string, requestId: string, data: D)

  /** The fields the read loop decodes from an inbound frame (`TempCommand`). */
  datatype TempCommand = TempCommand(requestId: string, cmdType: int, command: string)

  /** A server reply as the server writes it (`WsResult`). */
  datatype WsResult = WsResult(cmdType: int, requestId: string, command: string, status: int, msg: string)

  /** True of a decoded envelope the read loop treats as a reply to one of its requests. */
  predicate IsResponse(t: TempCommand) {
    t.cmdType == ResponseType
  }

  /** The two envelope kinds are told apart by distinct `Type` values. */
  lemma KindsAreDistinct()
    ensures RequestType != ResponseType
    ensures RequestType == 0 && ResponseType == 1
  {
  }

  /** Builds a request envelope with no correlation id (`NewCommand`). */
  function NewCommand<D>(name: string, data: D): (c: WsCommand<D>)
    ensures c.cmdType == RequestType
    ensures c.command == name && c.data == data
    ensures c.requestId == ""
  {
    WsCommand(RequestType, name, "", data)
  }

  /** The `TempCommand` a JSON decoder recovers from an encoded `WsCommand`:
      the shared fields survive, `Data` is not part of `TempCommand`. */
  function RequestView<D>(c: WsCommand<D>): (t: TempCommand)
  {
    TempCommand(c.requestId, c.cmdType, c.command)
  }

  /** The `TempCommand` a JSON decoder recovers from an encoded `WsResult`:
      `Status` and `Msg` are dropped. */
  function ResultView(res: WsResult): (t: TempCommand)
  {
    TempCommand(res.requestId, res.cmdType, res.command)
  }

  /** A request built by `NewCommand`, whatever correlation id is filled in later,
      never passes the response check of the read loop. */
  lemma RequestIsNeverResponse<D>(name: string, data: D, id: string)
    ensures !IsResponse(RequestView(NewCommand(name, data).(requestId := id)))
  {
  }
}
