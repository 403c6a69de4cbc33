/**
 * The library context and the server handle (MRH_ServerTypesInternal.h).
 */
module ServerTypes {
  import opened Bytes
  import opened MsQuicContext

  /** MRH_Srv_Actor. */
  const ActorApp: int := 0
  const ActorPlatform: int := 1
  const ActorServerConnection: int := 2
  const ActorServerCommunication: int := 3

  /** MRH_SRV_PORT_INVALID. */
  const PortInvalid: int := -1

  /** MRH_Srv_Context, without the transport handles it keeps for the library. */
  class Context {
    var serverMax: int
    var serverCur: int
    var deviceType: Byte
    var timeoutMS: int

    constructor (serverMax: int, deviceType: Byte, timeoutMS: int)
      ensures this.serverMax == serverMax && serverCur == 0
      ensures this.deviceType == deviceType && this.timeoutMS == timeoutMS
    {
      this.serverMax := serverMax;
      serverCur := 0;
      this.deviceType := deviceType;
      this.timeoutMS := timeoutMS;
    }
  }

  /**
   * MRH_Srv_Server. The channel name is stored by MRH_SRV_CreateServer
   * although the struct declares no field for it; it is kept here as
   * `channel`.
   */
  class Server {
    var channel: seq<Byte>
    var address: seq<Byte>
    var port: int
    var deviceType: Byte
    var timeoutMS: int
    const msquic: Connection

    ghost predicate Valid()
      reads this, msquic, msquic.recv, msquic.send
    {
      msquic.Valid()
    }

    constructor (channel: seq<Byte>, address: seq<Byte>, deviceType: Byte, timeoutMS: int, msquic: Connection)
      ensures this.channel == channel && this.address == address && port == PortInvalid
      ensures this.deviceType == deviceType && this.timeoutMS == timeoutMS && this.msquic == msquic
    {
      this.channel := channel;
      this.address := address;
      port := PortInvalid;
      this.deviceType := deviceType;
      this.timeoutMS := timeoutMS;
      this.msquic := msquic;
    }
  }
}
