/**
 * Context set-up and the bounded live-server count (MRH_Server.c).
 */
module Server {
  import opened Wrappers
  import opened Bytes
  import opened Sizes
  import opened ServerError
  import opened MsQuicContext
  import opened ServerTypes
  import opened ServerCommunication

  // ---------------------------------------------------------------------------
  // MRH_SRV_Init
  // ---------------------------------------------------------------------------

  /** Whether each library call Init makes succeeds. */
  datatype InitEnv = InitEnv(sodiumOk: bool, apiOk: bool, registrationOk: bool, configurationOk: bool,
                             credentialOk: bool, mallocOk: bool)

  /** The QUIC_SETTINGS fields Init sets: a uint16_t stream count and a uint64_t idle timeout. */
  datatype QuicSettings = QuicSettings(peerUnidiStreamCount: nat, idleTimeoutMs: nat)

  /**
   * The settings for a maximum server count and timeout: a stream per slot,
   * both directions, for every server, converted to the fields' widths.
   */
  function Settings(maxServerCount: int, timeoutMS: int): (r: QuicSettings)
    ensures r.peerUnidiStreamCount < 0x1_0000 && r.idleTimeoutMs < 0x1_0000_0000_0000_0000
    ensures 0 <= maxServerCount * MessageBufferCount * 2 < 0x1_0000 ==>
              r.peerUnidiStreamCount == maxServerCount * MessageBufferCount * 2
    ensures 0 <= timeoutMS < 0x1_0000_0000_0000_0000 ==> r.idleTimeoutMs == timeoutMS
    ensures timeoutMS < 0 ==> r.idleTimeoutMs == timeoutMS + 0x1_0000_0000_0000_0000 || timeoutMS < -0x1_0000_0000_0000_0000
  {
    QuicSettings((maxServerCount * (MessageBufferCount * 2)) % 0x1_0000, timeoutMS % 0x1_0000_0000_0000_0000)
  }

  /** The actors a client library may be initialised as. */
  predicate ClientActor(actor: int)
  {
    actor != ActorServerConnection && actor != ActorServerCommunication
  }

  /**
   * MRH_SRV_Init. `settings` is what the configuration is opened with, when
   * Init gets that far. The stored device type is the actor converted to
   * uint8_t.
   */
  method Init(actor: int, maxServerCount: int, timeoutMS: int, env: InitEnv)
    returns (r: Result<Context, ErrorKind>, settings: Option<QuicSettings>)
    ensures !ClientActor(actor) ==> r == Err(InvalidParam) && settings.None?
    ensures ClientActor(actor) && !env.sodiumOk ==> r == Err(EncryptionInit) && settings.None?
    ensures ClientActor(actor) && env.sodiumOk && !env.apiOk ==> r == Err(ApiTable)
    ensures ClientActor(actor) && env.sodiumOk && env.apiOk && !env.registrationOk ==> r == Err(Registration)
    ensures ClientActor(actor) && env.sodiumOk && env.apiOk && env.registrationOk ==>
              settings == Some(Settings(maxServerCount, timeoutMS))
    ensures (ClientActor(actor) && env.sodiumOk && env.apiOk && env.registrationOk
             && !(env.configurationOk && env.credentialOk)) ==> r == Err(Configuration)
    ensures (ClientActor(actor) && env.sodiumOk && env.apiOk && env.registrationOk
             && env.configurationOk && env.credentialOk && !env.mallocOk) ==> r == Err(Malloc)
    ensures r.Ok? <==> ClientActor(actor) && env.sodiumOk && env.apiOk && env.registrationOk
                       && env.configurationOk && env.credentialOk && env.mallocOk
    ensures r.Ok? ==> fresh(r.value) && r.value.serverMax == maxServerCount && r.value.serverCur == 0
                      && r.value.deviceType == actor % 256 && r.value.timeoutMS == timeoutMS
  {
    settings := None;
    if actor == ActorServerConnection || actor == ActorServerCommunication {
      return Err(InvalidParam), settings;
    }
    if !env.sodiumOk {
      return Err(EncryptionInit), settings;
    }
    if !env.apiOk {
      return Err(ApiTable), settings;
    }
    if !env.registrationOk {
      return Err(Registration), settings;
    }
    settings := Some(Settings(maxServerCount, timeoutMS));
    if !env.configurationOk || !env.credentialOk {
      return Err(Configuration), settings;
    }
    if !env.mallocOk {
      return Err(Malloc), settings;
    }
    var ctx := new Context(maxServerCount, (actor % 256) as Byte, timeoutMS);
    return Ok(ctx), settings;
  }

  // ---------------------------------------------------------------------------
  // Servers
  // ---------------------------------------------------------------------------

  /**
   * MRH_SRV_CreateServer. `channel` is the channel string without its
   * terminator (None for NULL); `channelMax` is MRH_SRV_SIZE_SERVER_CHANNEL.
   * `mallocOk` and `connectionOk` are the two allocations.
   */
  method CreateServer(ctx: Context?, channel: Option<seq<Byte>>, channelMax: nat, mallocOk: bool, connectionOk: bool)
    returns (r: Result<Server, ErrorKind>)
    requires channel.Some? ==> forall i :: 0 <= i < |channel.value| ==> channel.value[i] != 0
    modifies ctx
    ensures ctx == null || channel.None? ==> r == Err(InvalidParam)
    ensures ctx != null ==> ctx.serverMax == old(ctx.serverMax)
    ensures (ctx != null && channel.Some?
             && (|channel.value| == 0 || |channel.value| > channelMax || old(ctx.serverCur) == ctx.serverMax)) ==>
              r == Err(InvalidParam)
    ensures r.Err? ==> r.error in {InvalidParam, Malloc}
    ensures r.Err? && ctx != null ==> ctx.serverCur == old(ctx.serverCur)
    ensures r.Err? && r.error == Malloc ==> !(mallocOk && connectionOk)
    ensures r.Ok? <==> ctx != null && channel.Some? && 0 < |channel.value| <= channelMax
                       && old(ctx.serverCur) != ctx.serverMax && mallocOk && connectionOk
    ensures r.Ok? ==>
              var s := r.value;
              && fresh(s) && fresh(s.msquic) && s.Valid() && s.msquic.handle.None?
              && s.channel == channel.value + seq(channelMax - |channel.value|, _ => 0)
              && s.address == seq(ServerAddressSize, _ => 0)
              && s.port == PortInvalid && s.deviceType == ctx.deviceType && s.timeoutMS == ctx.timeoutMS
              && ctx.serverCur == old(ctx.serverCur) + 1
    ensures ctx != null && channel.Some? && 0 < |channel.value| <= channelMax ==>
              ctx.serverCur == CountStep(ctx.serverMax, old(ctx.serverCur), Create(mallocOk && connectionOk))
    ensures ctx != null && 0 <= old(ctx.serverCur) <= ctx.serverMax ==> 0 <= ctx.serverCur <= ctx.serverMax
  {
    if ctx == null || channel.None? || |channel.value| == 0 || |channel.value| > channelMax
       || ctx.serverCur == ctx.serverMax {
      return Err(InvalidParam);
    }
    if !mallocOk {
      return Err(Malloc);
    }
    var msquic := CreateConnection(connectionOk);
    if msquic == null {
      return Err(Malloc);
    }
    var name := channel.value + seq(channelMax - |channel.value|, _ => 0);
    var s := new Server(name, seq(ServerAddressSize, _ => 0), ctx.deviceType, ctx.timeoutMS, msquic);
    ctx.serverCur := ctx.serverCur + 1;
    return Ok(s);
  }

  /**
   * MRH_SRV_DestroyServer: disconnects, destroys the connection and lowers
   * the count when it is positive.
   */
  method DestroyServer(ctx: Context?, server: Server?) returns (error: Option<ErrorKind>, shutdownRequested: bool)
    requires server != null ==> server.Valid()
    modifies ctx
    modifies if server != null then {server.msquic, server.msquic.recv, server.msquic.send} else {}
    ensures ctx == null || server == null ==> error == Some(InvalidParam) && !shutdownRequested
    ensures ctx != null && server != null ==> error.None?
    ensures ctx != null ==> ctx.serverMax == old(ctx.serverMax)
    ensures ctx != null && server != null ==>
              ctx.serverCur == (if old(ctx.serverCur) > 0 then old(ctx.serverCur) - 1 else old(ctx.serverCur))
              && shutdownRequested == old(server.msquic.handle).Some?
              && server.msquic.handle.None?
    ensures ctx != null && server == null ==> ctx.serverCur == old(ctx.serverCur)
    ensures ctx != null && server != null ==> ctx.serverCur == CountStep(ctx.serverMax, old(ctx.serverCur), Destroy)
    ensures ctx != null && 0 <= old(ctx.serverCur) <= ctx.serverMax ==> 0 <= ctx.serverCur <= ctx.serverMax
  {
    if ctx == null || server == null {
      return Some(InvalidParam), false;
    }
    shutdownRequested := Disconnect(server);
    var _, _, _ := DestroyConnection(server.msquic);
    if ctx.serverCur > 0 {
      ctx.serverCur := ctx.serverCur - 1;
    }
    error := None;
  }

  // ---------------------------------------------------------------------------
  // The live-server count across calls
  // ---------------------------------------------------------------------------

  /** A CreateServer call (whether its allocations succeed) or a DestroyServer call. */
  datatype CountOp = Create(allocOk: bool) | Destroy

  /** i_ServerCur after one call, given i_ServerMax (a valid channel assumed). */
  function CountStep(max: int, cur: int, op: CountOp): (r: int)
    ensures op.Create? ==> r == (if cur != max && op.allocOk then cur + 1 else cur)
    ensures op.Destroy? ==> r == (if cur > 0 then cur - 1 else cur)
  {
    match op
    case Create(ok) => if cur == max || !ok then cur else cur + 1
    case Destroy => if cur > 0 then cur - 1 else cur
  }

  /** i_ServerCur after a sequence of calls. */
  function CountAfter(max: int, cur: int, ops: seq<CountOp>): int
    decreases |ops|
  {
    if ops == [] then cur else CountAfter(max, CountStep(max, cur, ops[0]), ops[1..])
  }

  /** With a non-negative maximum, any sequence of creates and destroys keeps 0 <= i_ServerCur <= i_ServerMax. */
  lemma {:induction false} CountStaysBounded(max: int, cur: int, ops: seq<CountOp>)
    requires 0 <= cur <= max
    ensures 0 <= CountAfter(max, cur, ops) <= max
    decreases |ops|
  {
    if ops != [] {
      CountStaysBounded(max, CountStep(max, cur, ops[0]), ops[1..]);
    }
  }

  /** A negative maximum bounds nothing: the guard compares for equality only. */
  lemma NegativeMaxDoesNotBound()
    ensures CountAfter(-1, 0, [Create(true), Create(true)]) == 2
  {
    assert [Create(true), Create(true)][1..] == [Create(true)];
  }
}
