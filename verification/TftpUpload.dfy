/**
 An upload: the server, a conforming client, and a network that loses, repeats and delays packets.
 */
module TftpUpload {
  import opened Wrappers
  import opened Bits
  import opened TftpModel

  import R = Runs

  /** The transfer: a file, its name, and the client's port. */
  datatype Job = Job(file: seq<Byte>, name: string, port: nat) {
    /** Block numbers have 16 bits. */
    predicate Fits() { |file| < BLOCK * 0xffff }

    function Last(): nat { LastBlock(|file|) }

    function Request(): Packet { WriteRequest(port, TFTP_PORT, name) }

    function Block(tid: nat, n: nat): Packet
      requires 1 <= n <= Last()
    {
      DataPacket(port, tid, n, BlockOf(file, n))
    }
  }

  /** The client of RFC 1350: `next` is the block it has outstanding, 0 while it waits for the answer to its
      request, and `tid` the server's port, once it knows it. */
  datatype Client = Client(next: nat, tid: Option<nat>)

  /** The packets to the server that may still arrive are in `net`; those from it are in `server.sent`, from
      `lost` on.  Any of them may arrive at any later time, any number of times or never.  `clock` is the tick
      of the latest arrival at the server. */
  datatype System = System(server: Server, client: Client, net: set<Packet>, lost: nat, clock: nat) {
    predicate InFlight(m: Sent) {
      lost <= |server.sent| && m in server.sent[lost..]
    }
  }

  /** Lose: everything on its way is gone for good. */
  datatype Action =
    | Ask
    | Transmit
    | Serve(packet: Packet, now: nat)
    | Receive(message: Sent)
    | Lose

  predicate Enabled(job: Job, y: System, a: Action) {
    match a
    case Ask => y.client.next == 0
    case Transmit => 1 <= y.client.next <= job.Last() && y.client.tid.Some?
    case Serve(p, now) => p in y.net && y.clock <= now
    case Receive(m) => y.InFlight(m)
    case Lose => true
  }

  /** The client moves on only at the acknowledgement of its outstanding block, from the right port. */
  function Acknowledged(job: Job, c: Client, m: Sent): Client {
    if m.dest != job.port || !m.body.Ack? then c
    else if c.next == 0 then (if m.body.block == 0 then Client(1, Some(m.src)) else c)
    else if c.next <= job.Last() && c.tid == Some(m.src) && m.body.block == c.next then c.(next := c.next + 1)
    else c
  }

  function Next(job: Job, y: System, a: Action): System
    requires Enabled(job, y, a)
  {
    match a
    case Ask => y.(net := y.net + {job.Request()})
    case Transmit => y.(net := y.net + {job.Block(y.client.tid.value, y.client.next)})
    case Serve(p, now) => y.(server := Kick(y.server, p, now), clock := now)
    case Receive(m) => y.(client := Acknowledged(job, y.client, m))
    case Lose => y.(net := {}, lost := |y.server.sent|)
  }

  function Step(job: Job): (System, Action) -> Option<System> {
    (y: System, a: Action) => if Enabled(job, y, a) then Some(Next(job, y, a)) else None
  }

  predicate Runs(job: Job, y: System, actions: seq<Action>) {
    R.Possible(Step(job), y, actions)
  }

  function After(job: Job, y: System, actions: seq<Action>): System
    requires Runs(job, y, actions)
  {
    R.After(Step(job), y, actions)
  }

  /** A transfer starts with any running server, one that is stuck in another transfer included, a network
      without packets of this one, and the clock where the server last read it. */
  function Start(server: Server): System {
    System(server.(sent := []), Client(0, None), {}, 0, server.rxKickoff)
  }

  // ---------------------------------------------------------------------------------------
  // The invariant.

  /** The packets are of this transfer: the request, and blocks of the file for port `tid`. */
  predicate Genuine(job: Job, tid: nat, y: System) {
    forall p <- y.net ::
      || p == job.Request()
      || (p.DataPacket? && y.client.next > 0 && 1 <= p.block <= job.Last() && p == job.Block(tid, p.block))
  }

  /** The server's messages are acknowledgements; those from port `tid` are of blocks that are stored,
      and another port only answers after the client has settled on `tid`. */
  predicate Honest(job: Job, tid: nat, a: int, y: System) {
    forall m <- y.server.sent ::
      && m.body.Ack?
      && (m.src == tid ==> Stored(y.server.memory, a, job.file, m.body.block))
      && (m.src != tid ==> y.client.next > 0)
  }

  predicate Waiting(tid: nat, a: int, job: Job, y: System) {
    && y.server.serverPort == tid && y.server.sent == [] && y.client.next == 0
    && a == Destination(y.server.imageAddress, job.name)
  }

  predicate Uploading(tid: nat, a: int, job: Job, s: Server) {
    && s.bootState == ClientWrq && s.lock && s.serverPort == tid && s.sent != []
    && s.imageAddress == a && Destination(s.imageAddress, job.name) == a
    && 1 <= s.blockExpected <= job.Last() && Stored(s.memory, a, job.file, s.blockExpected - 1)
    && s.lengthToServer == BLOCK * (s.blockExpected - 1) && s.addressToStore == a + s.lengthToServer
  }

  /** The whole file is there, under the port after the one the client talks to. */
  predicate Finished(tid: nat, a: int, job: Job, y: System) {
    && y.server.serverPort == (tid + 1) % 0x1_0000 && y.client.next > 0
    && y.server.imageAddress == a && Destination(y.server.imageAddress, job.name) == a
    && Stored(y.server.memory, a, job.file, job.Last()) && y.server.sent != []
  }

  predicate Done(job: Job, s: Server) {
    && s.bootState == InitArp && !s.lock && !s.eof
    && s.lengthToClient == s.lengthToServer == |job.file|
  }

  /** A late copy of the request has been accepted again after the end. */
  predicate Again(a: int, s: Server) {
    && s.status == Running && s.bootState == ClientWrq && s.lock
    && s.blockExpected == 1 && s.lengthToServer == 0 && s.addressToStore == a
  }

  predicate Phase(job: Job, tid: nat, a: int, y: System) {
    || (y.server.status == Running && Waiting(tid, a, job, y))
    || (y.server.status == Running && Uploading(tid, a, job, y.server))
    || (y.server.status != Fault && Finished(tid, a, job, y) && Done(job, y.server))
    || (Finished(tid, a, job, y) && Again(a, y.server))
  }

  predicate Inv(job: Job, tid: nat, a: int, y: System) {
    && tid < 0x1_0000 && job.Fits() && y.lost <= |y.server.sent|
    && Genuine(job, tid, y) && Honest(job, tid, a, y) && Phase(job, tid, a, y)
    && y.client.next <= job.Last() + 1
    && (y.client.next > 0 ==>
          y.client.tid == Some(tid) && y.server.sent != [] && Stored(y.server.memory, a, job.file, y.client.next - 1))
  }

  lemma StoredNone(memory: Memory, a: int, file: seq<Byte>)
    ensures Stored(memory, a, file, 0)
  {
  }

  lemma StartInv(job: Job, server: Server)
    requires job.Fits() && server.status == Running && server.serverPort < 0x1_0000
    ensures Inv(job, server.serverPort, Destination(server.imageAddress, job.name), Start(server))
  {
  }

  lemma ReceiveKeeps(job: Job, tid: nat, a: int, y: System, m: Sent)
    requires Inv(job, tid, a, y) && y.InFlight(m)
    ensures Inv(job, tid, a, Next(job, y, Receive(m)))
  {
    hide Stored, LastBlock;
  }

  lemma RequestKeeps(job: Job, tid: nat, a: int, y: System, now: nat)
    requires Inv(job, tid, a, y)
    ensures Inv(job, tid, a, y.(server := Kick(y.server, job.Request(), now), clock := now))
  {
    hide LastBlock, Contains, Stored;
    StoredNone(y.server.memory, a, job.file);
  }

  /** The block the server waits for. */
  lemma ExpectedKeeps(job: Job, tid: nat, a: int, y: System, now: nat)
    requires Inv(job, tid, a, y) && y.server.status == Running && Uploading(tid, a, job, y.server) && y.client.next > 0
    ensures Inv(job, tid, a, y.(server := Kick(y.server, job.Block(tid, y.server.blockExpected), now), clock := now))
  {
    hide Stored, Contains, LastBlock, Write;
    var k := y.server.blockExpected;
    var after := Write(y.server.memory, a + BLOCK * (k - 1), BlockOf(job.file, k));
    WriteStores(y.server.memory, a, job.file, k, k - 1);
    forall n | Stored(y.server.memory, a, job.file, n)
      ensures Stored(after, a, job.file, n)
    {
      WriteStores(y.server.memory, a, job.file, k, n);
    }
  }

  lemma BlockKeeps(job: Job, tid: nat, a: int, y: System, n: nat, now: nat)
    requires Inv(job, tid, a, y) && 1 <= n <= job.Last() && y.client.next > 0
    ensures Inv(job, tid, a, y.(server := Kick(y.server, job.Block(tid, n), now), clock := now))
  {
    hide LastBlock, Contains, Stored, Write;
    if y.server.status == Running && Uploading(tid, a, job, y.server) && n == y.server.blockExpected {
      ExpectedKeeps(job, tid, a, y, now);
    }
  }

  lemma NextKeeps(job: Job, tid: nat, a: int, y: System, action: Action)
    requires Inv(job, tid, a, y) && Enabled(job, y, action)
    ensures Inv(job, tid, a, Next(job, y, action))
  {
    hide Stored, LastBlock, Contains, Kick;
    match action {
      case Ask =>
      case Transmit =>
      case Receive(m) => ReceiveKeeps(job, tid, a, y, m);
      case Lose =>
      case Serve(p, now) =>
        if p == job.Request() {
          RequestKeeps(job, tid, a, y, now);
        } else {
          BlockKeeps(job, tid, a, y, p.block, now);
        }
    }
  }

  lemma AfterInv(job: Job, tid: nat, a: int, y: System, actions: seq<Action>)
    requires Inv(job, tid, a, y) && Runs(job, y, actions)
    ensures Inv(job, tid, a, After(job, y, actions))
  {
    hide Inv, Next, Enabled;
    forall z, action | Inv(job, tid, a, z) && Enabled(job, z, action)
      ensures Inv(job, tid, a, Next(job, z, action))
    {
      NextKeeps(job, tid, a, z, action);
    }
    R.Keeps(Step(job), z => Inv(job, tid, a, z), y, actions);
  }

  // ---------------------------------------------------------------------------------------
  // What every run guarantees.

  /** Upload safety.  At every moment of every run: while the server takes the upload, memory holds the
      prefix of the file it has counted; once it is idle again, memory holds the whole file and the file
      is what a download will offer; and if the client has finished, memory holds the whole file. */
  lemma UploadSafety(job: Job, server: Server, actions: seq<Action>)
    requires job.Fits() && server.status == Running && server.serverPort < 0x1_0000
    requires Runs(job, Start(server), actions)
    ensures var y, a := After(job, Start(server), actions), Destination(server.imageAddress, job.name);
            var s := y.server;
            && s.status != Fault
            && (s.sent != [] && s.bootState == ClientWrq ==>
                  && s.imageAddress == a && s.lengthToServer == BLOCK * (s.blockExpected - 1) <= |job.file|
                  && Read(s.memory, a, s.lengthToServer) == job.file[..s.lengthToServer])
            && (s.sent != [] && s.bootState != ClientWrq ==>
                  && s.bootState == InitArp && !s.lock && !s.eof && s.imageAddress == a
                  && s.lengthToClient == |job.file| && Read(s.memory, a, |job.file|) == job.file)
            && (y.client.next > job.Last() ==> Read(s.memory, a, |job.file|) == job.file)
  {
    var y, a := After(job, Start(server), actions), Destination(server.imageAddress, job.name);
    StartInv(job, server);
    AfterInv(job, server.serverPort, a, Start(server), actions);
    WholeFile(y.server.memory, a, job.file);
    assert job.file[..0] == Read(y.server.memory, a, 0);
  }

  lemma WholeFile(memory: Memory, a: int, file: seq<Byte>)
    ensures Stored(memory, a, file, LastBlock(|file|)) <==> Read(memory, a, |file|) == file
  {
    assert file[..|file|] == file;
  }

  /** The upload is complete, and since then the server has sent nothing from port `tid`. */
  predicate Silent(job: Job, tid: nat, a: int, was: seq<Sent>, y: System) {
    && Inv(job, tid, a, y) && Finished(tid, a, job, y)
    && |was| <= |y.server.sent| && y.server.sent[..|was|] == was
    && forall i :: |was| <= i < |y.server.sent| ==> y.server.sent[i].src != tid
  }

  /** Once the upload is complete, nothing that the client's port receives later comes from the port it
      talks to: the acknowledgement of the last block is sent once, and if the network loses it no
      repetition of that block brings another. */
  lemma LastAckOnlyOnce(job: Job, tid: nat, a: int, y: System, more: seq<Action>)
    requires Inv(job, tid, a, y) && Finished(tid, a, job, y) && Runs(job, y, more)
    ensures Silent(job, tid, a, y.server.sent, After(job, y, more))
  {
    hide Inv, Finished, Next, Enabled;
    var was := y.server.sent;
    forall z, action | Silent(job, tid, a, was, z) && Enabled(job, z, action)
      ensures Silent(job, tid, a, was, Next(job, z, action))
    {
      StaysFinished(job, tid, a, z, action);
      NextKeeps(job, tid, a, z, action);
    }
    R.Keeps(Step(job), z => Silent(job, tid, a, was, z), y, more);
  }

  lemma StaysFinished(job: Job, tid: nat, a: int, y: System, action: Action)
    requires Inv(job, tid, a, y) && Finished(tid, a, job, y) && Enabled(job, y, action)
    ensures var z := Next(job, y, action);
            Finished(tid, a, job, z) &&
            (z.server.sent == y.server.sent || exists m: Sent :: m.src != tid && z.server.sent == y.server.sent + [m])
  {
    hide Stored, LastBlock, Contains, Write;
  }

  /** An upload is complete exactly when the server has moved to another port. */
  lemma CompleteUploads(job: Job, server: Server, actions: seq<Action>)
    requires job.Fits() && server.status == Running && server.serverPort < 0x1_0000
    requires Runs(job, Start(server), actions)
    ensures var y := After(job, Start(server), actions);
            Finished(server.serverPort, Destination(server.imageAddress, job.name), job, y) <==>
            y.server.serverPort != server.serverPort
    ensures Inv(job, server.serverPort, Destination(server.imageAddress, job.name), After(job, Start(server), actions))
  {
    StartInv(job, server);
    AfterInv(job, server.serverPort, Destination(server.imageAddress, job.name), Start(server), actions);
  }

  /** Where a completed upload lies: from any running server, the whole file is at 0x80000000 if its name is
      "boot.img", and at the image address the server had otherwise; and that is the image address now. */
  lemma UploadPlaced(job: Job, server: Server, actions: seq<Action>)
    requires job.Fits() && server.status == Running && server.serverPort < 0x1_0000
    requires Runs(job, Start(server), actions)
    requires After(job, Start(server), actions).server.serverPort != server.serverPort
    ensures var s := After(job, Start(server), actions).server;
            var place := if job.name == "boot.img" then 0x8000_0000 else server.imageAddress;
            Read(s.memory, place, |job.file|) == job.file && s.imageAddress == place
  {
    hide Stored, Destination, R.Possible, R.After;
    var s := After(job, Start(server), actions).server;
    CompleteUploads(job, server, actions);
    PlaceIs(server.imageAddress, server.jumpToTest, job.name);
    WholeFile(s.memory, Destination(server.imageAddress, job.name), job.file);
  }

  /** Before the upload is complete the jump is decided by the request; afterwards the server has made it. */
  predicate Jumps(job: Job, tid: nat, jump: bool, y: System) {
    if y.server.serverPort == tid then
      y.server.status == Running && y.server.jumpToTest == if y.server.sent == [] then jump else JumpAfter(jump, job.name)
    else y.server.status == Jumped <==> JumpAfter(jump, job.name)
  }

  lemma RequestJumps(job: Job, tid: nat, a: int, jump: bool, y: System, now: nat)
    requires Inv(job, tid, a, y) && Jumps(job, tid, jump, y)
    ensures Jumps(job, tid, jump, y.(server := Kick(y.server, job.Request(), now), clock := now))
  {
    hide Stored, LastBlock, Contains, Honest, Genuine;
  }

  lemma BlockJumps(job: Job, tid: nat, a: int, jump: bool, y: System, n: nat, now: nat)
    requires Inv(job, tid, a, y) && Jumps(job, tid, jump, y) && 1 <= n <= job.Last() && y.client.next > 0
    ensures Jumps(job, tid, jump, y.(server := Kick(y.server, job.Block(tid, n), now), clock := now))
  {
    hide Stored, LastBlock, Contains, Honest, Genuine, Write;
  }

  lemma NextJumps(job: Job, tid: nat, a: int, jump: bool, y: System, action: Action)
    requires Inv(job, tid, a, y) && Jumps(job, tid, jump, y) && Enabled(job, y, action)
    ensures Jumps(job, tid, jump, Next(job, y, action))
  {
    hide Stored, LastBlock, Contains, Kick, Honest, Phase;
    if action.Serve? {
      if action.packet == job.Request() {
        RequestJumps(job, tid, a, jump, y, action.now);
      } else {
        BlockJumps(job, tid, a, jump, y, action.packet.block, action.now);
      }
    }
  }

  /** A completed upload has started its image exactly when its name is "boot.img" or contains "nfjrom", or
      that was decided before. */
  lemma UploadJumps(job: Job, server: Server, actions: seq<Action>)
    requires job.Fits() && server.status == Running && server.serverPort < 0x1_0000
    requires Runs(job, Start(server), actions)
    requires After(job, Start(server), actions).server.serverPort != server.serverPort
    ensures After(job, Start(server), actions).server.status == Jumped <==>
            (exists before, after :: Around(job.name, before, "nfjrom", after)) || job.name == "boot.img" || server.jumpToTest
  {
    hide Inv, Next, Enabled, Jumps, JumpAfter;
    var tid, a, jump := server.serverPort, Destination(server.imageAddress, job.name), server.jumpToTest;
    StartInv(job, server);
    StartJumps(job, server);
    forall y, action | (Inv(job, tid, a, y) && Jumps(job, tid, jump, y)) && Enabled(job, y, action)
      ensures Inv(job, tid, a, Next(job, y, action)) && Jumps(job, tid, jump, Next(job, y, action))
    {
      NextKeeps(job, tid, a, y, action);
      NextJumps(job, tid, a, jump, y, action);
    }
    R.Keeps(Step(job), y => Inv(job, tid, a, y) && Jumps(job, tid, jump, y), Start(server), actions);
    PlaceIs(server.imageAddress, jump, job.name);
    JumpsMeans(job, tid, jump, After(job, Start(server), actions));
  }

  lemma StartJumps(job: Job, server: Server)
    requires server.status == Running
    ensures Jumps(job, server.serverPort, server.jumpToTest, Start(server))
  {
  }

  lemma JumpsMeans(job: Job, tid: nat, jump: bool, y: System)
    requires Jumps(job, tid, jump, y) && y.server.serverPort != tid
    ensures y.server.status == Jumped <==> JumpAfter(jump, job.name)
  {
  }

  // ---------------------------------------------------------------------------------------
  // Which transfers can still finish.

  function Ended(job: Job): System -> bool {
    (y: System) => y.client.next > job.Last()
  }

  /** Some run brings the client to its end. */
  ghost predicate CanFinish(job: Job, y: System) {
    R.CanReach(Step(job), Ended(job), y)
  }

  /** Client and server agree on the block that comes next. */
  predicate InStep(job: Job, tid: nat, a: int, y: System) {
    && Inv(job, tid, a, y) && y.server.status == Running && Uploading(tid, a, job, y.server)
    && y.client.next == y.server.blockExpected
  }

  /** The client sends its block, the server stores and acknowledges it, the client moves on. */
  function Round(job: Job, tid: nat, n: nat, now: nat): seq<Action>
    requires 1 <= n <= job.Last()
  {
    [Transmit] + ([Serve(job.Block(tid, n), now)] + ([Receive(Sent(tid, job.port, Ack(n)))] + []))
  }

  lemma RoundRuns(job: Job, tid: nat, a: int, y: System)
    requires InStep(job, tid, a, y)
    ensures Runs(job, y, Round(job, tid, y.client.next, y.clock))
    ensures var z := After(job, y, Round(job, tid, y.client.next, y.clock));
            && z.client.next == y.client.next + 1 && y.net <= z.net && z.server.rxKickoff == z.clock == y.clock
            && (y.client.next < job.Last() ==> InStep(job, tid, a, z))
  {
    hide Stored, LastBlock, Write, Contains, R.Possible, R.After;
    var n := y.client.next;
    var transmit, serve := Transmit, Serve(job.Block(tid, n), y.clock);
    var receive := Receive(Sent(tid, job.port, Ack(n)));
    var y1 := Next(job, y, transmit);
    NextKeeps(job, tid, a, y, transmit);
    var y2 := Next(job, y1, serve);
    NextKeeps(job, tid, a, y1, serve);
    JustSent(y1.server.sent, y1.lost, Sent(tid, job.port, Ack(n)));
    var y3 := Next(job, y2, receive);
    NextKeeps(job, tid, a, y2, receive);
    R.ThreeSteps(Step(job), y, transmit, serve, receive);
  }

  lemma {:induction false} InStepFinishes(job: Job, tid: nat, a: int, y: System)
    requires InStep(job, tid, a, y)
    ensures CanFinish(job, y)
    decreases job.Last() - y.client.next
  {
    hide LastBlock, R.CanReach, R.Possible, R.After;
    RoundRuns(job, tid, a, y);
    var round := Round(job, tid, y.client.next, y.clock);
    var z := After(job, y, round);
    if y.client.next < job.Last() {
      InStepFinishes(job, tid, a, z);
    } else {
      R.AlreadyThere(Step(job), Ended(job), z);
    }
    R.TowardRun(Step(job), Ended(job), y, round);
  }

  /** A client whose request has not been answered asks again, and asks once more if the first time only
      ended another transfer; the server lets a request through 20 seconds after the last one. */
  lemma AskingFinishes(job: Job, tid: nat, a: int, y: System)
    requires Inv(job, tid, a, y) && y.client.next == 0
    ensures CanFinish(job, y)
  {
    hide Stored, LastBlock, Contains, R.CanReach;
    var y1 := Next(job, y, Ask);
    NextKeeps(job, tid, a, y, Ask);
    if y1.server.bootState == ClientRrq {
      var serve := Serve(job.Request(), Late(y1));
      NextKeeps(job, tid, a, y1, serve);
      AnsweredFinishes(job, tid, a, Next(job, y1, serve));
      R.Toward(Step(job), Ended(job), y1, serve);
    } else {
      AnsweredFinishes(job, tid, a, y1);
    }
    R.Toward(Step(job), Ended(job), y, Ask);
  }

  /** A moment from now on at which the lock lets a second request through. */
  function Late(y: System): (now: nat)
    ensures y.clock <= now && WriteAllowed(y.server, now)
  {
    if (y.clock - y.server.rxKickoff) % 0x1_0000_0000 > TIMEOUT then y.clock
    else
      LaterTick(y.clock - y.server.rxKickoff, TIMEOUT + 1);
      y.clock + TIMEOUT + 1
  }

  lemma LaterTick(d: int, n: nat)
    requires d % 0x1_0000_0000 + n < 0x1_0000_0000
    ensures (d + n) % 0x1_0000_0000 == d % 0x1_0000_0000 + n
  {
  }

  lemma AnsweredFinishes(job: Job, tid: nat, a: int, y: System)
    requires Inv(job, tid, a, y) && y.client.next == 0 && job.Request() in y.net && y.server.bootState != ClientRrq
    ensures CanFinish(job, y)
  {
    hide Stored, LastBlock, Contains, R.CanReach;
    var serve, receive := Serve(job.Request(), Late(y)), Receive(Sent(tid, job.port, Ack(0)));
    var y1 := Next(job, y, serve);
    NextKeeps(job, tid, a, y, serve);
    JustSent(y.server.sent, y.lost, Sent(tid, job.port, Ack(0)));
    NextKeeps(job, tid, a, y1, receive);
    InStepFinishes(job, tid, a, Next(job, y1, receive));
    R.Toward(Step(job), Ended(job), y1, receive);
    R.Toward(Step(job), Ended(job), y, serve);
  }

  /** The server stored the client's block, and the client has not heard of it: the repeated block is
      answered with the acknowledgement once more. */
  lemma RepeatFinishes(job: Job, tid: nat, a: int, y: System)
    requires Inv(job, tid, a, y) && y.server.status == Running && Uploading(tid, a, job, y.server)
    requires 0 < y.client.next == y.server.blockExpected - 1
    ensures CanFinish(job, y)
  {
    hide Stored, LastBlock, Contains, Write, R.CanReach;
    var n := y.client.next;
    var transmit, serve := Transmit, Serve(job.Block(tid, n), y.clock);
    var receive := Receive(Sent(tid, job.port, Ack(n)));
    var y1 := Next(job, y, transmit);
    NextKeeps(job, tid, a, y, transmit);
    var y2 := Next(job, y1, serve);
    NextKeeps(job, tid, a, y1, serve);
    JustSent(y1.server.sent, y1.lost, Sent(tid, job.port, Ack(n)));
    NextKeeps(job, tid, a, y2, receive);
    InStepFinishes(job, tid, a, Next(job, y2, receive));
    R.Toward(Step(job), Ended(job), y2, receive);
    R.Toward(Step(job), Ended(job), y1, serve);
    R.Toward(Step(job), Ended(job), y, transmit);
  }

  /** The client can get across a total loss: it is at its end, or still asking, or the server waits for
      its block or for the one after it. */
  predicate Recovers(job: Job, tid: nat, y: System) {
    || y.client.next > job.Last()
    || y.client.next == 0
    || (y.server.serverPort == tid && y.server.bootState == ClientWrq
        && (y.server.blockExpected == y.client.next || y.server.blockExpected == y.client.next + 1))
  }

  /** The client repeats a block that the server will never acknowledge. */
  predicate Stuck(job: Job, tid: nat, y: System) {
    && 0 < y.client.next <= job.Last() && y.client.tid == Some(tid) && y.lost <= |y.server.sent|
    && (forall p <- y.net :: p == job.Block(tid, y.client.next))
    && (forall m <- y.server.sent[y.lost..] :: m.src == tid ==> m.body != Ack(y.client.next))
    && (y.server.serverPort == tid ==>
          && y.server.status == Running && y.server.bootState == ClientWrq
          && 1 <= y.server.blockExpected < 0x1_0000 && y.server.blockExpected != y.client.next
          && y.server.blockExpected != y.client.next + 1)
  }

  lemma StuckStays(job: Job, tid: nat, y: System, a: Action)
    requires Stuck(job, tid, y) && Enabled(job, y, a)
    ensures Stuck(job, tid, Next(job, y, a)) && Next(job, y, a).client == y.client
  {
    hide LastBlock, Write, FinishUpload;
    if a.Serve? && Next(job, y, a).server.sent != y.server.sent {
      assert Next(job, y, a).server.sent[y.lost..] ==
             y.server.sent[y.lost..] + [Next(job, y, a).server.sent[|y.server.sent|]];
    }
  }

  lemma StuckForever(job: Job, tid: nat, y: System)
    requires Stuck(job, tid, y)
    ensures !CanFinish(job, y)
  {
    hide Enabled, Next, LastBlock, R.CanReach;
    forall z, a | Stuck(job, tid, z) && Enabled(job, z, a)
      ensures Stuck(job, tid, Next(job, z, a))
    {
      StuckStays(job, tid, z, a);
    }
    R.NeverThere(Step(job), z => Stuck(job, tid, z), Ended(job), y);
  }

  /** After any run, should everything on its way be lost, the client can still finish exactly when
      Recovers holds. */
  lemma FinishesAfterLoss(job: Job, server: Server, actions: seq<Action>)
    requires job.Fits() && server.status == Running && server.serverPort < 0x1_0000
    requires Runs(job, Start(server), actions)
    ensures var y := After(job, Start(server), actions);
            CanFinish(job, Next(job, y, Lose)) <==> Recovers(job, server.serverPort, y)
  {
    hide Stored, LastBlock, R.CanReach, R.Possible, R.After;
    var tid, a := server.serverPort, Destination(server.imageAddress, job.name);
    var y := After(job, Start(server), actions);
    StartInv(job, server);
    AfterInv(job, tid, a, Start(server), actions);
    var z := Next(job, y, Lose);
    NextKeeps(job, tid, a, y, Lose);
    if z.client.next > job.Last() {
      R.AlreadyThere(Step(job), Ended(job), z);
    } else if z.client.next == 0 {
      AskingFinishes(job, tid, a, z);
    } else if Recovers(job, tid, z) {
      if z.server.blockExpected == z.client.next {
        InStepFinishes(job, tid, a, z);
      } else {
        RepeatFinishes(job, tid, a, z);
      }
    } else {
      StuckForever(job, tid, z);
    }
  }

  /** Every file can be uploaded, whatever transfer the server was left in: some run brings the client to
      its end. */
  lemma UploadFinishes(job: Job, server: Server) returns (actions: seq<Action>)
    requires job.Fits() && server.status == Running && server.serverPort < 0x1_0000
    ensures Runs(job, Start(server), actions) && After(job, Start(server), actions).client.next == job.Last() + 1
  {
    hide R.Possible, R.After, Stored, LastBlock;
    var tid, a := server.serverPort, Destination(server.imageAddress, job.name);
    StartInv(job, server);
    AskingFinishes(job, tid, a, Start(server));
    actions :| R.Reaches(Step(job), Ended(job), Start(server), actions);
    AfterInv(job, tid, a, Start(server), actions);
  }

  /** The request is answered. */
  function Opening(job: Job, tid: nat, now: nat): seq<Action> {
    [Ask] + ([Serve(job.Request(), now)] + ([Receive(Sent(tid, job.port, Ack(0)))] + []))
  }

  lemma OpeningRuns(job: Job, server: Server)
    requires job.Fits() && server.status == Running && server.serverPort < 0x1_0000
    requires !server.lock && server.bootState == InitArp
    ensures Runs(job, Start(server), Opening(job, server.serverPort, server.rxKickoff))
    ensures var y := After(job, Start(server), Opening(job, server.serverPort, server.rxKickoff));
            && InStep(job, server.serverPort, Destination(server.imageAddress, job.name), y)
            && y.client.next == 1 && job.Request() in y.net && y.clock == server.rxKickoff
  {
    hide Stored, LastBlock, Contains, R.Possible, R.After;
    var tid, a := server.serverPort, Destination(server.imageAddress, job.name);
    var serve, receive := Serve(job.Request(), server.rxKickoff), Receive(Sent(tid, job.port, Ack(0)));
    StartInv(job, server);
    var y1 := Next(job, Start(server), Ask);
    NextKeeps(job, tid, a, Start(server), Ask);
    var y2 := Next(job, y1, serve);
    NextKeeps(job, tid, a, y1, serve);
    JustSent(y1.server.sent, y1.lost, Sent(tid, job.port, Ack(0)));
    NextKeeps(job, tid, a, y2, receive);
    R.ThreeSteps(Step(job), Start(server), Ask, serve, receive);
  }

  /** The client's first block is stored and acknowledged; then a copy of the request arrives. */
  function LateCopy(job: Job, tid: nat, now: nat, late: nat): seq<Action>
    requires 1 < job.Last()
  {
    Opening(job, tid, now) + (Round(job, tid, 1, now) + [Serve(job.Request(), late)])
  }

  lemma StartsOver(job: Job, tid: nat, a: int, z: System, late: nat)
    requires InStep(job, tid, a, z) && z.client.next == 2 && job.Request() in z.net
    requires z.clock <= late && (late - z.server.rxKickoff) % 0x1_0000_0000 > TIMEOUT
    ensures var y := Next(job, z, Serve(job.Request(), late));
            y.client.next == 2 && y.server.serverPort == tid && y.server.blockExpected == 1
    ensures 2 <= job.Last()
  {
    hide LastBlock, Stored, Contains;
  }

  /** When it arrives more than 20 seconds later it starts the upload over.  That run is possible for every
      file of more than one block, and from its end a loss of everything on its way is fatal: the server
      waits for block 1, and the client only has block 2 to send. */
  lemma LateCopyWedges(job: Job, server: Server, late: nat)
    requires job.Fits() && server.status == Running && server.serverPort < 0x1_0000
    requires !server.lock && server.bootState == InitArp && 1 < job.Last()
    requires server.rxKickoff <= late && (late - server.rxKickoff) % 0x1_0000_0000 > TIMEOUT
    ensures Runs(job, Start(server), LateCopy(job, server.serverPort, server.rxKickoff, late))
    ensures var y := After(job, Start(server), LateCopy(job, server.serverPort, server.rxKickoff, late));
            !CanFinish(job, Next(job, y, Lose))
  {
    hide R.Possible, R.After, LastBlock, R.CanReach, Round, Opening, Stored;
    var tid, a, now := server.serverPort, Destination(server.imageAddress, job.name), server.rxKickoff;
    var open, round, copy := Opening(job, tid, now), Round(job, tid, 1, now), Serve(job.Request(), late);
    OpeningRuns(job, server);
    var y := After(job, Start(server), open);
    RoundRuns(job, tid, a, y);
    var z := After(job, y, round);
    StartsOver(job, tid, a, z, late);
    R.Append(Step(job), y, round, [copy]);
    R.Nothing(Step(job), Next(job, z, copy));
    R.Prepend(Step(job), z, copy, []);
    assert [copy] + [] == [copy];
    R.Append(Step(job), Start(server), open, round + [copy]);
    FinishesAfterLoss(job, server, LateCopy(job, tid, now, late));
  }
}
