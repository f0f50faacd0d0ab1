/**
 A download: the server, a conforming client, and a network that loses, repeats and delays packets.
 */
module TftpDownload {
  import opened Wrappers
  import opened Bits
  import opened TftpModel

  import R = Runs
  import TftpUpload

  /** The client of RFC 1350: `next` is the block it waits for, `data` what it has received. */
  datatype Client = Client(next: nat, data: seq<Byte>, tid: Option<nat>, done: bool)

  /** As for an upload: the packets to the server that may still arrive, those from it from `lost` on, and
      the tick of the latest arrival at the server. */
  datatype System = System(server: Server, client: Client, net: set<Packet>, lost: nat, clock: nat) {
    predicate InFlight(m: Sent) {
      lost <= |server.sent| && m in server.sent[lost..]
    }
  }

  /** Repeat: the client acknowledges its latest block once more.  Lose: everything on its way is gone. */
  datatype Action =
    | Ask
    | Serve(packet: Packet, now: nat)
    | Receive(message: Sent)
    | Repeat
    | Lose

  predicate Enabled(y: System, a: Action) {
    match a
    case Ask => y.client.next == 1
    case Serve(p, now) => p in y.net && y.clock <= now
    case Receive(m) => y.InFlight(m)
    case Repeat => y.client.next > 1 && y.client.tid.Some?
    case Lose => true
  }

  /** The client takes the block it waits for. */
  predicate Takes(port: nat, c: Client, m: Sent) {
    && m.dest == port && m.body.Data? && !c.done && (c.tid == None || c.tid == Some(m.src))
    && m.body.block == c.next
  }

  function Next(port: nat, y: System, a: Action): System
    requires Enabled(y, a)
  {
    match a
    case Ask => y.(net := y.net + {ReadRequest(port, TFTP_PORT)})
    case Serve(p, now) => y.(server := Kick(y.server, p, now), clock := now)
    case Receive(m) =>
      var c := y.client;
      if Takes(port, c, m) then
        y.(client := Client(c.next + 1, c.data + m.body.bytes, Some(m.src), |m.body.bytes| < BLOCK),
           net := y.net + {AckPacket(port, m.src, c.next)})
      else y
    case Repeat => y.(net := y.net + {AckPacket(port, y.client.tid.value, y.client.next - 1)})
    case Lose => y.(net := {}, lost := |y.server.sent|)
  }

  function Step(port: nat): (System, Action) -> Option<System> {
    (y: System, a: Action) => if Enabled(y, a) then Some(Next(port, y, a)) else None
  }

  predicate Runs(port: nat, y: System, actions: seq<Action>) {
    R.Possible(Step(port), y, actions)
  }

  function After(port: nat, y: System, actions: seq<Action>): System
    requires Runs(port, y, actions)
  {
    R.After(Step(port), y, actions)
  }

  /** A transfer starts with an idle server and a network without packets of this one. */
  predicate Idle(s: Server) {
    && s.status == Running && s.bootState == InitArp && !s.lock && !s.eof
    && s.lengthToClient < BLOCK * 0xffff
  }

  function Start(server: Server): System {
    System(server.(sent := []), Client(1, [], None, false), {}, 0, server.rxKickoff)
  }

  /** What the server offers: the bytes of the last upload. */
  function Image(s: Server): seq<Byte> {
    Read(s.memory, s.imageAddress, s.lengthToClient)
  }

  // ---------------------------------------------------------------------------------------
  // The invariant.

  predicate Fixed(image: seq<Byte>, tid: nat, s: Server) {
    && s.status == Running && s.serverPort == tid && Image(s) == image && |image| < BLOCK * 0xffff
  }

  predicate Genuine(port: nat, tid: nat, y: System) {
    forall p <- y.net ::
      p == ReadRequest(port, TFTP_PORT) || (p.AckPacket? && 1 <= p.block < y.client.next && p == AckPacket(port, tid, p.block))
  }

  predicate Honest(port: nat, tid: nat, image: seq<Byte>, s: Server) {
    forall m <- s.sent ::
      && m.body.Data? && 1 <= m.body.block <= LastBlock(|image|)
      && m == Sent(tid, port, Data(m.body.block, BlockOf(image, m.body.block)))
  }

  predicate Received(tid: nat, image: seq<Byte>, c: Client) {
    && 1 <= c.next <= LastBlock(|image|) + 1
    && c.data == image[..Reach(|image|, c.next - 1)]
    && (c.done <==> c.next == LastBlock(|image|) + 1)
    && c.tid == if c.next == 1 then None else Some(tid)
  }

  predicate UpTo(sent: seq<Sent>, n: nat) {
    forall m <- sent :: m.body.block <= n
  }

  /** The end flag is up exactly while the last block is outstanding; the server's block is the one the
      client waits for or the one before it, until the client is done, and never a later one; and the
      server ends the transfer only after the client has the last block. */
  predicate Sending(port: nat, image: seq<Byte>, y: System) {
    var s := y.server;
    match s.bootState
    case InitArp => !s.lock && !s.eof && (if s.sent == [] then y.client.next == 1 else y.client.done)
    case ClientRrq =>
      && s.lock && s.clientPort == port && s.sent != [] && 1 <= s.blockExpected <= LastBlock(|image|)
      && s.blockExpected <= y.client.next && (y.client.done || y.client.next <= s.blockExpected + 1)
      && (y.client.done || UpTo(s.sent, s.blockExpected))
      && (s.eof <==> s.blockExpected == LastBlock(|image|))
    case ClientWrq => false
  }

  predicate Inv(port: nat, tid: nat, image: seq<Byte>, y: System) {
    && y.lost <= |y.server.sent| && Fixed(image, tid, y.server) && Genuine(port, tid, y) && Honest(port, tid, image, y.server)
    && Received(tid, image, y.client) && Sending(port, image, y)
  }

  lemma StartInv(port: nat, server: Server)
    requires Idle(server)
    ensures Inv(port, server.serverPort, Image(server), Start(server))
  {
    assert Image(server)[..0] == [];
  }

  lemma ReceiveKeeps(port: nat, tid: nat, image: seq<Byte>, y: System, m: Sent)
    requires Inv(port, tid, image, y) && y.InFlight(m)
    ensures Inv(port, tid, image, Next(port, y, Receive(m)))
  {
    hide Image;
    if Takes(port, y.client, m) {
      var n := y.client.next;
      assert image[..Reach(|image|, n - 1)] + BlockOf(image, n) == image[..Reach(|image|, n)];
    }
  }

  lemma RequestKeeps(port: nat, tid: nat, image: seq<Byte>, y: System, now: nat)
    requires Inv(port, tid, image, y)
    ensures Inv(port, tid, image, y.(server := Kick(y.server, ReadRequest(port, TFTP_PORT), now), clock := now))
  {
    hide Read, SendData;
    SendsBlock(y.server.(clientPort := port, lock := true), 1);
  }

  /** One more block has been sent. */
  lemma SentKeeps(port: nat, tid: nat, image: seq<Byte>, sent: seq<Sent>, s: Server, k: nat, y: System)
    requires Honest(port, tid, image, y.server) && y.server.sent == sent && 1 <= k <= LastBlock(|image|)
    requires s.sent == sent + [Sent(tid, port, Data(k, BlockOf(image, k)))]
    ensures Honest(port, tid, image, s)
    ensures forall n :: n >= k && UpTo(sent, n) ==> UpTo(s.sent, n)
  {
    hide LastBlock;
  }

  /** An acknowledgement of another block: the server's block again. */
  lemma OtherAckKeeps(port: nat, tid: nat, image: seq<Byte>, y: System, n: nat, now: nat)
    requires Inv(port, tid, image, y) && 1 <= n < y.client.next
    requires y.server.bootState == ClientRrq && n != y.server.blockExpected
    ensures Inv(port, tid, image, y.(server := Kick(y.server, AckPacket(port, tid, n), now), clock := now))
  {
    hide Read, SendData, LastBlock, Honest, UpTo;
    var s := y.server;
    SendsBlock(s.(clientPort := port), s.blockExpected);
    SentKeeps(port, tid, image, s.sent, Kick(s, AckPacket(port, tid, n), now), s.blockExpected, y);
  }

  /** Of the server's block: the next one. */
  lemma NextAckKeeps(port: nat, tid: nat, image: seq<Byte>, y: System, n: nat, now: nat)
    requires Inv(port, tid, image, y) && 1 <= n < y.client.next
    requires y.server.bootState == ClientRrq && n == y.server.blockExpected && !y.server.eof
    ensures Inv(port, tid, image, y.(server := Kick(y.server, AckPacket(port, tid, n), now), clock := now))
  {
    hide Read, SendData, LastBlock, Honest, UpTo;
    var s := y.server;
    SendsBlock(s.(clientPort := port, blockExpected := (n + 1) % 0x1_0000), n + 1);
    BlocksSmall(image);
    UpToMore(s.sent, n);
    SentKeeps(port, tid, image, s.sent, Kick(s, AckPacket(port, tid, n), now), n + 1, y);
  }

  lemma BlocksSmall(image: seq<Byte>)
    requires |image| < BLOCK * 0xffff
    ensures LastBlock(|image|) < 0x1_0000
  {
  }

  lemma UpToMore(sent: seq<Sent>, n: nat)
    ensures UpTo(sent, n) ==> UpTo(sent, n + 1)
  {
  }

  /** Of the last block: the end. */
  lemma LastAckKeeps(port: nat, tid: nat, image: seq<Byte>, y: System, n: nat, now: nat)
    requires Inv(port, tid, image, y) && 1 <= n < y.client.next
    requires y.server.bootState == ClientRrq && n == y.server.blockExpected && y.server.eof
    ensures Inv(port, tid, image, y.(server := Kick(y.server, AckPacket(port, tid, n), now), clock := now))
  {
    hide Read, SendData, LastBlock, UpTo;
  }

  lemma AckKeeps(port: nat, tid: nat, image: seq<Byte>, y: System, n: nat, now: nat)
    requires Inv(port, tid, image, y) && 1 <= n < y.client.next
    ensures Inv(port, tid, image, y.(server := Kick(y.server, AckPacket(port, tid, n), now), clock := now))
  {
    if y.server.bootState == ClientRrq {
      hide Inv, Kick;
      if n != y.server.blockExpected {
        OtherAckKeeps(port, tid, image, y, n, now);
      } else if !y.server.eof {
        NextAckKeeps(port, tid, image, y, n, now);
      } else {
        LastAckKeeps(port, tid, image, y, n, now);
      }
    } else {
      hide Read, LastBlock, UpTo, SendData;
    }
  }

  /** What the client sends, and what the network loses. */
  lemma QuietKeeps(port: nat, tid: nat, image: seq<Byte>, y: System, action: Action)
    requires Inv(port, tid, image, y) && Enabled(y, action) && !action.Serve? && !action.Receive?
    ensures Inv(port, tid, image, Next(port, y, action))
  {
    hide LastBlock, Image, Kick, Honest, UpTo;
  }

  lemma NextKeeps(port: nat, tid: nat, image: seq<Byte>, y: System, action: Action)
    requires Inv(port, tid, image, y) && Enabled(y, action)
    ensures Inv(port, tid, image, Next(port, y, action))
  {
    hide Inv, Kick;
    match action {
      case Receive(m) => ReceiveKeeps(port, tid, image, y, m);
      case Serve(p, now) =>
        if p == ReadRequest(port, TFTP_PORT) {
          RequestKeeps(port, tid, image, y, now);
        } else {
          InNet(port, tid, image, y, p);
          AckKeeps(port, tid, image, y, p.block, now);
        }
      case _ => QuietKeeps(port, tid, image, y, action);
    }
  }

  lemma InNet(port: nat, tid: nat, image: seq<Byte>, y: System, p: Packet)
    requires Inv(port, tid, image, y) && p in y.net && p != ReadRequest(port, TFTP_PORT)
    ensures p.AckPacket? && 1 <= p.block < y.client.next && p == AckPacket(port, tid, p.block)
  {
  }

  lemma AfterInv(port: nat, tid: nat, image: seq<Byte>, y: System, actions: seq<Action>)
    requires Inv(port, tid, image, y) && Runs(port, y, actions)
    ensures Inv(port, tid, image, After(port, y, actions))
  {
    hide Inv, Next, Enabled;
    forall z, a | Inv(port, tid, image, z) && Enabled(z, a)
      ensures Inv(port, tid, image, Next(port, z, a))
    {
      NextKeeps(port, tid, image, z, a);
    }
    R.Keeps(Step(port), z => Inv(port, tid, image, z), y, actions);
  }

  // ---------------------------------------------------------------------------------------
  // What every run guarantees.

  /** Download safety.  At every moment of every run the client holds a prefix of the image, in whole
      blocks until it has finished and all of it from then on; the server goes back to idle only after
      the client has finished; and the image and its length never change. */
  lemma DownloadSafety(port: nat, server: Server, actions: seq<Action>)
    requires Idle(server) && Runs(port, Start(server), actions)
    ensures var y, image := After(port, Start(server), actions), Image(server);
            && y.client.data <= image
            && (!y.client.done ==> |y.client.data| == BLOCK * (y.client.next - 1))
            && (y.client.done ==> y.client.data == image)
            && (y.server.sent != [] && y.server.bootState == InitArp ==> y.client.done && !y.server.lock && !y.server.eof)
            && y.server.status == Running && Image(y.server) == image
  {
    StartInv(port, server);
    AfterInv(port, server.serverPort, Image(server), Start(server), actions);
    var image := Image(server);
    assert image[..|image|] == image;
  }

  /** What was uploaded is what a later download delivers: after any upload that has completed without
      starting its image, every download ends with the file that was sent. */
  lemma RoundTrip(job: TftpUpload.Job, server: Server, up: seq<TftpUpload.Action>, port: nat, down: seq<Action>)
    requires job.Fits() && server.status == Running && server.serverPort < 0x1_0000
    requires TftpUpload.Runs(job, TftpUpload.Start(server), up)
    requires var s := TftpUpload.After(job, TftpUpload.Start(server), up).server;
             s.status == Running && s.sent != [] && s.bootState == InitArp && Runs(port, Start(s), down)
    ensures var s := TftpUpload.After(job, TftpUpload.Start(server), up).server;
            var client := After(port, Start(s), down).client;
            client.data <= job.file && (client.done ==> client.data == job.file)
  {
    var s := TftpUpload.After(job, TftpUpload.Start(server), up).server;
    TftpUpload.UploadSafety(job, server, up);
    DownloadSafety(port, s, down);
  }

  // ---------------------------------------------------------------------------------------
  // Which transfers can still finish.

  function Ended(): System -> bool {
    (y: System) => y.client.done && y.server.bootState == InitArp
  }

  /** Some run brings the client to its end and the server back to idle. */
  ghost predicate CanFinish(port: nat, y: System) {
    R.CanReach(Step(port), Ended(), y)
  }

  /** A request to an idle server. */
  lemma Opens(s: Server, port: nat, image: seq<Byte>, now: nat)
    requires s.status == Running && s.bootState == InitArp && !s.lock && Image(s) == image
    ensures var t := Kick(s, ReadRequest(port, TFTP_PORT), now);
            && t.sent == s.sent + [Sent(s.serverPort, port, Data(1, BlockOf(image, 1)))]
            && t.bootState == ClientRrq && t.blockExpected == 1
  {
    SendsBlock(s.(clientPort := port, lock := true), 1);
  }

  /** An acknowledgement during the transfer: of the server's block, it brings the next one or the end; of
      another, the server's block again. */
  lemma Answers(port: nat, tid: nat, image: seq<Byte>, y: System, k: nat, now: nat)
    requires Inv(port, tid, image, y) && y.server.bootState == ClientRrq && 1 <= k < y.client.next
    ensures var n := y.server.blockExpected;
            var s := Kick(y.server, AckPacket(port, tid, k), now);
            if k == n == LastBlock(|image|) then s.bootState == InitArp && y.client.done
            else
              var next := if k == n then n + 1 else n;
              && next <= LastBlock(|image|) && s.bootState == ClientRrq && s.blockExpected == next
              && s.sent == y.server.sent + [Sent(tid, port, Data(next, BlockOf(image, next)))]
  {
    hide SendData, Read;
    var n := y.server.blockExpected;
    SendsBlock(y.server.(clientPort := port), n);
    SendsBlock(y.server.(clientPort := port, blockExpected := (n + 1) % 0x1_0000), n + 1);
  }

  /** The acknowledgement of the server's block is in flight, and the client is not yet past the next. */
  predicate InStep(port: nat, tid: nat, image: seq<Byte>, y: System) {
    && Inv(port, tid, image, y) && y.server.bootState == ClientRrq
    && y.client.next == y.server.blockExpected + 1
    && AckPacket(port, tid, y.server.blockExpected) in y.net
  }

  lemma {:induction false} InStepFinishes(port: nat, tid: nat, image: seq<Byte>, y: System)
    requires InStep(port, tid, image, y)
    ensures CanFinish(port, y)
    decreases LastBlock(|image|) - y.server.blockExpected, 0
  {
    hide Kick, R.CanReach, Image, LastBlock, Honest, Genuine;
    var n := y.server.blockExpected;
    var serve := Serve(AckPacket(port, tid, n), y.clock);
    Answers(port, tid, image, y, n, y.clock);
    NextKeeps(port, tid, image, y, serve);
    var y1 := Next(port, y, serve);
    if n < LastBlock(|image|) {
      JustSent(y.server.sent, y.lost, Sent(tid, port, Data(n + 1, BlockOf(image, n + 1))));
      ArrivalFinishes(port, tid, image, y1);
    } else {
      R.AlreadyThere(Step(port), Ended(), y1);
    }
    R.Toward(Step(port), Ended(), y, serve);
  }

  /** The server's block is in flight, and the client waits for it. */
  lemma {:induction false} ArrivalFinishes(port: nat, tid: nat, image: seq<Byte>, y: System)
    requires Inv(port, tid, image, y) && y.server.bootState == ClientRrq && y.server.blockExpected == y.client.next
    requires y.client.next <= LastBlock(|image|)
    requires y.InFlight(Sent(tid, port, Data(y.client.next, BlockOf(image, y.client.next))))
    ensures CanFinish(port, y)
    decreases LastBlock(|image|) - y.server.blockExpected, 1
  {
    hide R.CanReach, Image, LastBlock, Honest, Genuine;
    var n := y.client.next;
    var receive := Receive(Sent(tid, port, Data(n, BlockOf(image, n))));
    ReceiveKeeps(port, tid, image, y, Sent(tid, port, Data(n, BlockOf(image, n))));
    InStepFinishes(port, tid, image, Next(port, y, receive));
    R.Toward(Step(port), Ended(), y, receive);
  }

  /** A client that waits for its first block asks an idle server again. */
  lemma AskingFinishes(port: nat, tid: nat, image: seq<Byte>, y: System)
    requires Inv(port, tid, image, y) && y.client.next == 1 && y.server.bootState == InitArp
    ensures CanFinish(port, y)
  {
    hide R.CanReach, LastBlock, SendData, Honest, Genuine;
    var serve := Serve(ReadRequest(port, TFTP_PORT), y.clock);
    var y1 := Next(port, y, Ask);
    NextKeeps(port, tid, image, y, Ask);
    var y2 := Next(port, y1, serve);
    NextKeeps(port, tid, image, y1, serve);
    Opens(y1.server, port, image, y1.clock);
    JustSent(y1.server.sent, y1.lost, Sent(tid, port, Data(1, BlockOf(image, 1))));
    ArrivalFinishes(port, tid, image, y2);
    R.Toward(Step(port), Ended(), y1, serve);
    R.Toward(Step(port), Ended(), y, Ask);
  }

  /** A client that has a block acknowledges it again: the server goes on from that block, or repeats the
      next one. */
  lemma RepeatFinishes(port: nat, tid: nat, image: seq<Byte>, y: System)
    requires Inv(port, tid, image, y) && y.server.bootState == ClientRrq
    requires 1 < y.client.next <= y.server.blockExpected + 1
    ensures CanFinish(port, y)
  {
    hide R.CanReach, LastBlock, Image, Honest, Genuine, Kick;
    var n, k := y.server.blockExpected, y.client.next - 1;
    var y1 := Next(port, y, Repeat);
    NextKeeps(port, tid, image, y, Repeat);
    if k == n {
      InStepFinishes(port, tid, image, y1);
    } else {
      var serve := Serve(AckPacket(port, tid, k), y.clock);
      NextKeeps(port, tid, image, y1, serve);
      Answers(port, tid, image, y1, k, y.clock);
      JustSent(y1.server.sent, y1.lost, Sent(tid, port, Data(n, BlockOf(image, n))));
      ArrivalFinishes(port, tid, image, Next(port, y1, serve));
      R.Toward(Step(port), Ended(), y1, serve);
    }
    R.Toward(Step(port), Ended(), y, Repeat);
  }

  /** Client and server can get across a total loss: the server is idle, or it is in the transfer, and the
      client has a block to acknowledge and is not past the next one. */
  predicate Recovers(y: System) {
    || y.server.bootState == InitArp
    || 1 < y.client.next <= y.server.blockExpected + 1
  }

  /** The server is in a transfer that no packet of the client moves: the client has no block yet and
      repeats a request that the lock refuses, or it is done, and a late copy of its request has started
      the transfer again. */
  predicate Stuck(port: nat, tid: nat, image: seq<Byte>, y: System) {
    && Inv(port, tid, image, y) && y.server.bootState == ClientRrq
    && (if y.client.next == 1 then
          y.lost == |y.server.sent| && forall p <- y.net :: p == ReadRequest(port, TFTP_PORT)
        else
          && y.client.done && y.server.blockExpected + 1 < y.client.next
          && forall p <- y.net :: p == AckPacket(port, tid, y.client.next - 1))
  }

  lemma StuckStays(port: nat, tid: nat, image: seq<Byte>, y: System, a: Action)
    requires Stuck(port, tid, image, y) && Enabled(y, a)
    ensures Stuck(port, tid, image, Next(port, y, a))
  {
    hide Inv, Kick;
    NextKeeps(port, tid, image, y, a);
    if a.Serve? {
      StuckServer(port, tid, image, y, a.packet, a.now);
    }
    StuckClient(port, tid, image, y, a);
  }

  lemma StuckServer(port: nat, tid: nat, image: seq<Byte>, y: System, p: Packet, now: nat)
    requires Stuck(port, tid, image, y) && p in y.net
    ensures var s := Kick(y.server, p, now);
            && s.bootState == ClientRrq && s.blockExpected == y.server.blockExpected
            && (y.client.next == 1 ==> s.sent == y.server.sent)
  {
    hide SendData, Read, LastBlock;
    SendsBlock(y.server.(clientPort := port), y.server.blockExpected);
  }

  lemma StuckClient(port: nat, tid: nat, image: seq<Byte>, y: System, a: Action)
    requires Stuck(port, tid, image, y) && Enabled(y, a)
    ensures Next(port, y, a).client == y.client
    ensures y.client.next == 1 ==> !a.Receive? && !a.Repeat?
    ensures y.client.next > 1 ==> y.client.tid == Some(tid) && !a.Ask?
  {
    hide LastBlock, Kick;
  }

  lemma StuckForever(port: nat, tid: nat, image: seq<Byte>, y: System)
    requires Stuck(port, tid, image, y)
    ensures !CanFinish(port, y)
  {
    hide Inv, Enabled, Next, R.CanReach;
    forall z, a | Stuck(port, tid, image, z) && Enabled(z, a)
      ensures Stuck(port, tid, image, Next(port, z, a))
    {
      StuckStays(port, tid, image, z, a);
    }
    R.NeverThere(Step(port), z => Stuck(port, tid, image, z), Ended(), y);
  }

  /** After any run, should everything on its way be lost, client and server can still finish exactly
      when Recovers holds.  It fails while the first block has been sent and not received. */
  lemma FinishesAfterLoss(port: nat, server: Server, actions: seq<Action>)
    requires Idle(server) && Runs(port, Start(server), actions)
    ensures var y := After(port, Start(server), actions);
            CanFinish(port, Next(port, y, Lose)) <==> Recovers(y)
  {
    hide LastBlock, Image, R.CanReach, R.Possible, R.After, Honest, Genuine, Fixed;
    var tid, image, y := server.serverPort, Image(server), After(port, Start(server), actions);
    StartInv(port, server);
    AfterInv(port, tid, image, Start(server), actions);
    var z := Next(port, y, Lose);
    NextKeeps(port, tid, image, y, Lose);
    if z.server.bootState == InitArp {
      if z.client.done {
        R.AlreadyThere(Step(port), Ended(), z);
      } else {
        AskingFinishes(port, tid, image, z);
      }
    } else if Recovers(z) {
      RepeatFinishes(port, tid, image, z);
    } else {
      StuckForever(port, tid, image, z);
    }
  }

  /** Every image can be downloaded: from an idle server some run brings the client all of it and the
      server back to idle. */
  lemma DownloadFinishes(port: nat, server: Server) returns (actions: seq<Action>)
    requires Idle(server)
    ensures Runs(port, Start(server), actions)
    ensures var z := After(port, Start(server), actions);
            z.client.done && z.client.data == Image(server) && z.server.bootState == InitArp
  {
    hide Image, R.Possible, R.After;
    StartInv(port, server);
    AskingFinishes(port, server.serverPort, Image(server), Start(server));
    actions :| R.Reaches(Step(port), Ended(), Start(server), actions);
    DownloadSafety(port, server, actions);
  }

  /** The first block is sent and does not arrive. */
  function FirstLost(port: nat, now: nat): seq<Action> {
    [Ask] + ([Serve(ReadRequest(port, TFTP_PORT), now)] + ([Lose] + []))
  }

  /** From there the download cannot finish: the server waits for an acknowledgement of the block, and the
      lock refuses the repeated request. */
  lemma FirstLostWedges(port: nat, server: Server)
    requires Idle(server)
    ensures Runs(port, Start(server), FirstLost(port, server.rxKickoff))
    ensures !CanFinish(port, After(port, Start(server), FirstLost(port, server.rxKickoff)))
  {
    hide R.Possible, R.After, LastBlock, SendData, R.CanReach, Inv;
    var tid, image, serve := server.serverPort, Image(server), Serve(ReadRequest(port, TFTP_PORT), server.rxKickoff);
    var y1 := Next(port, Start(server), Ask);
    var y2 := Next(port, y1, serve);
    var y3 := Next(port, y2, Lose);
    StartInv(port, server);
    NextKeeps(port, tid, image, Start(server), Ask);
    NextKeeps(port, tid, image, y1, serve);
    NextKeeps(port, tid, image, y2, Lose);
    Opens(y1.server, port, image, y1.clock);
    R.ThreeSteps(Step(port), Start(server), Ask, serve, Lose);
    StuckForever(port, tid, image, y3);
  }
}
