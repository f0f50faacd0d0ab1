/**
 What the TFTP server of eth_tftpd.c does with each packet, in server mode: the state and event table,
 the handlers behind it and the choice of the event.
 */
module TftpModel {
  import opened Bits

  const TFTP_PORT := 69
  const BLOCK := 512
  const BOOT_START := 0x8000_0000
  const TEST_NAME := "nfjrom"
  const BOOT_NAME := "boot.img"
  const TIMEOUT := 2000

  datatype BootState = InitArp | ClientRrq | ClientWrq

  /** Jumped: the uploaded image was started.  Fault: a memcpy with a negative length. */
  datatype Status = Running | Jumped | Fault

  datatype Packet =
    | ReadRequest(src: nat, dest: nat)
    | WriteRequest(src: nat, dest: nat, name: string)
    | DataPacket(src: nat, dest: nat, block: nat, bytes: seq<Byte>)
    | AckPacket(src: nat, dest: nat, block: nat)
    | ErrorPacket
    | OptionAck

  datatype Body = Ack(block: nat) | Data(block: nat, bytes: seq<Byte>)

  datatype Sent = Sent(src: nat, dest: nat, body: Body)

  /** What has just been sent is among the messages since any earlier point. */
  lemma JustSent(sent: seq<Sent>, lost: nat, m: Sent)
    requires lost <= |sent|
    ensures m in (sent + [m])[lost..]
  {
    assert (sent + [m])[lost..][|sent| - lost] == m;
  }

  datatype Memory = Memory(cells: map<int, Byte>) {
    function At(a: int): Byte { if a in cells then cells[a] else 0 }
  }

  /** Memory that nothing has written reads as 0. */
  function Read(memory: Memory, a: int, n: nat): (bytes: seq<Byte>)
    ensures |bytes| == n
  {
    seq<Byte>(n, i requires 0 <= i < n => memory.At(a + i))
  }

  function Write(memory: Memory, a: int, bytes: seq<Byte>): Memory {
    Memory(memory.cells + (map x: int | a <= x < a + |bytes| :: ByteFor(bytes, a, x)))
  }

  function ByteFor(bytes: seq<Byte>, a: int, x: int): Byte
    requires a <= x < a + |bytes|
  {
    bytes[x - a]
  }

  /** What was written is read back, and nothing else changes. */
  lemma WriteReads(memory: Memory, a: int, bytes: seq<Byte>)
    ensures Read(Write(memory, a, bytes), a, |bytes|) == bytes
    ensures forall x :: !(a <= x < a + |bytes|) ==> Write(memory, a, bytes).At(x) == memory.At(x)
  {
    assert forall i :: 0 <= i < |bytes| ==> Write(memory, a, bytes).At(a + i) == bytes[i];
  }

  datatype Server = Server(
    status: Status,
    bootState: BootState,
    blockExpected: nat,
    addressToStore: int,
    imageAddress: int,
    lengthToServer: nat,
    lengthToClient: nat,
    lock: bool,
    eof: bool,
    serverPort: nat,
    clientPort: nat,
    jumpToTest: bool,
    rxKickoff: nat,
    memory: Memory,
    sent: seq<Sent>
  )

  function Emit(s: Server, body: Body): Server {
    s.(sent := s.sent + [Sent(s.serverPort, s.clientPort, body)])
  }

  /** tftpd_send_data: block n of the image, and whether it is the last one. */
  function SendData(s: Server, n: nat): Server {
    var address := s.imageAddress + BLOCK * (n - 1);
    if BLOCK * n == s.lengthToClient + BLOCK then Emit(s, Data(n, [])).(eof := true)
    else if BLOCK * n > s.lengthToClient then
      var length := s.lengthToClient - BLOCK * (n - 1);
      if length < 0 then s.(eof := true, status := Fault)
      else Emit(s, Data(n, Read(s.memory, address, length))).(eof := true)
    else Emit(s, Data(n, Read(s.memory, address, BLOCK)))
  }

  /** setTFTP_RRQ. */
  function BeginRead(s: Server, src: nat, dest: nat): Server {
    if dest != TFTP_PORT then s
    else SendData(s.(clientPort := src, lock := true), 1).(blockExpected := 1, bootState := ClientRrq)
  }

  /** strstr finds something. */
  predicate Contains(name: string, part: string) {
    exists i :: 0 <= i <= |name| && part <= name[i..]
  }

  /** Where an upload of this name goes, and whether the image is started afterwards. */
  function Destination(image: int, name: string): int {
    if !Contains(name, TEST_NAME) && name == BOOT_NAME then BOOT_START else image
  }

  predicate JumpAfter(jump: bool, name: string) {
    Contains(name, TEST_NAME) || name == BOOT_NAME || jump
  }

  /** setTFTP_WRQ. */
  function BeginWrite(s: Server, src: nat, dest: nat, name: string): Server {
    if dest != TFTP_PORT then s
    else
      var a := Destination(s.imageAddress, name);
      s.(clientPort := src, jumpToTest := JumpAfter(s.jumpToTest, name), imageAddress := a, addressToStore := a,
         lengthToServer := 0, sent := s.sent + [Sent(s.serverPort, src, Ack(0))],
         blockExpected := 1, lock := true, bootState := ClientWrq)
  }

  /** prepareACK: store the expected block, or repeat the acknowledgement of the one before it. */
  function ReceiveData(s: Server, src: nat, dest: nat, block: nat, bytes: seq<Byte>): Server {
    if dest != s.serverPort then s
    else if block != s.blockExpected then Emit(s.(clientPort := src), Ack((s.blockExpected - 1) % 0x1_0000))
    else
      var stored := s.(clientPort := src,
                       memory := Write(s.memory, s.addressToStore, bytes),
                       addressToStore := s.addressToStore + |bytes|,
                       lengthToServer := s.lengthToServer + |bytes|,
                       sent := s.sent + [Sent(s.serverPort, src, Ack(s.blockExpected))],
                       blockExpected := (s.blockExpected + 1) % 0x1_0000);
      if |bytes| < BLOCK then FinishUpload(stored) else stored
  }

  function FinishUpload(s: Server): Server {
    s.(blockExpected := 0, addressToStore := s.imageAddress, lengthToClient := s.lengthToServer,
       eof := false, bootState := InitArp, lock := false, serverPort := (s.serverPort + 1) % 0x1_0000,
       jumpToTest := false, status := if s.jumpToTest then Jumped else s.status)
  }

  /** prepareDATA: the next block, or the expected one again. */
  function ReceiveAck(s: Server, src: nat, dest: nat, block: nat): Server {
    if dest != s.serverPort then s
    else if block != s.blockExpected then SendData(s.(clientPort := src), s.blockExpected)
    else
      var next := s.(clientPort := src, blockExpected := (s.blockExpected + 1) % 0x1_0000);
      if !s.eof then SendData(next, next.blockExpected)
      else next.(bootState := InitArp, lock := false, blockExpected := 0, eof := false)
  }

  /** The entries of BootStateEvent. */
  function Handle(s: Server, p: Packet): Server {
    match p
    case ReadRequest(src, dest) =>
      if s.bootState == ClientWrq then s.(bootState := InitArp) else BeginRead(s, src, dest)
    case WriteRequest(src, dest, name) =>
      if s.bootState == ClientRrq then s.(bootState := InitArp) else BeginWrite(s, src, dest, name)
    case DataPacket(src, dest, block, bytes) =>
      if s.bootState == InitArp then s else ReceiveData(s, src, dest, block, bytes)
    case AckPacket(src, dest, block) =>
      if s.bootState == InitArp then s else ReceiveAck(s, src, dest, block)
    case ErrorPacket => s.(bootState := InitArp)
    case OptionAck => s.(bootState := InitArp)
  }

  /** The lock lets a second write request through before the first block or after 20 seconds. */
  predicate WriteAllowed(s: Server, now: nat) {
    !s.lock || s.blockExpected == 1 || (now - s.rxKickoff) % 0x1_0000_0000 > TIMEOUT
  }

  /** kick_tftpd, for a packet that passed the header checks, at tick `now`. */
  function Kick(s: Server, p: Packet, now: nat): Server {
    if s.status != Running then s
    else
      match p
      case ReadRequest(_, _) => if s.lock then s else Handle(s, p)
      case WriteRequest(_, _, _) => if WriteAllowed(s, now) then Handle(s.(rxKickoff := now), p) else s
      case DataPacket(_, _, _, _) => Handle(s.(rxKickoff := now), p)
      case _ => Handle(s, p)
  }

  /** tftpd_entry. */
  function Entry(image: int, memory: Memory, clientPort: nat): Server {
    Server(Running, InitArp, 0, image, image, 0, 0, false, false, 2098, clientPort, false, 0, memory, [])
  }

  // ---------------------------------------------------------------------------------------
  // Where an upload goes.

  predicate Around(name: string, before: string, part: string, after: string) {
    name == before + part + after
  }

  /** strstr finds the part exactly when the name is something, the part, and something. */
  lemma ContainsIs(name: string, part: string)
    ensures Contains(name, part) <==> exists before, after :: Around(name, before, part, after)
  {
    if i :| 0 <= i <= |name| && part <= name[i..] {
      assert Around(name, name[..i], part, name[i + |part|..]);
    }
    forall before, after | Around(name, before, part, after)
      ensures Contains(name, part)
    {
      assert name[|before|..] == part + after;
    }
  }

  lemma BootIsNoTest()
    ensures !Contains("boot.img", "nfjrom")
  {
    forall i | 0 <= i <= 8
      ensures !("nfjrom" <= "boot.img"[i..])
    {
      if i <= 2 {
        assert "boot.img"[i..][0] == "boot.img"[i] != 'n';
      }
    }
  }

  /** The place and the jump, from the text of the name. */
  lemma PlaceIs(image: int, jump: bool, name: string)
    ensures Destination(image, name) == if name == "boot.img" then 0x8000_0000 else image
    ensures JumpAfter(jump, name) <==>
            (exists before, after :: Around(name, before, "nfjrom", after)) || name == "boot.img" || jump
  {
    hide Contains;
    BootIsNoTest();
    ContainsIs(name, "nfjrom");
  }

  /** An accepted write request puts the upload at the image address, which is 0x80000000 from then on if the
      name is "boot.img" and as it was otherwise; the image will be started if the name is "boot.img" or
      contains "nfjrom", or if that was decided before. */
  lemma WritePlaces(s: Server, src: nat, name: string, now: nat)
    requires s.status == Running && s.bootState != ClientRrq && WriteAllowed(s, now)
    ensures var t := Kick(s, WriteRequest(src, 69, name), now);
            && t.addressToStore == t.imageAddress == (if name == "boot.img" then 0x8000_0000 else s.imageAddress)
            && (t.jumpToTest <==>
                (exists before, after :: Around(name, before, "nfjrom", after)) || name == "boot.img" || s.jumpToTest)
            && t.lengthToServer == 0 && t.blockExpected == 1 && t.bootState == ClientWrq && t.lock
            && t.clientPort == src && t.sent == s.sent + [Sent(s.serverPort, src, Ack(0))] && t.memory == s.memory
  {
    hide Contains, Destination, JumpAfter;
    PlaceIs(s.imageAddress, s.jumpToTest, name);
  }

  // ---------------------------------------------------------------------------------------
  // Files in blocks.

  function LastBlock(length: nat): (n: nat)
    ensures n >= 1 && BLOCK * (n - 1) <= length < BLOCK * n
  {
    length / BLOCK + 1
  }

  /** How much of a file of this length the first n blocks hold. */
  function Reach(length: nat, n: nat): (r: nat)
    ensures r <= length && (n < LastBlock(length) ==> r == BLOCK * n) && (n >= LastBlock(length) ==> r == length)
  {
    if BLOCK * n <= length then BLOCK * n else length
  }

  function BlockOf(file: seq<Byte>, n: nat): (b: seq<Byte>)
    requires 1 <= n <= LastBlock(|file|)
    ensures |b| == Reach(|file|, n) - Reach(|file|, n - 1)
    ensures |b| < BLOCK <==> n == LastBlock(|file|)
  {
    file[Reach(|file|, n - 1)..Reach(|file|, n)]
  }

  function Concat(file: seq<Byte>, n: nat): seq<Byte>
    requires n <= LastBlock(|file|)
    decreases n
  {
    if n == 0 then [] else Concat(file, n - 1) + BlockOf(file, n)
  }

  /** The blocks of a file concatenate to its prefixes, and all of them to the file; of these exactly the
      last is shorter than 512 bytes. */
  lemma {:induction false} BlocksSpell(file: seq<Byte>, n: nat)
    requires n <= LastBlock(|file|)
    ensures Concat(file, n) == file[..Reach(|file|, n)]
    ensures n == LastBlock(|file|) ==> Concat(file, n) == file
    ensures forall k :: 1 <= k <= n ==> |BlockOf(file, k)| <= 512 && (|BlockOf(file, k)| < 512 <==> k == LastBlock(|file|))
    decreases n
  {
    if n > 0 {
      BlocksSpell(file, n - 1);
      assert file[..Reach(|file|, n - 1)] + BlockOf(file, n) == file[..Reach(|file|, n)];
    }
  }

  /** For every stored length: tftpd_send_data sends exactly block n of the image for every n up to the
      last, it is shorter than 512 bytes only for the last, and that is when it raises the end flag;
      past the last block the length is negative. */
  lemma SendsBlock(s: Server, n: nat)
    requires n >= 1
    ensures var image := Read(s.memory, s.imageAddress, s.lengthToClient);
            if n <= LastBlock(s.lengthToClient)
            then SendData(s, n) == Emit(s, Data(n, BlockOf(image, n))).(eof := s.eof || n == LastBlock(s.lengthToClient))
            else SendData(s, n) == s.(eof := true, status := Fault)
  {
    var image := Read(s.memory, s.imageAddress, s.lengthToClient);
    var address := s.imageAddress + BLOCK * (n - 1);
    if n < LastBlock(s.lengthToClient) {
      assert Read(s.memory, address, BLOCK) == BlockOf(image, n);
    } else if n == LastBlock(s.lengthToClient) {
      var length := s.lengthToClient - BLOCK * (n - 1);
      assert Read(s.memory, address, length) == BlockOf(image, n);
      assert length == 0 ==> BlockOf(image, n) == [];
    }
  }

  /** The two transfers share their handlers.  During a download, a full data block of the expected number at
      the server's port is stored where the last upload ended, and acknowledged; a write request that is let
      through ends the download without an answer. */
  lemma UploadPacketsInDownload(s: Server, src: nat, bytes: seq<Byte>, name: string, now: nat)
    requires s.status == Running && s.bootState == ClientRrq
    ensures |bytes| == 512 ==>
              var t := Kick(s, DataPacket(src, s.serverPort, s.blockExpected, bytes), now);
              && Read(t.memory, s.addressToStore, 512) == bytes && t.addressToStore == s.addressToStore + 512
              && t.sent == s.sent + [Sent(s.serverPort, src, Ack(s.blockExpected))] && t.bootState == ClientRrq
    ensures WriteAllowed(s, now) ==>
              Kick(s, WriteRequest(src, 69, name), now) == s.(rxKickoff := now, bootState := InitArp)
  {
    hide Read, Write, Contains;
    WriteReads(s.memory, s.addressToStore, bytes);
  }

  /** During an upload, an acknowledgement of another block than the expected one is answered with that block
      of the image. */
  lemma AcksInUpload(s: Server, src: nat, block: nat, now: nat)
    requires s.status == Running && s.bootState == ClientWrq && block != s.blockExpected
    requires 1 <= s.blockExpected <= LastBlock(s.lengthToClient)
    ensures var t := Kick(s, AckPacket(src, s.serverPort, block), now);
            var image := Read(s.memory, s.imageAddress, s.lengthToClient);
            && t.sent == s.sent + [Sent(s.serverPort, src, Data(s.blockExpected, BlockOf(image, s.blockExpected)))]
            && t.bootState == ClientWrq && t.memory == s.memory && t.blockExpected == s.blockExpected
  {
    hide Read, LastBlock, SendData;
    SendsBlock(s.(clientPort := src), s.blockExpected);
  }

  /** Between transfers nothing but a request changes the server, apart from the time of the latest packet. */
  lemma IdleDrops(s: Server, p: Packet, now: nat)
    requires s.bootState == InitArp && !p.ReadRequest? && !p.WriteRequest?
    ensures Kick(s, p, now) == s.(rxKickoff := Kick(s, p, now).rxKickoff)
  {
    hide Contains;
  }

  /** The first n blocks of a file lie in memory from a on. */
  predicate Stored(memory: Memory, a: int, file: seq<Byte>, n: nat) {
    Read(memory, a, Reach(|file|, n)) == file[..Reach(|file|, n)]
  }

  lemma StoredAt(memory: Memory, a: int, file: seq<Byte>, n: nat)
    ensures Stored(memory, a, file, n) <==>
            forall i :: 0 <= i < Reach(|file|, n) ==> file[i] == memory.At(a + i)
  {
    var r := Reach(|file|, n);
    var read := Read(memory, a, r);
    if forall i :: 0 <= i < r ==> file[i] == memory.At(a + i) {
      assert forall i :: 0 <= i < r ==> read[i] == file[..r][i];
    }
    if Stored(memory, a, file, n) {
      assert forall i :: 0 <= i < r ==> file[i] == read[i];
    }
  }

  /** Writing block k where it belongs keeps every prefix that is there and extends the one before it. */
  lemma WriteStores(memory: Memory, a: int, file: seq<Byte>, k: nat, n: nat)
    requires 1 <= k <= LastBlock(|file|) && Stored(memory, a, file, n)
    ensures Stored(Write(memory, a + BLOCK * (k - 1), BlockOf(file, k)), a, file, n)
    ensures k == n + 1 ==> Stored(Write(memory, a + BLOCK * (k - 1), BlockOf(file, k)), a, file, k)
  {
    var after := Write(memory, a + BLOCK * (k - 1), BlockOf(file, k));
    StoredAt(memory, a, file, n);
    StoredAt(after, a, file, n);
    StoredAt(after, a, file, k);
    assert Reach(|file|, k - 1) == BLOCK * (k - 1);
    forall i | 0 <= i < |file| && (i < Reach(|file|, n) || Reach(|file|, k - 1) <= i < Reach(|file|, k))
      ensures file[i] == after.At(a + i)
    {
      if Reach(|file|, k - 1) <= i < Reach(|file|, k) {
        assert after.At(a + i) == BlockOf(file, k)[i - BLOCK * (k - 1)];
      }
    }
  }

  // ---------------------------------------------------------------------------------------
  // The lock.

  /** A transfer in progress holds the lock; a free lock means no transfer and no end flag. */
  predicate Locked(s: Server) {
    && (s.bootState != InitArp ==> s.lock)
    && (!s.lock ==> s.bootState == InitArp && !s.eof)
  }

  datatype Arrival = Arrival(packet: Packet, now: nat)

  function KickAll(s: Server, arrivals: seq<Arrival>): Server
    decreases |arrivals|
  {
    if arrivals == [] then s else KickAll(Kick(s, arrivals[0].packet, arrivals[0].now), arrivals[1..])
  }

  lemma KickLocks(s: Server, p: Packet, now: nat)
    requires Locked(s)
    ensures Locked(Kick(s, p, now))
  {
    hide Contains, Read, Write;
  }

  /** Over every sequence of packets, errors and abandoned transfers included. */
  lemma {:induction false} AlwaysLocked(s: Server, arrivals: seq<Arrival>)
    requires Locked(s)
    ensures Locked(KickAll(s, arrivals))
    decreases |arrivals|
  {
    if arrivals != [] {
      KickLocks(s, arrivals[0].packet, arrivals[0].now);
      AlwaysLocked(Kick(s, arrivals[0].packet, arrivals[0].now), arrivals[1..]);
    }
  }

  lemma {:induction false} KickLast(s: Server, arrivals: seq<Arrival>, k: nat)
    requires k < |arrivals|
    ensures KickAll(s, arrivals[..k + 1]) == Kick(KickAll(s, arrivals[..k]), arrivals[k].packet, arrivals[k].now)
    decreases k
  {
    hide Kick;
    if k == 0 {
      assert arrivals[..1][1..] == [] && arrivals[..0] == [];
    } else {
      assert arrivals[..k + 1][1..] == arrivals[1..][..k] && arrivals[..k][1..] == arrivals[1..][..k - 1];
      KickLast(Kick(s, arrivals[0].packet, arrivals[0].now), arrivals[1..], k - 1);
    }
  }

  /** The server after the first k arrivals. */
  function Then(s: Server, arrivals: seq<Arrival>, k: nat): Server
    requires k <= |arrivals|
  {
    KickAll(s, arrivals[..k])
  }

  /** In every reachable state a read request is answered exactly when the server runs and the lock is
      free.  It then finds no transfer and no stale end flag: the answer is block 1 of the stored image,
      and the end flag is up exactly when that is the only block.  In particular the table's read-request
      entry of state ClientRrq is never used. */
  lemma ReadsStartClean(image: int, memory: Memory, port: nat, arrivals: seq<Arrival>, p: Packet, now: nat)
    requires p.ReadRequest? && p.dest == 69
    ensures var s := KickAll(Entry(image, memory, port), arrivals);
            var t := Kick(s, p, now);
            && (t != s <==> s.status == Running && !s.lock)
            && (t != s ==>
                  && s.bootState == InitArp && !s.eof
                  && t == Emit(s.(clientPort := p.src), Data(1, BlockOf(Read(s.memory, s.imageAddress, s.lengthToClient), 1)))
                          .(lock := true, blockExpected := 1, bootState := ClientRrq, eof := s.lengthToClient < BLOCK))
  {
    AlwaysLocked(Entry(image, memory, port), arrivals);
    var s := KickAll(Entry(image, memory, port), arrivals);
    SendsBlock(s.(clientPort := p.src, lock := true), 1);
  }

  /** The packet completes a transfer: the short block of an upload, or the acknowledgement of the last
      block sent. */
  predicate Completes(s: Server, p: Packet) {
    && s.status == Running && s.bootState != InitArp
    && ((p.DataPacket? && p.dest == s.serverPort && p.block == s.blockExpected && |p.bytes| < BLOCK)
        || (p.AckPacket? && p.dest == s.serverPort && p.block == s.blockExpected && s.eof))
  }

  /** The lock is released by exactly those packets. */
  lemma ReleasedByCompletion(s: Server, p: Packet, now: nat)
    requires s.lock
    ensures !Kick(s, p, now).lock <==> Completes(s, p)
  {
    hide Write, Read, Contains;
  }

  /** An error in the middle of a transfer ends it and keeps the lock. */
  lemma ErrorKeepsLock(image: int, memory: Memory, port: nat, arrivals: seq<Arrival>, p: Packet, now: nat)
    requires p.ErrorPacket? || p.OptionAck?
    requires var s := KickAll(Entry(image, memory, port), arrivals); s.status == Running && s.bootState != InitArp
    ensures var t := Kick(KickAll(Entry(image, memory, port), arrivals), p, now); t.bootState == InitArp && t.lock
  {
    AlwaysLocked(Entry(image, memory, port), arrivals);
  }

  /** The packet completes a transfer, and the server goes on: it does not start the uploaded image. */
  predicate Reopens(s: Server, p: Packet) {
    Completes(s, p) && !(p.DataPacket? && s.jumpToTest)
  }

  lemma ReopensIs(s: Server, p: Packet, now: nat)
    requires s.lock || s.status != Running
    ensures var t := Kick(s, p, now); t.status == Running && !t.lock <==> Reopens(s, p)
  {
    hide Write, Read, Contains;
    if s.lock {
      ReleasedByCompletion(s, p, now);
    }
  }

  predicate Open(s: Server) { s.status == Running && !s.lock }

  lemma OpenStep(s: Server, arrivals: seq<Arrival>, k: nat)
    requires k < |arrivals| && !Open(Then(s, arrivals, k))
    ensures Open(Then(s, arrivals, k + 1)) <==> Reopens(Then(s, arrivals, k), arrivals[k].packet)
  {
    hide Kick, Reopens;
    KickLast(s, arrivals, k);
    ReopensIs(Then(s, arrivals, k), arrivals[k].packet, arrivals[k].now);
  }

  lemma OpenOnlyByReopening(s: Server, arrivals: seq<Arrival>)
    requires !Open(s)
    ensures (forall k :: 0 <= k <= |arrivals| ==> !Open(Then(s, arrivals, k))) <==>
            (forall k :: 0 <= k < |arrivals| ==> !Reopens(Then(s, arrivals, k), arrivals[k].packet))
  {
    hide Kick, Reopens, Open;
    assert arrivals[..0] == [];
    var n := 0;
    while n < |arrivals| && !Reopens(Then(s, arrivals, n), arrivals[n].packet)
      invariant n <= |arrivals| && forall k :: 0 <= k <= n ==> !Open(Then(s, arrivals, k))
      invariant forall k :: 0 <= k < n ==> !Reopens(Then(s, arrivals, k), arrivals[k].packet)
    {
      OpenStep(s, arrivals, n);
      n := n + 1;
    }
    if n < |arrivals| {
      OpenStep(s, arrivals, n);
    }
  }

  lemma {:induction false} KickAllAppend(s: Server, a: seq<Arrival>, b: seq<Arrival>)
    ensures KickAll(s, a + b) == KickAll(KickAll(s, a), b)
    decreases |a|
  {
    hide Kick;
    if a == [] {
      assert a + b == b;
    } else {
      assert (a + b)[1..] == a[1..] + b;
      KickAllAppend(Kick(s, a[0].packet, a[0].now), a[1..], b);
    }
  }

  /** From any reachable state in which a transfer holds the lock, abandoned or not, every read request is
      refused through whatever arrives, exactly when none of the packets completes a transfer after which
      the server goes on.  A write request alone does not end this. */
  lemma LockedOut(image: int, memory: Memory, port: nat, before: seq<Arrival>, arrivals: seq<Arrival>, p: Packet, now: nat)
    requires p.ReadRequest? && p.dest == TFTP_PORT
    requires KickAll(Entry(image, memory, port), before).lock
    ensures var s := KickAll(Entry(image, memory, port), before);
            (forall k :: 0 <= k <= |arrivals| ==> Kick(Then(s, arrivals, k), p, now) == Then(s, arrivals, k)) <==>
            (forall k :: 0 <= k < |arrivals| ==> !Reopens(Then(s, arrivals, k), arrivals[k].packet))
  {
    hide Kick, Reopens;
    var s := KickAll(Entry(image, memory, port), before);
    forall k | 0 <= k <= |arrivals|
      ensures Kick(Then(s, arrivals, k), p, now) != Then(s, arrivals, k) <==> Open(Then(s, arrivals, k))
    {
      KickAllAppend(Entry(image, memory, port), before, arrivals[..k]);
      ReadsStartClean(image, memory, port, before + arrivals[..k], p, now);
    }
    OpenOnlyByReopening(s, arrivals);
  }

  /** A transfer that ended in an error, and a write request that was accepted after it. */
  function ErrorThenWrite(c: nat, name: string): seq<Arrival> {
    [Arrival(ReadRequest(c, TFTP_PORT), 0), Arrival(ErrorPacket, 1), Arrival(WriteRequest(c, TFTP_PORT, name), 2)]
  }

  /** After it the server is in the upload, and still refuses every read request. */
  lemma WriteDoesNotReopen(image: int, memory: Memory, port: nat, c: nat, name: string, p: Packet, now: nat)
    requires p.ReadRequest?
    ensures var s := KickAll(Entry(image, memory, port), ErrorThenWrite(c, name));
            s.bootState == ClientWrq && s.lock && Kick(s, p, now) == s
  {
    hide Contains, Read;
    var all, s := ErrorThenWrite(c, name), Entry(image, memory, port);
    var s1 := Kick(s, all[0].packet, 0);
    var s2 := Kick(s1, all[1].packet, 1);
    var s3 := Kick(s2, all[2].packet, 2);
    assert all[1..][1..][1..] == [] && all[1..][1..][0] == all[2] && all[1..][0] == all[1];
    assert KickAll(s2, all[1..][1..]) == KickAll(s3, []) == s3;
    assert KickAll(s1, all[1..]) == s3;
  }

  /** A write request at port 69 moves the server exactly when it runs, and the lock is free, or the first
      block is still expected, or more than 20 seconds of 100 ticks have passed. */
  lemma WritesTaken(s: Server, p: Packet, now: nat)
    requires p.WriteRequest? && p.dest == 69
    ensures Kick(s, p, now) != s <==>
            s.status == Running && (!s.lock || s.blockExpected == 1 || (now - s.rxKickoff) % 0x1_0000_0000 > 2000)
  {
    hide Contains;
    if s.status == Running && WriteAllowed(s, now) {
      var t := Kick(s, p, now);
      assert s.bootState == ClientRrq ==> t.bootState != s.bootState;
      assert s.bootState != ClientRrq ==> |t.sent| == |s.sent| + 1;
    }
  }

  /** Only the time of the latest packet differs. */
  predicate SameBut(s: Server, t: Server) {
    t == s.(rxKickoff := t.rxKickoff)
  }

  predicate Restarts(s: Server, a: Arrival) {
    a.packet.WriteRequest? && a.packet.dest == TFTP_PORT && WriteAllowed(s, a.now)
  }

  lemma SameAsItself(s: Server)
    ensures SameBut(s, s)
  {
  }

  lemma FrozenStep(s: Server, arrivals: seq<Arrival>, k: nat)
    requires s.status == Running && s.bootState == InitArp && s.lock && k < |arrivals| && SameBut(s, Then(s, arrivals, k))
    ensures SameBut(s, Then(s, arrivals, k + 1)) <==> !Restarts(Then(s, arrivals, k), arrivals[k])
  {
    hide Contains;
    KickLast(s, arrivals, k);
    var u := Then(s, arrivals, k + 1);
    assert Restarts(Then(s, arrivals, k), arrivals[k]) ==> u.bootState == ClientWrq;
  }

  /** Between an error and the next accepted write request at the TFTP port, and only then, nothing that
      arrives changes the server. */
  lemma FrozenAfterError(s: Server, arrivals: seq<Arrival>)
    requires s.status == Running && s.bootState == InitArp && s.lock
    ensures (forall k :: 0 <= k <= |arrivals| ==> SameBut(s, Then(s, arrivals, k))) <==>
            (forall k :: 0 <= k < |arrivals| ==> !Restarts(Then(s, arrivals, k), arrivals[k]))
  {
    hide Kick, Restarts, SameBut;
    SameAsItself(s);
    assert arrivals[..0] == [];
    var n := 0;
    while n < |arrivals| && !Restarts(Then(s, arrivals, n), arrivals[n])
      invariant n <= |arrivals| && forall k :: 0 <= k <= n ==> SameBut(s, Then(s, arrivals, k))
      invariant forall k :: 0 <= k < n ==> !Restarts(Then(s, arrivals, k), arrivals[k])
    {
      FrozenStep(s, arrivals, n);
      n := n + 1;
    }
    if n < |arrivals| {
      FrozenStep(s, arrivals, n);
    }
  }
}
