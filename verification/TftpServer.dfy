/**
 The TFTP server of eth_tftpd.c in place: the globals, the handlers that update them and the choice of
 the event.
 */
module TftpServer {
  import opened Bits
  import opened TftpModel

  class Tftpd {
    var status: Status
    var bootState: BootState
    var blockExpected: nat
    var addressToStore: int
    var imageAddress: int
    var fileLengthToServer: nat
    var fileLengthToClient: nat
    var oneTftpLock: bool
    var itIsEof: bool
    var serverPort: nat
    var clientPort: nat
    var jumpToTest: bool
    var rxKickoffTime: nat
    var memory: Memory
    var sent: seq<Sent>

    /** The globals as one value. */
    ghost function Value(): Server
      reads this
    {
      Server(status, bootState, blockExpected, addressToStore, imageAddress, fileLengthToServer, fileLengthToClient,
             oneTftpLock, itIsEof, serverPort, clientPort, jumpToTest, rxKickoffTime, memory, sent)
    }

    /** tftpd_entry; the image address and the contents of memory are what was there before. */
    constructor TftpdEntry(image: int, contents: Memory, client: nat)
      ensures Value() == Entry(image, contents, client) && Locked(Value())
      ensures status == Running && bootState == InitArp && !oneTftpLock && !itIsEof && !jumpToTest && sent == []
      ensures imageAddress == addressToStore == image && fileLengthToClient == fileLengthToServer == 0
      ensures serverPort == 2098 && memory == contents
    {
      status := Running;
      bootState := InitArp;
      blockExpected := 0;
      oneTftpLock := false;
      itIsEof := false;
      imageAddress := image;
      addressToStore := image;
      fileLengthToServer := 0;
      fileLengthToClient := 0;
      serverPort := 2098;
      clientPort := client;
      jumpToTest := false;
      rxKickoffTime := 0;
      memory := contents;
      sent := [];
    }

    method SendAck(number: nat)
      modifies `sent
      ensures sent == old(sent) + [Sent(serverPort, clientPort, Ack(number))]
    {
      sent := sent + [Sent(serverPort, clientPort, Ack(number))];
    }

    /** The image a download delivers. */
    ghost function Image(): seq<Byte>
      reads this
    {
      Read(memory, imageAddress, fileLengthToClient)
    }

    /** tftpd_send_data: up to the last block of the image, block n of it; the end flag is up after the last. */
    method SendBlock(n: nat)
      modifies `sent, `itIsEof, `status
      ensures Value() == SendData(old(Value()), n)
      ensures 1 <= n <= LastBlock(fileLengthToClient) ==>
                && sent == old(sent) + [Sent(serverPort, clientPort, Data(n, BlockOf(Image(), n)))]
                && itIsEof == (old(itIsEof) || n == LastBlock(fileLengthToClient))
                && status == old(status)
    {
      hide Read;
      if n > 0 {
        SendsBlock(Value(), n);
      }
      var data := imageAddress + BLOCK * (n - 1);
      var length: int;
      if BLOCK * n == fileLengthToClient + BLOCK {
        length := 0;
        itIsEof := true;
      } else if BLOCK * n > fileLengthToClient {
        length := fileLengthToClient - BLOCK * (n - 1);
        itIsEof := true;
      } else {
        length := BLOCK;
      }
      if length < 0 {
        status := Fault;
        return;
      }
      var bytes := Read(memory, data, length);
      assert length == 0 ==> bytes == [];
      sent := sent + [Sent(serverPort, clientPort, Data(n, bytes))];
    }

    /** A read request at the TFTP port is answered with block 1 of the image and takes the lock. */
    method SetTftpRrq(src: nat, dest: nat)
      modifies `clientPort, `oneTftpLock, `sent, `itIsEof, `status, `blockExpected, `bootState
      ensures Value() == BeginRead(old(Value()), src, dest)
      ensures dest != 69 ==> unchanged(this)
      ensures dest == 69 ==>
                && sent == old(sent) + [Sent(serverPort, src, Data(1, BlockOf(Image(), 1)))]
                && clientPort == src && oneTftpLock && blockExpected == 1 && bootState == ClientRrq
    {
      hide SendData, Read, LastBlock;
      if dest == TFTP_PORT {
        clientPort := src;
        oneTftpLock := true;
        SendBlock(1);
        blockExpected := 1;
        bootState := ClientRrq;
      }
    }

    /** strstr(name, part) != NULL, by trying every start. */
    method Strstr(name: string, part: string) returns (found: bool)
      ensures found == Contains(name, part)
    {
      var i: nat := 0;
      found := false;
      while i <= |name|
        invariant i <= |name| + 1
        invariant forall j :: 0 <= j < i ==> !(part <= name[j..])
      {
        if part <= name[i..] {
          return true;
        }
        i := i + 1;
      }
    }

    /** The file name decides where the upload goes and whether its image is started. */
    method ParseName(name: string) returns (address: int, jump: bool)
      ensures address == Destination(imageAddress, name) && jump == JumpAfter(jumpToTest, name)
    {
      address, jump := imageAddress, jumpToTest;
      var test := Strstr(name, TEST_NAME);
      if test {
        jump := true;
        assert Contains(name, TEST_NAME);
      } else if name == BOOT_NAME {
        jump := true;
        address := BOOT_START;
      }
    }

    /** A write request at the TFTP port is acknowledged as block 0 and starts an upload. */
    method SetTftpWrq(src: nat, dest: nat, name: string)
      modifies `clientPort, `imageAddress, `jumpToTest, `addressToStore, `fileLengthToServer, `sent
      modifies `blockExpected, `oneTftpLock, `bootState
      ensures Value() == BeginWrite(old(Value()), src, dest, name)
      ensures dest != 69 ==> unchanged(this)
      ensures dest == 69 ==>
                && imageAddress == addressToStore == (if name == "boot.img" then 0x8000_0000 else old(imageAddress))
                && (jumpToTest <==> Contains(name, "nfjrom") || name == "boot.img" || old(jumpToTest))
                && fileLengthToServer == 0
                && sent == old(sent) + [Sent(serverPort, src, Ack(0))] && blockExpected == 1 && oneTftpLock
    {
      hide Destination, JumpAfter, Contains;
      PlaceIs(imageAddress, jumpToTest, name);
      ContainsIs(name, "nfjrom");
      if dest == TFTP_PORT {
        var address, jump := ParseName(name);
        StartUpload(src, address, jump);
      }
    }

    /** What setTFTP_WRQ does once the name has been parsed: the transfer starts over at the address. */
    method StartUpload(src: nat, address: int, jump: bool)
      modifies `clientPort, `imageAddress, `jumpToTest, `addressToStore, `fileLengthToServer, `sent
      modifies `blockExpected, `oneTftpLock, `bootState
      ensures clientPort == src && jumpToTest == jump
      ensures imageAddress == addressToStore == address && fileLengthToServer == 0
      ensures sent == old(sent) + [Sent(serverPort, src, Ack(0))]
      ensures blockExpected == 1 && oneTftpLock && bootState == ClientWrq
    {
      clientPort := src;
      imageAddress := address;
      jumpToTest := jump;
      addressToStore := imageAddress;
      fileLengthToServer := 0;
      SendAck(0);
      blockExpected := 1;
      oneTftpLock := true;
      bootState := ClientWrq;
    }

    /** The end of prepareACK, after a short block: what was stored is what a download will offer. */
    method LastPacket()
      modifies `blockExpected, `addressToStore, `fileLengthToClient, `itIsEof, `bootState, `oneTftpLock
      modifies `serverPort, `jumpToTest, `status
      ensures blockExpected == 0 && addressToStore == imageAddress && fileLengthToClient == fileLengthToServer
      ensures !itIsEof && bootState == InitArp && !oneTftpLock && serverPort == (old(serverPort) + 1) % 0x1_0000
      ensures !jumpToTest && status == if old(jumpToTest) then Jumped else old(status)
    {
      blockExpected := 0;
      addressToStore := imageAddress;
      fileLengthToClient := fileLengthToServer;
      itIsEof := false;
      bootState := InitArp;
      oneTftpLock := false;
      serverPort := (serverPort + 1) % 0x1_0000;
      if jumpToTest {
        jumpToTest := false;
        status := Jumped;
      }
    }

    /** The expected block goes to memory and is acknowledged. */
    method StoreBlock(src: nat, bytes: seq<Byte>)
      modifies `clientPort, `memory, `addressToStore, `fileLengthToServer, `sent, `blockExpected
      ensures clientPort == src && memory == Write(old(memory), old(addressToStore), bytes)
      ensures addressToStore == old(addressToStore) + |bytes| && fileLengthToServer == old(fileLengthToServer) + |bytes|
      ensures sent == old(sent) + [Sent(serverPort, src, Ack(old(blockExpected)))]
      ensures blockExpected == (old(blockExpected) + 1) % 0x1_0000
    {
      hide Write;
      clientPort := src;
      memory := Write(memory, addressToStore, bytes);
      addressToStore := addressToStore + |bytes|;
      fileLengthToServer := fileLengthToServer + |bytes|;
      SendAck(blockExpected);
      blockExpected := (blockExpected + 1) % 0x1_0000;
    }

    /** Of the data packets at the server's port, the expected block is stored and nothing else in memory
        changes; any other only repeats an acknowledgement. */
    method PrepareAck(src: nat, dest: nat, block: nat, bytes: seq<Byte>)
      modifies this
      ensures Value() == ReceiveData(old(Value()), src, dest, block, bytes)
      ensures dest != old(serverPort) ==> unchanged(this)
      ensures dest == old(serverPort) && block == old(blockExpected) ==>
                && Read(memory, old(addressToStore), |bytes|) == bytes
                && (forall x :: !(old(addressToStore) <= x < old(addressToStore) + |bytes|) ==> memory.At(x) == old(memory).At(x))
                && sent == old(sent) + [Sent(dest, src, Ack(block))]
      ensures block != old(blockExpected) ==> memory == old(memory) && blockExpected == old(blockExpected)
      ensures dest == old(serverPort) && block != old(blockExpected) ==>
                sent == old(sent) + [Sent(dest, src, Ack((old(blockExpected) - 1) % 0x1_0000))]
    {
      hide Write, Read;
      if dest == serverPort {
        if block != blockExpected {
          clientPort := src;
          SendAck((blockExpected - 1) % 0x1_0000);
        } else {
          WriteReads(memory, addressToStore, bytes);
          StoreBlock(src, bytes);
          if |bytes| < BLOCK {
            LastPacket();
          }
        }
      }
    }

    /** The end of prepareDATA, after the acknowledgement of the last block. */
    method EndDownload()
      modifies `bootState, `oneTftpLock, `blockExpected, `itIsEof
      ensures bootState == InitArp && !oneTftpLock && blockExpected == 0 && !itIsEof
    {
      bootState := InitArp;
      oneTftpLock := false;
      blockExpected := 0;
      itIsEof := false;
    }

    /** An acknowledgement of the expected block brings the next one, or after the last the end; any other
        brings the expected block again.  Memory, image and lengths do not change. */
    method PrepareData(src: nat, dest: nat, block: nat)
      modifies `clientPort, `sent, `itIsEof, `status, `blockExpected, `bootState, `oneTftpLock
      ensures Value() == ReceiveAck(old(Value()), src, dest, block)
      ensures dest != serverPort ==> unchanged(this)
      ensures var n := if block == old(blockExpected) then (block + 1) % 0x1_0000 else old(blockExpected);
              dest == serverPort && (block == old(blockExpected) ==> !old(itIsEof)) && 1 <= n <= LastBlock(fileLengthToClient) ==>
                sent == old(sent) + [Sent(serverPort, src, Data(n, BlockOf(Image(), n)))] && blockExpected == n
    {
      hide SendData, Read, LastBlock;
      if dest == serverPort {
        clientPort := src;
        if block != blockExpected {
          SendBlock(blockExpected);
        } else {
          blockExpected := (blockExpected + 1) % 0x1_0000;
          if !itIsEof {
            SendBlock(blockExpected);
          } else {
            EndDownload();
          }
        }
      }
    }

    method ErrorTftp()
      modifies `bootState
      ensures Value() == old(Value()).(bootState := InitArp)
    {
      bootState := InitArp;
    }

    /** BootStateEvent[bootState][event](): between transfers, data, acknowledgements and errors are dropped. */
    method Dispatch(p: Packet)
      modifies this
      ensures Value() == Handle(old(Value()), p)
      ensures old(bootState) == InitArp && !p.ReadRequest? && !p.WriteRequest? ==> unchanged(this)
    {
      hide BeginRead, BeginWrite, ReceiveData, ReceiveAck;
      match p {
        case ReadRequest(src, dest) =>
          if bootState == ClientWrq {
            ErrorTftp();
          } else {
            SetTftpRrq(src, dest);
          }
        case WriteRequest(src, dest, name) =>
          if bootState == ClientRrq {
            ErrorTftp();
          } else {
            SetTftpWrq(src, dest, name);
          }
        case DataPacket(src, dest, block, bytes) =>
          if bootState != InitArp {
            PrepareAck(src, dest, block, bytes);
          }
        case AckPacket(src, dest, block) =>
          if bootState != InitArp {
            PrepareData(src, dest, block);
          }
        case ErrorPacket =>
          if bootState != InitArp {
            ErrorTftp();
          }
        case OptionAck =>
          if bootState != InitArp {
            ErrorTftp();
          }
      }
    }

    /** kick_tftpd. */
    method KickTftpd(p: Packet, now: nat)
      requires status == Running
      modifies this
      ensures Value() == Kick(old(Value()), p, now)
      ensures old(Locked(Value())) ==> Locked(Value())
    {
      hide Handle;
      if Locked(Value()) {
        KickLocks(Value(), p, now);
      }
      match p {
        case ReadRequest(_, _) =>
          if !oneTftpLock {
            Dispatch(p);
          }
        case WriteRequest(_, _, _) =>
          if !oneTftpLock {
            rxKickoffTime := now;
            Dispatch(p);
          } else if blockExpected == 1 || (now - rxKickoffTime) % 0x1_0000_0000 > TIMEOUT {
            rxKickoffTime := now;
            Dispatch(p);
          }
        case DataPacket(_, _, _, _) =>
          rxKickoffTime := now;
          Dispatch(p);
        case _ =>
          Dispatch(p);
      }
    }
  }
}
